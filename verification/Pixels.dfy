/** The pixel path of the hardware encoder: BGRA to RGB and even crop
    (src/server/screen_capture.rs), RGB to YUV420P (src/common/ffmpeg_encoder.rs)
    and back (src/client/h264_decoder.rs). Arithmetic is over the reals and the
    video codec between the two conversions is taken to be the identity. */
module Pixels {
  import opened Basics
  import opened TileGrid
  import opened FrameCodec

  // ---------- One pixel ----------

  datatype Rgb = Rgb(r: byte, g: byte, b: byte)

  /** A float cast to u8: truncation towards zero, saturating at both ends. */
  function ToByte(x: real): byte {
    if x < 0.0 then 0 else if x >= 255.0 then 255 else x.Floor
  }

  function Clamp(x: real): real { if x < 0.0 then 0.0 else if x > 255.0 then 255.0 else x }

  function ExactY(p: Rgb): real { 0.299 * p.r as real + 0.587 * p.g as real + 0.114 * p.b as real }

  function ExactU(p: Rgb): real {
    (-0.169 * p.r as real - 0.331 * p.g as real + 0.500 * p.b as real) + 128.0
  }

  function ExactV(p: Rgb): real {
    (0.500 * p.r as real - 0.419 * p.g as real - 0.081 * p.b as real) + 128.0
  }

  function Y(p: Rgb): byte { ToByte(ExactY(p)) }

  function U(p: Rgb): byte { ToByte(ExactU(p)) }

  function V(p: Rgb): byte { ToByte(ExactV(p)) }

  function FromYuv(y: byte, u: byte, v: byte): Rgb {
    var yv, uv, vv := y as real, u as real - 128.0, v as real - 128.0;
    Rgb(ToByte(Clamp(yv + 1.402 * vv)),
        ToByte(Clamp(yv - 0.344 * uv - 0.714 * vv)),
        ToByte(Clamp(yv + 1.772 * uv)))
  }

  /** No plane value ever saturates: the exact value lies in [0, 256). */
  lemma PlanesNeverSaturate(p: Rgb)
    ensures 0.0 <= ExactY(p) < 256.0 && 0.0 <= ExactU(p) < 256.0 && 0.0 <= ExactV(p) < 256.0
    ensures Y(p) == ExactY(p).Floor && U(p) == ExactU(p).Floor && V(p) == ExactV(p).Floor
  {
  }

  /** v is the floor of n thousandths. */
  predicate FloorOf(v: byte, n: int) { 1000 * (v as int) <= n < 1000 * (v as int) + 1000 }

  /** The three plane values in whole numbers. */
  lemma PlanesWrittenOut(p: Rgb)
    ensures FloorOf(Y(p), 299 * p.r + 587 * p.g + 114 * p.b)
    ensures FloorOf(U(p), 128000 - 169 * p.r - 331 * p.g + 500 * p.b)
    ensures FloorOf(V(p), 128000 + 500 * p.r - 419 * p.g - 81 * p.b)
  {
    PlanesNeverSaturate(p);
    ThousandTimes(ExactY(p), 299 * p.r + 587 * p.g + 114 * p.b);
    ThousandTimes(ExactU(p), 128000 - 169 * p.r - 331 * p.g + 500 * p.b);
    ThousandTimes(ExactV(p), 128000 + 500 * p.r - 419 * p.g - 81 * p.b);
  }

  lemma ThousandTimes(x: real, n: int)
    requires 1000.0 * x == n as real
    ensures 1000 * x.Floor <= n < 1000 * x.Floor + 1000
  {
    var f := x.Floor;
    assert f as real <= x < f as real + 1.0;
    assert (1000 * f) as real == 1000.0 * f as real;
  }

  /** n thousandths as a byte: cut off below 0 and above 255, fractions dropped. */
  function Thousandths(n: int): byte { if n < 0 then 0 else if n >= 255000 then 255 else n / 1000 }

  /** A decoded pixel in whole numbers. */
  lemma FromYuvWrittenOut(y: byte, u: byte, v: byte)
    ensures var Y, U, V := y as int, u as int - 128, v as int - 128;
            FromYuv(y, u, v) == Rgb(Thousandths(1000 * Y + 1402 * V),
                                    Thousandths(1000 * Y - 344 * U - 714 * V),
                                    Thousandths(1000 * Y + 1772 * U))
  {
    var Y, U, V := y as int, u as int - 128, v as int - 128;
    var yv, uv, vv := y as real, u as real - 128.0, v as real - 128.0;
    ByteOfThousandths(yv + 1.402 * vv, 1000 * Y + 1402 * V);
    ByteOfThousandths(yv - 0.344 * uv - 0.714 * vv, 1000 * Y - 344 * U - 714 * V);
    ByteOfThousandths(yv + 1.772 * uv, 1000 * Y + 1772 * U);
    hide ToByte, Clamp, Thousandths;
  }

  lemma ByteOfThousandths(x: real, n: int)
    requires 1000.0 * x == n as real
    ensures ToByte(Clamp(x)) == Thousandths(n)
  {
    ThousandTimes(x, n);
  }

  function Apart(a: byte, b: byte): nat { if a >= b then a - b else b - a }

  predicate Near(p: Rgb, q: Rgb) { Apart(p.r, q.r) <= 3 && Apart(p.g, q.g) <= 2 && Apart(p.b, q.b) <= 3 }

  /** Clamping and truncating a value near a byte gives a byte near it. */
  lemma ToByteNear(x: real, b: byte, below: nat, above: nat)
    requires b as real - below as real <= x < b as real + above as real + 1.0
    ensures b - below <= ToByte(Clamp(x)) <= b + above
  {
  }

  lemma RedNear(p: Rgb)
    ensures Apart(FromYuv(Y(p), U(p), V(p)).r, p.r) <= 3
  {
    PlanesNeverSaturate(p);
    var y, v := Y(p) as real, V(p) as real - 128.0;
    var dy, dv := ExactY(p) - y, ExactV(p) - 128.0 - v;
    assert y + 1.402 * v == p.r as real - 0.000438 * p.g as real + 0.000438 * p.b as real - dy - 1.402 * dv;
    hide Y, U, V, ToByte, Clamp;
    ToByteNear(y + 1.402 * v, p.r, 3, 0);
  }

  lemma GreenNear(p: Rgb)
    ensures Apart(FromYuv(Y(p), U(p), V(p)).g, p.g) <= 2
  {
    PlanesNeverSaturate(p);
    var y, u, v := Y(p) as real, U(p) as real - 128.0, V(p) as real - 128.0;
    var dy, du, dv := ExactY(p) - y, ExactU(p) - 128.0 - u, ExactV(p) - 128.0 - v;
    assert y - 0.344 * u - 0.714 * v ==
           1.00003 * p.g as real + 0.000136 * p.r as real - 0.000166 * p.b as real - dy + 0.344 * du + 0.714 * dv;
    hide Y, U, V, ToByte, Clamp;
    ToByteNear(y - 0.344 * u - 0.714 * v, p.g, 2, 1);
  }

  lemma BlueNear(p: Rgb)
    ensures Apart(FromYuv(Y(p), U(p), V(p)).b, p.b) <= 3
  {
    PlanesNeverSaturate(p);
    var y, u := Y(p) as real, U(p) as real - 128.0;
    var dy, du := ExactY(p) - y, ExactU(p) - 128.0 - u;
    assert y + 1.772 * u == p.b as real - 0.000468 * p.r as real + 0.000468 * p.g as real - dy - 1.772 * du;
    hide Y, U, V, ToByte, Clamp;
    ToByteNear(y + 1.772 * u, p.b, 3, 0);
  }

  /** A pixel converted with its own chroma comes back within 3, 2 and 3. */
  lemma RecoversNear(p: Rgb)
    ensures Near(FromYuv(Y(p), U(p), V(p)), p)
  {
    RedNear(p);
    GreenNear(p);
    BlueNear(p);
  }

  /** Greys are exact: luma t, both chromas 128, and back. */
  lemma GreyExact(t: byte)
    ensures Y(Rgb(t, t, t)) == t && U(Rgb(t, t, t)) == 128 && V(Rgb(t, t, t)) == 128
    ensures FromYuv(t, 128, 128) == Rgb(t, t, t)
  {
    var p := Rgb(t, t, t);
    assert ExactY(p) == t as real && ExactU(p) == 128.0 && ExactV(p) == 128.0;
  }

  // ---------- BGRA to RGB and crop ----------

  /** Pixel i of a BGRA buffer. */
  function BgraPixel(bgra: seq<byte>, i: nat): Rgb
    requires 4 * i + 3 < |bgra|
  {
    Rgb(bgra[4 * i + 2], bgra[4 * i + 1], bgra[4 * i])
  }

  function PixelBytes(p: Rgb): seq<byte> { [p.r, p.g, p.b] }

  /** bgra_to_rgb on a buffer of any length: a trailing partial pixel is ignored. */
  method BgraToRgb(bgra: seq<byte>) returns (rgb: seq<byte>)
    ensures |rgb| == 3 * (|bgra| / 4)
    ensures forall i | 0 <= i < |bgra| / 4 :: rgb[3 * i..3 * i + 3] == PixelBytes(BgraPixel(bgra, i))
    ensures forall i | 0 <= i < |bgra| / 4 :: BytesSwapped(bgra, rgb, i)
  {
    rgb := [];
    var at := 0;
    while at + 4 <= |bgra|
      invariant at % 4 == 0 && at <= |bgra| && |rgb| == 3 * (at / 4)
      invariant forall i | 0 <= i < at / 4 :: rgb[3 * i..3 * i + 3] == PixelBytes(BgraPixel(bgra, i))
    {
      var chunk := bgra[at..at + 4];
      ghost var before := rgb;
      rgb := rgb + [chunk[2]] + [chunk[1]] + [chunk[0]];
      forall i | 0 <= i < at / 4
        ensures rgb[3 * i..3 * i + 3] == before[3 * i..3 * i + 3]
      {
      }
      at := at + 4;
    }
    forall i | 0 <= i < |bgra| / 4
      ensures BytesSwapped(bgra, rgb, i)
    {
      var bytes := rgb[3 * i..3 * i + 3];
      assert bytes == PixelBytes(BgraPixel(bgra, i));
      assert bytes[0] == rgb[3 * i] && bytes[1] == rgb[3 * i + 1] && bytes[2] == rgb[3 * i + 2];
    }
  }

  /** Pixel i: four bytes blue, green, red, unused become three bytes red, green, blue. */
  predicate BytesSwapped(bgra: seq<byte>, rgb: seq<byte>, i: nat) {
    && 4 * i + 2 < |bgra| && 3 * i + 2 < |rgb|
    && rgb[3 * i] == bgra[4 * i + 2] && rgb[3 * i + 1] == bgra[4 * i + 1] && rgb[3 * i + 2] == bgra[4 * i]
  }

  /** The even-size crop of capture_frame. */
  method Crop(rgb: seq<byte>, d: Dims, cw: nat, ch: nat) returns (cropped: seq<byte>)
    requires WellSized(d, rgb) && cw <= d.w && ch <= d.h
    ensures cropped == ExtractRows(d, rgb, 0, 0, cw, ch)
  {
    cropped := [];
    var y := 0;
    while y < ch
      invariant 0 <= y <= ch && cropped == ExtractRows(d, rgb, 0, 0, cw, y)
    {
      RowEndInRange(d, 0, cw, y);
      var srcOffset := y * d.w * 3;
      var srcEnd := srcOffset + cw * 3;
      cropped := cropped + rgb[srcOffset..srcEnd];
      y := y + 1;
    }
  }

  /** The capacity encoder_width * encoder_height * 3 is computed in u32: it fits
      wherever the uncropped frame does. */
  lemma CropCapacityInRange(d: Dims, cw: nat, ch: nat)
    requires cw <= d.w && ch <= d.h && FrameBytes(d) < TWO_32
    ensures cw * ch * 3 < TWO_32 && cw * ch < TWO_32
  {
    TimesMonotone(cw, d.w, ch);
    TimesMonotone(ch, d.h, d.w);
  }

  // ---------- Planes ----------

  /** Pixel (x, y) of an RGB frame. */
  function PixelAt(d: Dims, f: seq<byte>, x: nat, y: nat): Rgb
    requires WellSized(d, f) && Inside(d, x, y)
  {
    Rgb(At(d, f, x, y, 0), At(d, f, x, y, 1), At(d, f, x, y, 2))
  }

  /** Cells along an axis of n pixels sampled every `step`. */
  function Cells(n: nat, step: nat): nat
    requires step > 0
  {
    (n + step - 1) / step
  }

  function Cell(stride: nat, x: nat, y: nat): nat { y * stride + x }

  /** A plane with room for rows of cols cells, stride apart. */
  predicate PlaneFits(len: nat, stride: nat, cols: nat, rows: nat) { cols <= stride && rows * stride <= len }

  lemma CellInRange(len: nat, stride: nat, cols: nat, rows: nat, x: nat, y: nat)
    requires PlaneFits(len, stride, cols, rows) && x < cols && y < rows
    ensures Cell(stride, x, y) < y * stride + stride <= len
  {
    assert (y + 1) * stride <= rows * stride;
    assert (y + 1) * stride == y * stride + stride;
  }

  lemma EarlierRowBefore(stride: nat, y: nat, z: nat)
    requires y < z
    ensures y * stride + stride <= z * stride
  {
    assert (y + 1) * stride <= z * stride;
    assert (y + 1) * stride == y * stride + stride;
  }

  /** The plane holds conv of every step-th pixel of every step-th row. */
  ghost predicate Sampled(d: Dims, rgb: seq<byte>, plane: seq<byte>, stride: nat, step: nat, conv: Rgb -> byte, rows: nat)
    requires WellSized(d, rgb) && step > 0 && rows <= Cells(d.h, step)
    requires PlaneFits(|plane|, stride, Cells(d.w, step), Cells(d.h, step))
  {
    forall x: nat, y: nat | x < Cells(d.w, step) && y < rows ::
      SampledAt(d, rgb, plane, stride, step, conv, x, y)
  }

  ghost predicate SampledAt(d: Dims, rgb: seq<byte>, plane: seq<byte>, stride: nat, step: nat, conv: Rgb -> byte, x: nat, y: nat)
    requires WellSized(d, rgb) && step > 0
    requires PlaneFits(|plane|, stride, Cells(d.w, step), Cells(d.h, step))
    requires x < Cells(d.w, step) && y < Cells(d.h, step)
  {
    CellInRange(|plane|, stride, Cells(d.w, step), Cells(d.h, step), x, y);
    CellPixelInside(d, step, x, y);
    plane[Cell(stride, x, y)] == conv(PixelAt(d, rgb, x * step, y * step))
  }

  lemma CellPixelInside(d: Dims, step: nat, x: nat, y: nat)
    requires step > 0 && x < Cells(d.w, step) && y < Cells(d.h, step)
    ensures Inside(d, x * step, y * step)
  {
    CellStart(d.w, step, x);
    CellStart(d.h, step, y);
  }

  lemma CellStart(n: nat, step: nat, x: nat)
    requires step > 0 && x < Cells(n, step)
    ensures x * step < n
  {
    var q := (n + step - 1) / step;
    assert q * step <= n + step - 1;
    assert (x + 1) * step <= q * step;
    assert (x + 1) * step == x * step + step;
  }

  /** The inner loop of rgb_to_yuv420p: one row of a plane. */
  method FillRow(d: Dims, rgb: seq<byte>, plane: array<byte>, stride: nat, step: nat, conv: Rgb -> byte, y: nat)
    requires WellSized(d, rgb) && step > 0 && y < Cells(d.h, step)
    requires PlaneFits(plane.Length, stride, Cells(d.w, step), Cells(d.h, step))
    modifies plane
    ensures forall x: nat | x < Cells(d.w, step) :: SampledAt(d, rgb, plane[..], stride, step, conv, x, y)
    ensures forall i | 0 <= i < plane.Length && !(y * stride <= i < y * stride + stride) :: plane[i] == old(plane[i])
  {
    var x := 0;
    while x * step < d.w
      invariant x <= Cells(d.w, step)
      invariant forall k: nat | k < x :: SampledAt(d, rgb, plane[..], stride, step, conv, k, y)
      invariant forall i | 0 <= i < plane.Length && !(y * stride <= i < y * stride + stride) :: plane[i] == old(plane[i])
      decreases Cells(d.w, step) - x
    {
      InsideCells(d.w, step, x);
      CellInRange(plane.Length, stride, Cells(d.w, step), Cells(d.h, step), x, y);
      CellPixelInside(d, step, x, y);
      OffsetInRange(d, x * step, y * step);
      var rgbIdx := Offset(d.w, x * step, y * step);
      var p := Rgb(rgb[rgbIdx], rgb[rgbIdx + 1], rgb[rgbIdx + 2]);
      ghost var before := plane[..];
      plane[Cell(stride, x, y)] := conv(p);
      assert plane[..] == before[Cell(stride, x, y) := conv(p)];
      hide Offset, FrameBytes;
      forall k: nat | k < x
        ensures SampledAt(d, rgb, plane[..], stride, step, conv, k, y)
      {
        assert SampledAt(d, rgb, before, stride, step, conv, k, y);
      }
      x := x + 1;
    }
    assert x >= Cells(d.w, step) by { OutsideCells(d.w, step, x); }
  }

  lemma InsideCells(n: nat, step: nat, x: nat)
    requires step > 0 && x * step < n
    ensures x < Cells(n, step)
  {
    var q := (n + step - 1) / step;
    assert n + step - 1 < q * step + step;
    if x >= q {
      TimesMonotone(q, x, step);
    }
  }

  lemma OutsideCells(n: nat, step: nat, x: nat)
    requires step > 0 && x * step >= n
    ensures x >= Cells(n, step)
  {
    if x < Cells(n, step) {
      CellStart(n, step, x);
    }
  }

  /** The loops of rgb_to_yuv420p over one plane: step 1 for luma, 2 for chroma. */
  method FillPlane(d: Dims, rgb: seq<byte>, plane: array<byte>, stride: nat, step: nat, conv: Rgb -> byte)
    requires WellSized(d, rgb) && step > 0
    requires PlaneFits(plane.Length, stride, Cells(d.w, step), Cells(d.h, step))
    modifies plane
    ensures Sampled(d, rgb, plane[..], stride, step, conv, Cells(d.h, step))
  {
    var y := 0;
    while y * step < d.h
      invariant y <= Cells(d.h, step)
      invariant Sampled(d, rgb, plane[..], stride, step, conv, y)
      decreases Cells(d.h, step) - y
    {
      InsideCells(d.h, step, y);
      ghost var before := plane[..];
      FillRow(d, rgb, plane, stride, step, conv, y);
      forall x: nat, r: nat | x < Cells(d.w, step) && r < y
        ensures SampledAt(d, rgb, plane[..], stride, step, conv, x, r)
      {
        assert SampledAt(d, rgb, before, stride, step, conv, x, r);
        CellInRange(|before|, stride, Cells(d.w, step), Cells(d.h, step), x, r);
        EarlierRowBefore(stride, r, y);
      }
      y := y + 1;
    }
    OutsideCells(d.h, step, y);
  }

  // ---------- YUV to RGB ----------

  datatype Planes = Planes(y: seq<byte>, u: seq<byte>, v: seq<byte>, yStride: nat, uStride: nat, vStride: nat)

  predicate PlanesFit(d: Dims, f: Planes) {
    && PlaneFits(|f.y|, f.yStride, Cells(d.w, 1), Cells(d.h, 1))
    && PlaneFits(|f.u|, f.uStride, Cells(d.w, 2), Cells(d.h, 2))
    && PlaneFits(|f.v|, f.vStride, Cells(d.w, 2), Cells(d.h, 2))
  }

  lemma IndicesInRange(d: Dims, f: Planes, x: nat, y: nat)
    requires PlanesFit(d, f) && Inside(d, x, y)
    ensures Cell(f.yStride, x, y) < |f.y|
    ensures Cell(f.uStride, x / 2, y / 2) < |f.u| && Cell(f.vStride, x / 2, y / 2) < |f.v|
  {
    CellInRange(|f.y|, f.yStride, d.w, d.h, x, y);
    CellInRange(|f.u|, f.uStride, Cells(d.w, 2), Cells(d.h, 2), x / 2, y / 2);
    CellInRange(|f.v|, f.vStride, Cells(d.w, 2), Cells(d.h, 2), x / 2, y / 2);
  }

  /** What the decoder makes of pixel (x, y): its own luma, its block's chroma. */
  function Decoded(d: Dims, f: Planes, x: nat, y: nat): Rgb
    requires PlanesFit(d, f) && Inside(d, x, y)
  {
    IndicesInRange(d, f, x, y);
    FromYuv(f.y[Cell(f.yStride, x, y)], f.u[Cell(f.uStride, x / 2, y / 2)], f.v[Cell(f.vStride, x / 2, y / 2)])
  }

  function DecodedRow(d: Dims, f: Planes, y: nat, n: nat): (r: seq<byte>)
    requires PlanesFit(d, f) && y < d.h && n <= d.w
    ensures |r| == 3 * n
  {
    if n == 0 then [] else DecodedRow(d, f, y, n - 1) + PixelBytes(Decoded(d, f, n - 1, y))
  }

  function DecodedRows(d: Dims, f: Planes, n: nat): (r: seq<byte>)
    requires PlanesFit(d, f) && n <= d.h
    ensures |r| == 3 * (n * d.w)
  {
    if n == 0 then []
    else
      assert n * d.w == (n - 1) * d.w + d.w;
      DecodedRows(d, f, n - 1) + DecodedRow(d, f, n - 1, d.w)
  }

  method YuvToRgb(d: Dims, f: Planes) returns (rgb: seq<byte>)
    requires PlanesFit(d, f)
    ensures rgb == DecodedRows(d, f, d.h)
  {
    rgb := [];
    var y := 0;
    while y < d.h
      invariant 0 <= y <= d.h && rgb == DecodedRows(d, f, y)
    {
      hide PlanesFit;
      var row := YuvRow(d, f, y);
      rgb := rgb + row;
      y := y + 1;
    }
  }

  /** The inner loop of yuv_to_rgb: one row. */
  method YuvRow(d: Dims, f: Planes, y: nat) returns (row: seq<byte>)
    requires PlanesFit(d, f) && y < d.h
    ensures row == DecodedRow(d, f, y, d.w)
  {
    row := [];
    var x := 0;
    while x < d.w
      invariant 0 <= x <= d.w && row == DecodedRow(d, f, y, x)
    {
      IndicesInRange(d, f, x, y);
      hide FromYuv, PlanesFit, Cell;
      var yIdx := Cell(f.yStride, x, y);
      var uIdx := Cell(f.uStride, x / 2, y / 2);
      var vIdx := Cell(f.vStride, x / 2, y / 2);
      var p := FromYuv(f.y[yIdx], f.u[uIdx], f.v[vIdx]);
      assert p == Decoded(d, f, x, y);
      row := row + [p.r] + [p.g] + [p.b];
      x := x + 1;
    }
  }

  lemma {:induction false} DecodedRowAt(d: Dims, f: Planes, y: nat, n: nat, x: nat)
    requires PlanesFit(d, f) && y < d.h && x < n <= d.w
    ensures DecodedRow(d, f, y, n)[3 * x..3 * x + 3] == PixelBytes(Decoded(d, f, x, y))
  {
    hide PlanesFit, Decoded;
    if x < n - 1 {
      DecodedRowAt(d, f, y, n - 1, x);
      assert DecodedRow(d, f, y, n)[3 * x..3 * x + 3] == DecodedRow(d, f, y, n - 1)[3 * x..3 * x + 3];
    }
  }

  /** The decoded frame, pixel by pixel. */
  lemma {:induction false} DecodedRowsAt(d: Dims, f: Planes, n: nat, x: nat, y: nat)
    requires PlanesFit(d, f) && x < d.w && y < n <= d.h
    ensures Offset(d.w, x, y) + 3 <= 3 * (n * d.w)
    ensures DecodedRows(d, f, n)[Offset(d.w, x, y)..Offset(d.w, x, y) + 3] == PixelBytes(Decoded(d, f, x, y))
  {
    hide PlanesFit, DecodedRow;
    var above, row := DecodedRows(d, f, n - 1), DecodedRow(d, f, n - 1, d.w);
    RowOffsets(d.w, n, x, y);
    var o := Offset(d.w, x, y);
    hide Offset;
    assert DecodedRows(d, f, n) == above + row;
    if y < n - 1 {
      DecodedRowsAt(d, f, n - 1, x, y);
      assert (above + row)[o..o + 3] == above[o..o + 3];
    } else {
      DecodedRowAt(d, f, y, d.w, x);
      assert (above + row)[o..o + 3] == row[3 * x..3 * x + 3];
    }
  }

  lemma RowOffsets(w: nat, n: nat, x: nat, y: nat)
    requires x < w && y < n
    ensures n * w == (n - 1) * w + w && Offset(w, x, y) + 3 <= 3 * (n * w)
    ensures y < n - 1 ==> Offset(w, x, y) + 3 <= 3 * ((n - 1) * w)
    ensures y == n - 1 ==> Offset(w, x, y) == 3 * ((n - 1) * w) + 3 * x
  {
    OffsetInRange(Dims(w, n), x, y);
    if y < n - 1 {
      OffsetInRange(Dims(w, n - 1), x, y);
    }
  }

  lemma DecodedPixel(d: Dims, f: Planes, x: nat, y: nat)
    requires PlanesFit(d, f) && Inside(d, x, y)
    ensures WellSized(d, DecodedRows(d, f, d.h))
    ensures PixelAt(d, DecodedRows(d, f, d.h), x, y) == Decoded(d, f, x, y)
  {
    var r := DecodedRows(d, f, d.h);
    DecodedRowsAt(d, f, d.h, x, y);
    var o := Offset(d.w, x, y);
    var bytes := r[o..o + 3];
    assert bytes[0] == r[o] && bytes[1] == r[o + 1] && bytes[2] == r[o + 2];
  }

  // ---------- The whole path ----------

  ghost predicate Encoded(d: Dims, rgb: seq<byte>, f: Planes)
    requires WellSized(d, rgb) && PlanesFit(d, f)
  {
    && Sampled(d, rgb, f.y, f.yStride, 1, Y, Cells(d.h, 1))
    && Sampled(d, rgb, f.u, f.uStride, 2, U, Cells(d.h, 2))
    && Sampled(d, rgb, f.v, f.vStride, 2, V, Cells(d.h, 2))
  }

  /** One cell of a sampled plane. */
  lemma SampledCell(d: Dims, rgb: seq<byte>, plane: seq<byte>, stride: nat, step: nat, conv: Rgb -> byte, x: nat, y: nat)
    requires WellSized(d, rgb) && step > 0 && x < Cells(d.w, step) && y < Cells(d.h, step)
    requires PlaneFits(|plane|, stride, Cells(d.w, step), Cells(d.h, step))
    requires Sampled(d, rgb, plane, stride, step, conv, Cells(d.h, step))
    ensures Cell(stride, x, y) < |plane| && Inside(d, x * step, y * step)
    ensures plane[Cell(stride, x, y)] == conv(PixelAt(d, rgb, x * step, y * step))
  {
    CellInRange(|plane|, stride, Cells(d.w, step), Cells(d.h, step), x, y);
    CellPixelInside(d, step, x, y);
    hide Cells, PlaneFits, PixelAt;
    assert SampledAt(d, rgb, plane, stride, step, conv, x, y);
  }

  lemma CellWrittenOut(stride: nat, x: nat, y: nat)
    ensures Cell(stride, x, y) == y * stride + x
  {
  }

  /** The encoded planes in bytes and whole numbers: a luma cell for every pixel, and
      for every 2x2 block the chroma of its even-even corner. */
  lemma EncodedWrittenOut(d: Dims, rgb: seq<byte>, f: Planes, x: nat, y: nat)
    requires WellSized(d, rgb) && PlanesFit(d, f) && Encoded(d, rgb, f) && Inside(d, x, y)
    ensures Inside(d, Even(x), Even(y)) && Cell(f.yStride, x, y) < |f.y|
    ensures Cell(f.uStride, x / 2, y / 2) < |f.u| && Cell(f.vStride, x / 2, y / 2) < |f.v|
    ensures var p, q := PixelAt(d, rgb, x, y), PixelAt(d, rgb, Even(x), Even(y));
            && FloorOf(f.y[Cell(f.yStride, x, y)], 299 * p.r + 587 * p.g + 114 * p.b)
            && FloorOf(f.u[Cell(f.uStride, x / 2, y / 2)], 128000 - 169 * q.r - 331 * q.g + 500 * q.b)
            && FloorOf(f.v[Cell(f.vStride, x / 2, y / 2)], 128000 + 500 * q.r - 419 * q.g - 81 * q.b)
  {
    hide FloorOf, Y, U, V, PixelAt, Sampled, Cell;
    IndicesInRange(d, f, x, y);
    SampledCell(d, rgb, f.y, f.yStride, 1, Y, x, y);
    SampledCell(d, rgb, f.u, f.uStride, 2, U, x / 2, y / 2);
    SampledCell(d, rgb, f.v, f.vStride, 2, V, x / 2, y / 2);
    assert x * 1 == x && y * 1 == y && x / 2 * 2 == Even(x) && y / 2 * 2 == Even(y);
    PlanesWrittenOut(PixelAt(d, rgb, x, y));
    PlanesWrittenOut(PixelAt(d, rgb, Even(x), Even(y)));
  }

  /** Every decoded pixel is its own luma under the chroma of its block's corner. */
  lemma DecodeEncoded(d: Dims, rgb: seq<byte>, f: Planes, x: nat, y: nat)
    requires WellSized(d, rgb) && PlanesFit(d, f) && Encoded(d, rgb, f) && Inside(d, x, y)
    ensures Inside(d, Even(x), Even(y))
    ensures Decoded(d, f, x, y) ==
            FromYuv(Y(PixelAt(d, rgb, x, y)), U(PixelAt(d, rgb, Even(x), Even(y))), V(PixelAt(d, rgb, Even(x), Even(y))))
  {
    IndicesInRange(d, f, x, y);
    SampledCell(d, rgb, f.y, f.yStride, 1, Y, x, y);
    SampledCell(d, rgb, f.u, f.uStride, 2, U, x / 2, y / 2);
    SampledCell(d, rgb, f.v, f.vStride, 2, V, x / 2, y / 2);
    assert x * 1 == x && y * 1 == y && x / 2 * 2 == Even(x) && y / 2 * 2 == Even(y);
    hide FromYuv, Y, U, V, PixelAt, Cell, Sampled;
  }

  /** rgb_to_yuv420p into planes with the given strides. */
  method EncodeFrame(d: Dims, rgb: seq<byte>, yStride: nat, uStride: nat, vStride: nat) returns (f: Planes)
    requires WellSized(d, rgb)
    requires yStride >= d.w && uStride >= Cells(d.w, 2) && vStride >= Cells(d.w, 2)
    ensures PlanesFit(d, f) && Encoded(d, rgb, f)
    ensures f.yStride == yStride && f.uStride == uStride && f.vStride == vStride
  {
    hide Sampled, PlaneFits;
    assert Cells(d.w, 1) == d.w;
    var yPlane := NewPlane(d, rgb, yStride, 1, Y);
    var uPlane := NewPlane(d, rgb, uStride, 2, U);
    var vPlane := NewPlane(d, rgb, vStride, 2, V);
    f := Planes(yPlane, uPlane, vPlane, yStride, uStride, vStride);
  }

  /** A plane of the given stride, allocated and filled. */
  method NewPlane(d: Dims, rgb: seq<byte>, stride: nat, step: nat, conv: Rgb -> byte) returns (plane: seq<byte>)
    requires WellSized(d, rgb) && step > 0 && stride >= Cells(d.w, step)
    ensures PlaneFits(|plane|, stride, Cells(d.w, step), Cells(d.h, step))
    ensures Sampled(d, rgb, plane, stride, step, conv, Cells(d.h, step))
  {
    hide Sampled, Cells;
    var cells := new byte[Cells(d.h, step) * stride];
    FillPlane(d, rgb, cells, stride, step, conv);
    plane := cells[..];
  }

  /** Pixel (x, y) of the captured BGRA buffer. */
  function Captured(bgra: seq<byte>, d: Dims, x: nat, y: nat): Rgb
    requires |bgra| == 4 * (d.h * d.w) && Inside(d, x, y)
  {
    OffsetInRange(d, x, y);
    BgraPixel(bgra, y * d.w + x)
  }

  /** rgb is what BgraToRgb makes of bgra. */
  ghost predicate Swizzled(bgra: seq<byte>, rgb: seq<byte>) {
    && |rgb| == 3 * (|bgra| / 4)
    && forall i | 0 <= i < |bgra| / 4 :: rgb[3 * i..3 * i + 3] == PixelBytes(BgraPixel(bgra, i))
  }

  lemma SwizzledSize(bgra: seq<byte>, rgb: seq<byte>, d: Dims)
    requires |bgra| == 4 * (d.h * d.w) && |rgb| == 3 * (|bgra| / 4)
    ensures WellSized(d, rgb)
  {
  }

  lemma SwizzledPixel(bgra: seq<byte>, rgb: seq<byte>, d: Dims, x: nat, y: nat)
    requires |bgra| == 4 * (d.h * d.w) && Swizzled(bgra, rgb) && Inside(d, x, y)
    ensures WellSized(d, rgb) && PixelAt(d, rgb, x, y) == Captured(bgra, d, x, y)
  {
    OffsetInRange(d, x, y);
    var i := y * d.w + x;
    var bytes := rgb[3 * i..3 * i + 3];
    assert bytes == PixelBytes(BgraPixel(bgra, i));
    assert bytes[0] == rgb[3 * i] && bytes[1] == rgb[3 * i + 1] && bytes[2] == rgb[3 * i + 2];
  }

  lemma CropWellSized(d: Dims, rgb: seq<byte>, e: Dims)
    requires WellSized(d, rgb) && e.w <= d.w && e.h <= d.h
    ensures WellSized(e, ExtractRows(d, rgb, 0, 0, e.w, e.h))
  {
    ExtractRowsLength(d, rgb, 0, 0, e.w, e.h);
    assert RowStart(e.w, e.h) == FrameBytes(e);
  }

  /** The crop keeps the top-left pixels where they are. */
  lemma CroppedPixel(d: Dims, rgb: seq<byte>, e: Dims, x: nat, y: nat)
    requires WellSized(d, rgb) && e.w <= d.w && e.h <= d.h && Inside(e, x, y)
    ensures WellSized(e, ExtractRows(d, rgb, 0, 0, e.w, e.h))
    ensures PixelAt(e, ExtractRows(d, rgb, 0, 0, e.w, e.h), x, y) == PixelAt(d, rgb, x, y)
  {
    CropWellSized(d, rgb, e);
    CroppedByte(d, rgb, e, x, y, 0);
    CroppedByte(d, rgb, e, x, y, 1);
    CroppedByte(d, rgb, e, x, y, 2);
  }

  lemma CroppedByte(d: Dims, rgb: seq<byte>, e: Dims, x: nat, y: nat, c: nat)
    requires WellSized(d, rgb) && e.w <= d.w && e.h <= d.h && Inside(e, x, y) && c < 3
    requires WellSized(e, ExtractRows(d, rgb, 0, 0, e.w, e.h))
    ensures At(e, ExtractRows(d, rgb, 0, 0, e.w, e.h), x, y, c) == At(d, rgb, x, y, c)
  {
    ExtractRowsAt(d, rgb, 0, 0, e.w, e.h, x, y, c);
    hide ExtractRows, WellSized;
    SameOffset(e.w, x, y);
  }

  lemma SameOffset(w: nat, x: nat, y: nat)
    ensures RowStart(w, y) + 3 * x == Offset(w, x, y)
  {
  }

  /** One pixel of the whole path. */
  lemma PathPixel(bgra: seq<byte>, d: Dims, rgb: seq<byte>, e: Dims, f: Planes, x: nat, y: nat)
    requires |bgra| == 4 * (d.h * d.w) && Swizzled(bgra, rgb) && WellSized(d, rgb)
    requires e.w <= d.w && e.h <= d.h && Inside(e, x, y)
    requires WellSized(e, ExtractRows(d, rgb, 0, 0, e.w, e.h))
    requires PlanesFit(e, f) && Encoded(e, ExtractRows(d, rgb, 0, 0, e.w, e.h), f)
    ensures Inside(d, x, y) && Inside(d, Even(x), Even(y)) && WellSized(e, DecodedRows(e, f, e.h))
    ensures PixelAt(e, DecodedRows(e, f, e.h), x, y) ==
            FromYuv(Y(Captured(bgra, d, x, y)), U(Captured(bgra, d, Even(x), Even(y))), V(Captured(bgra, d, Even(x), Even(y))))
  {
    hide FromYuv, Y, U, V, PixelAt, Captured, Decoded, ExtractRows, DecodedRows, Encoded, Swizzled;
    var cropped := ExtractRows(d, rgb, 0, 0, e.w, e.h);
    DecodedPixel(e, f, x, y);
    DecodeEncoded(e, cropped, f, x, y);
    CroppedPixel(d, rgb, e, x, y);
    CroppedPixel(d, rgb, e, Even(x), Even(y));
    SwizzledPixel(bgra, rgb, d, x, y);
    SwizzledPixel(bgra, rgb, d, Even(x), Even(y));
  }

  /** The result keeps even-even pixels within 3, 2 and 3. */
  ghost predicate EvenPixelsNear(bgra: seq<byte>, d: Dims, e: Dims, out: seq<byte>)
    requires |bgra| == 4 * (d.h * d.w) && WellSized(e, out) && e.w <= d.w && e.h <= d.h
  {
    forall x: nat, y: nat | Inside(e, x, y) && x % 2 == 0 && y % 2 == 0 ::
      Near(PixelAt(e, out, x, y), Captured(bgra, d, x, y))
  }

  /** A pixel that shares its grey with the even corner of its 2x2 block is exact;
      so a uniform grey block is exact at all four pixels. */
  ghost predicate GreyBlocksExact(bgra: seq<byte>, d: Dims, e: Dims, out: seq<byte>)
    requires |bgra| == 4 * (d.h * d.w) && WellSized(e, out) && e.w <= d.w && e.h <= d.h
  {
    forall x: nat, y: nat, t: byte | Inside(e, x, y) &&
      Captured(bgra, d, x, y) == Rgb(t, t, t) == Captured(bgra, d, Even(x), Even(y)) ::
      PixelAt(e, out, x, y) == Rgb(t, t, t)
  }

  /** From captured BGRA to the client's RGB, for any size and any strides that
      fit; every index of every stage is in range. */
  method CaptureToScreen(bgra: seq<byte>, d: Dims, yStride: nat, uStride: nat, vStride: nat)
    returns (out: seq<byte>, even: Dims)
    requires |bgra| == 4 * (d.h * d.w)
    requires yStride >= Even(d.w) && uStride >= Even(d.w) / 2 && vStride >= Even(d.w) / 2
    ensures even == Dims(Even(d.w), Even(d.h)) && WellSized(even, out)
    ensures EvenPixelsNear(bgra, d, even, out) && GreyBlocksExact(bgra, d, even, out)
  {
    even := Dims(Even(d.w), Even(d.h));
    assert even.w <= d.w && even.h <= d.h && Cells(even.w, 2) == Even(d.w) / 2;
    hide EvenPixelsNear, GreyBlocksExact, PlanesFit, Encoded, ExtractRows, DecodedRows, Even, Cells;
    var rgb := BgraToRgb(bgra);
    SwizzledSize(bgra, rgb, d);
    var cropped := Crop(rgb, d, even.w, even.h);
    CropWellSized(d, rgb, even);
    var f := EncodeFrame(even, cropped, yStride, uStride, vStride);
    out := YuvToRgb(even, f);
    PathResult(bgra, d, rgb, even, f);
  }

  lemma PathResult(bgra: seq<byte>, d: Dims, rgb: seq<byte>, e: Dims, f: Planes)
    requires |bgra| == 4 * (d.h * d.w) && Swizzled(bgra, rgb) && WellSized(d, rgb)
    requires e.w <= d.w && e.h <= d.h
    requires WellSized(e, ExtractRows(d, rgb, 0, 0, e.w, e.h))
    requires PlanesFit(e, f) && Encoded(e, ExtractRows(d, rgb, 0, 0, e.w, e.h), f)
    ensures WellSized(e, DecodedRows(e, f, e.h))
    ensures EvenPixelsNear(bgra, d, e, DecodedRows(e, f, e.h)) && GreyBlocksExact(bgra, d, e, DecodedRows(e, f, e.h))
  {
    DecodedSize(e, f);
    var out := DecodedRows(e, f, e.h);
    hide FromYuv, Y, U, V, PixelAt, Captured, ExtractRows, DecodedRows, Encoded, Near, Swizzled, PlanesFit;
    forall x: nat, y: nat | Inside(e, x, y)
      ensures x % 2 == 0 && y % 2 == 0 ==> Near(PixelAt(e, out, x, y), Captured(bgra, d, x, y))
      ensures forall t: byte | Captured(bgra, d, x, y) == Rgb(t, t, t) == Captured(bgra, d, Even(x), Even(y)) ::
                PixelAt(e, out, x, y) == Rgb(t, t, t)
    {
      PathPixel(bgra, d, rgb, e, f, x, y);
      PixelResult(Captured(bgra, d, x, y), Captured(bgra, d, Even(x), Even(y)));
    }
  }

  /** A pixel under its own chroma comes back near, one under its own grey exactly. */
  lemma PixelResult(p: Rgb, q: Rgb)
    ensures p == q ==> Near(FromYuv(Y(p), U(q), V(q)), p)
    ensures forall t: byte | p == Rgb(t, t, t) == q :: FromYuv(Y(p), U(q), V(q)) == Rgb(t, t, t)
  {
    RecoversNear(p);
    GreyExact(p.r);
    hide FromYuv, Y, U, V, Near;
  }

  lemma DecodedSize(d: Dims, f: Planes)
    requires PlanesFit(d, f)
    ensures WellSized(d, DecodedRows(d, f, d.h))
  {
  }
}
