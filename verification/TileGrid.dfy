/** Geometry of src/common/frame_processor.rs: row-major RGB frames cut into
    64x64 tiles whose last column and row are clipped to the frame. */
module TileGrid {
  import opened Basics

  const TILE: nat := 64

  datatype Dims = Dims(w: nat, h: nat)

  /** A rectangle of pixels together with its bytes, row by row. */
  datatype TileData = TileData(x: nat, y: nat, width: nat, height: nat, data: seq<byte>)

  /** Number of tiles needed to cover n pixels. */
  function TilesAcross(n: nat): nat { (n + TILE - 1) / TILE }

  /** Pixels of tile t along an axis of n pixels. */
  function Extent(n: nat, t: nat): nat
    requires t < TilesAcross(n)
  {
    Min(TILE, n - t * TILE)
  }

  /** Byte offset of a pixel. */
  function Offset(w: nat, px: nat, py: nat): nat { 3 * (py * w + px) }

  /** Bytes of a whole frame. */
  function FrameBytes(d: Dims): nat { 3 * (d.h * d.w) }

  /** Bytes before row k of a rectangle of width w. */
  function RowStart(w: nat, k: nat): nat { k * (3 * w) }

  predicate WellSized(d: Dims, f: seq<byte>) { |f| == FrameBytes(d) }

  predicate Inside(d: Dims, px: nat, py: nat) { px < d.w && py < d.h }

  predicate GridTile(d: Dims, tx: nat, ty: nat) {
    tx < TilesAcross(d.w) && ty < TilesAcross(d.h)
  }

  /** Pixel (px, py) lies in the rectangle of tile (tx, ty). */
  predicate InTile(d: Dims, tx: nat, ty: nat, px: nat, py: nat)
    requires GridTile(d, tx, ty)
  {
    && tx * TILE <= px < tx * TILE + Extent(d.w, tx)
    && ty * TILE <= py < ty * TILE + Extent(d.h, ty)
  }

  /** Three bytes a pixel, row after row. */
  lemma IndicesWrittenOut(w: nat, px: nat, py: nat, d: Dims, f: seq<byte>)
    ensures Offset(w, px, py) == 3 * (py * w + px) && RowStart(w, py) == py * (3 * w)
    ensures WellSized(d, f) <==> |f| == 3 * (d.h * d.w)
  {
  }

  lemma RowStartNext(w: nat, k: nat)
    ensures RowStart(w, 0) == 0 && RowStart(w, k + 1) == RowStart(w, k) + 3 * w
  {
  }

  /** Rows before the last one end inside the rectangle. */
  lemma RowStartInRange(w: nat, k: nat, rows: nat)
    requires k < rows
    ensures RowStart(w, k) + 3 * w <= RowStart(w, rows)
  {
    TimesMonotone(k + 1, rows, 3 * w);
  }

  lemma RowEndInRange(d: Dims, x: nat, len: nat, py: nat)
    requires x + len <= d.w && py < d.h
    ensures Offset(d.w, x, py) + 3 * len <= FrameBytes(d)
  {
    TimesMonotone(py + 1, d.h, d.w);
  }

  lemma OffsetInRange(d: Dims, px: nat, py: nat)
    requires Inside(d, px, py)
    ensures Offset(d.w, px, py) + 3 <= FrameBytes(d)
  {
    RowEndInRange(d, px, 1, py);
  }

  lemma OffsetAlongRow(w: nat, x: nat, i: nat, py: nat)
    ensures Offset(w, x + i, py) == Offset(w, x, py) + 3 * i
  {
  }

  /** Component c of a pixel. */
  function At(d: Dims, f: seq<byte>, px: nat, py: nat, c: nat): byte
    requires WellSized(d, f) && Inside(d, px, py) && c < 3
  {
    OffsetInRange(d, px, py);
    f[Offset(d.w, px, py) + c]
  }

  /** Flat row ranges and two-dimensional rows are the same thing: byte c of
      (px, py) falls in the run of len pixels at (x, row) exactly when the
      pixel is in that row and in those columns. */
  lemma RowRange(w: nat, px: nat, py: nat, c: nat, x: nat, row: nat, len: nat)
    requires px < w && c < 3 && x + len <= w
    ensures Offset(w, x, row) <= Offset(w, px, py) + c < Offset(w, x, row) + 3 * len
            <==> py == row && x <= px < x + len
    ensures py == row ==> Offset(w, px, py) - Offset(w, x, row) == 3 * (px - x)
  {
    if py < row {
      TimesMonotone(py + 1, row, w);
    } else if row < py {
      TimesMonotone(row + 1, py, w);
    } else {
      OffsetAlongRow(w, 0, px, py);
      OffsetAlongRow(w, 0, x, py);
      hide Offset;
    }
  }

  /** Every pixel lies in one and only one tile of the grid. */
  lemma TilesPartition(d: Dims, px: nat, py: nat)
    requires Inside(d, px, py)
    ensures GridTile(d, px / TILE, py / TILE)
    ensures forall tx: nat, ty: nat | GridTile(d, tx, ty) ::
              InTile(d, tx, ty, px, py) <==> tx == px / TILE && ty == py / TILE
  {
  }

  /** Tiles never leave the frame, and none is empty. */
  lemma TileInside(d: Dims, tx: nat, ty: nat)
    requires GridTile(d, tx, ty)
    ensures 1 <= Extent(d.w, tx) <= TILE && 1 <= Extent(d.h, ty) <= TILE
    ensures tx * TILE + Extent(d.w, tx) <= d.w
    ensures ty * TILE + Extent(d.h, ty) <= d.h
  {
  }

  /** A well-sized frame is determined by its pixel components. */
  lemma FrameExtensionality(d: Dims, f: seq<byte>, g: seq<byte>)
    requires WellSized(d, f) && WellSized(d, g)
    requires forall px: nat, py: nat, c: nat | Inside(d, px, py) && c < 3 ::
               At(d, f, px, py, c) == At(d, g, px, py, c)
    ensures f == g
  {
    forall i | 0 <= i < |f|
      ensures f[i] == g[i]
    {
      var px, py := PixelOfByte(d, i);
      assert At(d, f, px, py, i % 3) == At(d, g, px, py, i % 3);
    }
  }

  /** Every byte of a frame belongs to a pixel. */
  lemma PixelOfByte(d: Dims, i: nat) returns (px: nat, py: nat)
    requires i < FrameBytes(d)
    ensures Inside(d, px, py) && Offset(d.w, px, py) + i % 3 == i
  {
    var p := i / 3;
    assert p < d.h * d.w;
    px, py := DivideByWidth(d.w, d.h, p);
  }

  lemma DivideByWidth(w: nat, h: nat, p: nat) returns (px: nat, py: nat)
    requires p < h * w
    ensures px < w && py < h && py * w + px == p
    decreases h
  {
    assert h > 0;
    if p < w {
      px, py := p, 0;
    } else {
      assert h * w == (h - 1) * w + w;
      px, py := DivideByWidth(w, h - 1, p - w);
      assert (py + 1) * w == py * w + w;
      py := py + 1;
    }
  }
}
