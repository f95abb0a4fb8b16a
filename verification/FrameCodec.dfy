/** What the tile codec of src/common/frame_processor.rs computes, as functions
    on byte sequences, and what those functions mean pixel by pixel. The
    functions keep every length guard of the code, so they are defined for
    frames and tiles of any size. */
module FrameCodec {
  import opened Basics
  import opened TileGrid

  datatype FrameType = KeyFrame | DeltaFrame

  datatype ProcessedFrame = ProcessedFrame(
    frameType: FrameType, data: seq<byte>, width: nat, height: nat, tiles: Option<seq<TileData>>)

  // ---------- Cutting a tile out ----------

  /** The first k rows of the rectangle; a row that ends past the frame is left out. */
  function ExtractRows(d: Dims, f: seq<byte>, x: nat, y: nat, w: nat, k: nat): seq<byte> {
    if k == 0 then []
    else
      var start := Offset(d.w, x, y + k - 1);
      ExtractRows(d, f, x, y, w, k - 1) +
      (if start + 3 * w <= |f| then f[start..start + 3 * w] else [])
  }

  /** Rows visited before the code's break at the bottom of the frame. */
  function RowsInFrame(d: Dims, y: nat, h: nat): nat {
    if y >= d.h then 0 else Min(h, d.h - y)
  }

  function ExtractTile(d: Dims, f: seq<byte>, x: nat, y: nat, w: nat, h: nat): seq<byte> {
    ExtractRows(d, f, x, y, w, RowsInFrame(d, y, h))
  }

  /** Tile (tx, ty) as cut out of f. */
  function TileOf(d: Dims, f: seq<byte>, tx: nat, ty: nat): TileData
    requires GridTile(d, tx, ty)
  {
    var w, h := Extent(d.w, tx), Extent(d.h, ty);
    TileData(tx * TILE, ty * TILE, w, h, ExtractTile(d, f, tx * TILE, ty * TILE, w, h))
  }

  // ---------- Pasting a tile in ----------

  function Blit(f: seq<byte>, off: nat, src: seq<byte>): (r: seq<byte>)
    requires off + |src| <= |f|
    ensures |r| == |f|
    ensures forall i | 0 <= i < |f| :: r[i] == if off <= i < off + |src| then src[i - off] else f[i]
  {
    f[..off] + src + f[off + |src|..]
  }

  /** Row k of the tile, copied only if both slices are in range. */
  function CopyRow(d: Dims, f: seq<byte>, t: TileData, k: nat): (r: seq<byte>)
    ensures |r| == |f|
  {
    var off, len := Offset(d.w, t.x, t.y + k), 3 * t.width;
    var start := RowStart(t.width, k);
    if off + len <= |f| && start + len <= |t.data|
    then Blit(f, off, t.data[start..start + len])
    else f
  }

  function CopyRows(d: Dims, f: seq<byte>, t: TileData, k: nat): (r: seq<byte>)
    ensures |r| == |f|
  {
    if k == 0 then f else CopyRow(d, CopyRows(d, f, t, k - 1), t, k - 1)
  }

  lemma CopyRowsNext(d: Dims, f: seq<byte>, t: TileData, k: nat)
    ensures CopyRows(d, f, t, 0) == f && CopyRows(d, f, t, k + 1) == CopyRow(d, CopyRows(d, f, t, k), t, k)
  {
  }

  function CopyTile(d: Dims, f: seq<byte>, t: TileData): (r: seq<byte>)
    ensures |r| == |f|
  {
    CopyRows(d, f, t, RowsInFrame(d, t.y, t.height))
  }

  function ApplyTiles(d: Dims, f: seq<byte>, ts: seq<TileData>): (r: seq<byte>)
    ensures |r| == |f|
  {
    if ts == [] then f
    else CopyTile(d, ApplyTiles(d, f, ts[..|ts| - 1]), ts[|ts| - 1])
  }

  // ---------- Finding changed tiles ----------

  /** Corners and centre of a w x h rectangle. */
  function SamplePoints(w: nat, h: nat): seq<(nat, nat)>
    requires w >= 1 && h >= 1
  {
    [(0, 0), (w - 1, 0), (0, h - 1), (w - 1, h - 1), (w / 2, h / 2)]
  }

  /** The three bytes at (px, py) differ; a sample outside either frame is skipped. */
  predicate SampleDiffers(d: Dims, prev: seq<byte>, cur: seq<byte>, px: nat, py: nat) {
    && Inside(d, px, py)
    && var o := Offset(d.w, px, py);
    && o + 3 <= |prev| && o + 3 <= |cur|
    && prev[o..o + 3] != cur[o..o + 3]
  }

  predicate TileChanged(d: Dims, prev: seq<byte>, cur: seq<byte>, tx: nat, ty: nat)
    requires GridTile(d, tx, ty)
  {
    var ps := SamplePoints(Extent(d.w, tx), Extent(d.h, ty));
    exists i | 0 <= i < |ps| ::
      SampleDiffers(d, prev, cur, tx * TILE + ps[i].0, ty * TILE + ps[i].1)
  }

  /** Changed tiles of tile row ty, columns below n. */
  function ChangedInRow(d: Dims, prev: seq<byte>, cur: seq<byte>, ty: nat, n: nat): seq<TileData>
    requires n <= TilesAcross(d.w) && ty < TilesAcross(d.h)
  {
    if n == 0 then []
    else
      ChangedInRow(d, prev, cur, ty, n - 1) +
      (if TileChanged(d, prev, cur, n - 1, ty) then [TileOf(d, cur, n - 1, ty)] else [])
  }

  /** Changed tiles of the first n tile rows. */
  function ChangedRows(d: Dims, prev: seq<byte>, cur: seq<byte>, n: nat): seq<TileData>
    requires n <= TilesAcross(d.h)
  {
    if n == 0 then []
    else ChangedRows(d, prev, cur, n - 1) + ChangedInRow(d, prev, cur, n - 1, TilesAcross(d.w))
  }

  function ChangedTiles(d: Dims, prev: seq<byte>, cur: seq<byte>): seq<TileData> {
    ChangedRows(d, prev, cur, TilesAcross(d.h))
  }

  // ---------- One capture ----------

  function TotalTiles(d: Dims): nat { TilesAcross(d.w) * TilesAcross(d.h) }

  predicate SendsKey(d: Dims, last: Option<seq<byte>>, frame: seq<byte>, force: bool) {
    last.None? || force || |ChangedTiles(d, last.value, frame)| > TotalTiles(d) * 6 / 10
  }

  function Process(d: Dims, last: Option<seq<byte>>, frame: seq<byte>, force: bool): ProcessedFrame {
    if SendsKey(d, last, frame, force)
    then ProcessedFrame(KeyFrame, frame, d.w, d.h, None)
    else ProcessedFrame(DeltaFrame, [], d.w, d.h, Some(ChangedTiles(d, last.value, frame)))
  }

  function NextLast(d: Dims, last: Option<seq<byte>>, frame: seq<byte>, force: bool): seq<byte> {
    if SendsKey(d, last, frame, force)
    then frame
    else ApplyTiles(d, last.value, ChangedTiles(d, last.value, frame))
  }

  // ---------- Meaning of extraction and pasting ----------

  lemma {:induction false} ExtractRowsAt(d: Dims, f: seq<byte>, x: nat, y: nat, w: nat, k: nat, i: nat, j: nat, c: nat)
    requires WellSized(d, f) && x + w <= d.w && y + k <= d.h && i < w && j < k && c < 3
    ensures |ExtractRows(d, f, x, y, w, k)| == RowStart(w, k)
    ensures RowStart(w, j) + 3 * i + c < RowStart(w, k)
    ensures ExtractRows(d, f, x, y, w, k)[RowStart(w, j) + 3 * i + c] == At(d, f, x + i, y + j, c)
  {
    hide RowStart, ExtractRows, FrameBytes, Offset;
    RowStartInRange(w, j, k);
    OffsetInRange(d, x + i, y + j);
    LastRowAppended(d, f, x, y, w, k);
    if j < k - 1 {
      RowStartInRange(w, j, k - 1);
      ExtractRowsAt(d, f, x, y, w, k - 1, i, j, c);
    } else {
      OffsetAlongRow(d.w, x, i, y + j);
    }
  }

  /** The k-th row comes after the rows above it. */
  lemma LastRowAppended(d: Dims, f: seq<byte>, x: nat, y: nat, w: nat, k: nat)
    requires WellSized(d, f) && x + w <= d.w && y + k <= d.h && k > 0
    ensures |ExtractRows(d, f, x, y, w, k - 1)| == RowStart(w, k - 1)
    ensures |ExtractRows(d, f, x, y, w, k)| == RowStart(w, k) == RowStart(w, k - 1) + 3 * w
    ensures Offset(d.w, x, y + k - 1) + 3 * w <= |f|
    ensures var start := Offset(d.w, x, y + k - 1);
            ExtractRows(d, f, x, y, w, k) == ExtractRows(d, f, x, y, w, k - 1) + f[start..start + 3 * w]
  {
    ExtractRowsLength(d, f, x, y, w, k);
    ExtractRowsLength(d, f, x, y, w, k - 1);
    RowEndInRange(d, x, w, y + k - 1);
    RowStartNext(w, k - 1);
    hide RowStart, Offset, FrameBytes;
  }

  lemma {:induction false} ExtractRowsLength(d: Dims, f: seq<byte>, x: nat, y: nat, w: nat, k: nat)
    requires WellSized(d, f) && x + w <= d.w && y + k <= d.h
    ensures |ExtractRows(d, f, x, y, w, k)| == RowStart(w, k)
  {
    RowStartNext(w, if k > 0 then k - 1 else 0);
    if k > 0 {
      ExtractRowsLength(d, f, x, y, w, k - 1);
      RowEndInRange(d, x, w, y + k - 1);
      hide RowStart, Offset, FrameBytes;
    }
  }

  /** A tile whose rectangle and byte count fit the frame. */
  predicate Fits(d: Dims, t: TileData) {
    t.x + t.width <= d.w && t.y + t.height <= d.h && |t.data| == RowStart(t.width, t.height)
  }

  predicate Covers(t: TileData, px: nat, py: nat, rows: nat) {
    t.x <= px < t.x + t.width && t.y <= py < t.y + rows
  }

  lemma TileIndexInRange(t: TileData, px: nat, py: nat, c: nat, d: Dims)
    requires Fits(d, t) && Covers(t, px, py, t.height) && c < 3
    ensures RowStart(t.width, py - t.y) + 3 * (px - t.x) + c < |t.data|
  {
    RowStartInRange(t.width, py - t.y, t.height);
    hide RowStart;
  }

  /** Byte c of (px, py) in the tile's own data. */
  function TileAt(d: Dims, t: TileData, px: nat, py: nat, c: nat): byte
    requires Fits(d, t) && Covers(t, px, py, t.height) && c < 3
  {
    TileIndexInRange(t, px, py, c, d);
    t.data[RowStart(t.width, py - t.y) + 3 * (px - t.x) + c]
  }

  /** Pasting k rows changes the covered pixels of those rows and nothing else. */
  lemma {:induction false} CopyRowsAt(d: Dims, f: seq<byte>, t: TileData, k: nat, px: nat, py: nat, c: nat)
    requires WellSized(d, f) && Fits(d, t) && k <= t.height && Inside(d, px, py) && c < 3
    ensures At(d, CopyRows(d, f, t, k), px, py, c) ==
            if Covers(t, px, py, k) then TileAt(d, t, px, py, c) else At(d, f, px, py, c)
  {
    if k > 0 {
      CopyRowsAt(d, f, t, k - 1, px, py, c);
      OneRowAt(d, CopyRows(d, f, t, k - 1), t, k - 1, px, py, c);
    }
  }

  lemma OneRowAt(d: Dims, f: seq<byte>, t: TileData, k: nat, px: nat, py: nat, c: nat)
    requires WellSized(d, f) && Fits(d, t) && k < t.height && Inside(d, px, py) && c < 3
    ensures At(d, CopyRow(d, f, t, k), px, py, c) ==
            if py == t.y + k && t.x <= px < t.x + t.width then TileAt(d, t, px, py, c) else At(d, f, px, py, c)
  {
    var off, start := Offset(d.w, t.x, t.y + k), RowStart(t.width, k);
    RowSlices(d, t, k);
    RowRange(d.w, px, py, c, t.x, t.y + k, t.width);
    OffsetInRange(d, px, py);
    hide Offset, RowStart, FrameBytes;
    assert CopyRow(d, f, t, k) == Blit(f, off, t.data[start..start + 3 * t.width]);
    BlitAt(f, off, t.data, start, 3 * t.width, Offset(d.w, px, py) + c);
    hide CopyRow, Blit;
  }

  lemma BlitAt(f: seq<byte>, off: nat, src: seq<byte>, start: nat, len: nat, at: nat)
    requires off + len <= |f| && start + len <= |src| && at < |f|
    ensures Blit(f, off, src[start..start + len])[at] == if off <= at < off + len then src[start + (at - off)] else f[at]
  {
  }

  /** Both guards of the row copy hold for a tile that fits. */
  lemma RowSlices(d: Dims, t: TileData, k: nat)
    requires Fits(d, t) && k < t.height
    ensures Offset(d.w, t.x, t.y + k) + 3 * t.width <= FrameBytes(d)
    ensures RowStart(t.width, k) + 3 * t.width <= |t.data|
  {
    RowEndInRange(d, t.x, t.width, t.y + k);
    RowStartInRange(t.width, k, t.height);
    hide Offset, RowStart, FrameBytes;
  }

  /** Extraction then pasting, pixel by pixel: a tile cut from cur puts cur's
      pixels inside its own rectangle and keeps f elsewhere. */
  lemma PasteTileOf(d: Dims, f: seq<byte>, cur: seq<byte>, tx: nat, ty: nat, px: nat, py: nat, c: nat)
    requires WellSized(d, f) && WellSized(d, cur) && GridTile(d, tx, ty) && Inside(d, px, py) && c < 3
    ensures At(d, CopyTile(d, f, TileOf(d, cur, tx, ty)), px, py, c) ==
            if InTile(d, tx, ty, px, py) then At(d, cur, px, py, c) else At(d, f, px, py, c)
  {
    var t := TileOf(d, cur, tx, ty);
    TileInside(d, tx, ty);
    ExtractRowsLength(d, cur, t.x, t.y, t.width, t.height);
    CopyRowsAt(d, f, t, t.height, px, py, c);
    if InTile(d, tx, ty, px, py) {
      ExtractRowsAt(d, cur, t.x, t.y, t.width, t.height, px - t.x, py - t.y, c);
    }
  }

  // ---------- Tile lists ----------

  /** Every tile of ts is a grid tile cut out of cur. */
  ghost predicate CutFrom(d: Dims, cur: seq<byte>, ts: seq<TileData>) {
    forall t | t in ts ::
      && GridTile(d, t.x / TILE, t.y / TILE)
      && t == TileOf(d, cur, t.x / TILE, t.y / TILE)
  }

  predicate Reports(ts: seq<TileData>, tx: nat, ty: nat) {
    exists t | t in ts :: t.x == tx * TILE && t.y == ty * TILE
  }

  /** Applying grid tiles: current pixel inside reported tiles, old pixel elsewhere. */
  lemma {:induction false} ApplyTilesAt(d: Dims, f: seq<byte>, cur: seq<byte>, ts: seq<TileData>, px: nat, py: nat, c: nat)
    requires WellSized(d, f) && WellSized(d, cur) && CutFrom(d, cur, ts) && Inside(d, px, py) && c < 3
    ensures At(d, ApplyTiles(d, f, ts), px, py, c) ==
            if Reports(ts, px / TILE, py / TILE) then At(d, cur, px, py, c) else At(d, f, px, py, c)
  {
    if ts != [] {
      var n := |ts| - 1;
      var init, t := ts[..n], ts[n];
      assert forall u | u in init :: u in ts;
      ApplyTilesAt(d, f, cur, init, px, py, c);
      assert t in ts;
      var tx, ty := t.x / TILE, t.y / TILE;
      PasteTileOf(d, ApplyTiles(d, f, init), cur, tx, ty, px, py, c);
      TilesPartition(d, px, py);
      ReportsSplit(ts, px / TILE, py / TILE);
    }
  }

  lemma ReportsSplit(ts: seq<TileData>, tx: nat, ty: nat)
    requires ts != []
    ensures Reports(ts, tx, ty) <==>
            Reports(ts[..|ts| - 1], tx, ty) ||
            (ts[|ts| - 1].x == tx * TILE && ts[|ts| - 1].y == ty * TILE)
  {
    var n := |ts| - 1;
    assert ts == ts[..n] + [ts[n]];
  }

  /** Order and multiplicity of tiles do not matter: any two lists holding the
      same tiles of one frame, however permuted or repeated, give one result. */
  lemma TileOrderIrrelevant(d: Dims, f: seq<byte>, cur: seq<byte>, ts: seq<TileData>, us: seq<TileData>)
    requires WellSized(d, f) && WellSized(d, cur) && CutFrom(d, cur, ts)
    requires forall t :: t in ts <==> t in us
    ensures ApplyTiles(d, f, ts) == ApplyTiles(d, f, us)
  {
    forall px: nat, py: nat, c: nat | Inside(d, px, py) && c < 3
      ensures At(d, ApplyTiles(d, f, ts), px, py, c) == At(d, ApplyTiles(d, f, us), px, py, c)
    {
      ApplyTilesAt(d, f, cur, ts, px, py, c);
      ApplyTilesAt(d, f, cur, us, px, py, c);
    }
    FrameExtensionality(d, ApplyTiles(d, f, ts), ApplyTiles(d, f, us));
  }

  // ---------- What find_changed_tiles returns ----------

  lemma {:induction false} RowMemberChanged(d: Dims, prev: seq<byte>, cur: seq<byte>, ty: nat, n: nat, t: TileData)
    returns (tx: nat)
    requires n <= TilesAcross(d.w) && ty < TilesAcross(d.h) && t in ChangedInRow(d, prev, cur, ty, n)
    ensures tx < n && TileChanged(d, prev, cur, tx, ty) && t == TileOf(d, cur, tx, ty)
  {
    hide TileChanged, TileOf, TilesAcross;
    if t in ChangedInRow(d, prev, cur, ty, n - 1) {
      tx := RowMemberChanged(d, prev, cur, ty, n - 1, t);
    } else {
      tx := n - 1;
    }
  }

  lemma {:induction false} MemberChanged(d: Dims, prev: seq<byte>, cur: seq<byte>, n: nat, t: TileData)
    returns (tx: nat, ty: nat)
    requires n <= TilesAcross(d.h) && t in ChangedRows(d, prev, cur, n)
    ensures GridTile(d, tx, ty) && TileChanged(d, prev, cur, tx, ty) && t == TileOf(d, cur, tx, ty)
  {
    hide TileChanged, TileOf, TilesAcross, ChangedInRow;
    if t in ChangedRows(d, prev, cur, n - 1) {
      tx, ty := MemberChanged(d, prev, cur, n - 1, t);
    } else {
      tx := RowMemberChanged(d, prev, cur, n - 1, TilesAcross(d.w), t);
      ty := n - 1;
    }
  }

  lemma {:induction false} ChangedIsRowMember(d: Dims, prev: seq<byte>, cur: seq<byte>, tx: nat, ty: nat, n: nat)
    requires tx < n <= TilesAcross(d.w) && ty < TilesAcross(d.h) && TileChanged(d, prev, cur, tx, ty)
    ensures TileOf(d, cur, tx, ty) in ChangedInRow(d, prev, cur, ty, n)
  {
    hide TileChanged, TileOf, TilesAcross;
    if tx < n - 1 {
      ChangedIsRowMember(d, prev, cur, tx, ty, n - 1);
    }
  }

  lemma {:induction false} ChangedIsMember(d: Dims, prev: seq<byte>, cur: seq<byte>, tx: nat, ty: nat, n: nat)
    requires tx < TilesAcross(d.w) && ty < n <= TilesAcross(d.h) && TileChanged(d, prev, cur, tx, ty)
    ensures TileOf(d, cur, tx, ty) in ChangedRows(d, prev, cur, n)
  {
    hide TileChanged, TileOf, TilesAcross, ChangedInRow;
    if ty < n - 1 {
      ChangedIsMember(d, prev, cur, tx, ty, n - 1);
    } else {
      ChangedIsRowMember(d, prev, cur, tx, ty, TilesAcross(d.w));
    }
  }

  /** find_changed_tiles reports exactly the tiles with a differing sample, each
      cut out of the current frame. */
  lemma ChangedTilesExact(d: Dims, prev: seq<byte>, cur: seq<byte>)
    ensures CutFrom(d, cur, ChangedTiles(d, prev, cur))
    ensures forall tx: nat, ty: nat | GridTile(d, tx, ty) ::
              Reports(ChangedTiles(d, prev, cur), tx, ty) <==> TileChanged(d, prev, cur, tx, ty)
  {
    var ts := ChangedTiles(d, prev, cur);
    forall t | t in ts
      ensures GridTile(d, t.x / TILE, t.y / TILE) && t == TileOf(d, cur, t.x / TILE, t.y / TILE)
    {
      var tx, ty := MemberChanged(d, prev, cur, TilesAcross(d.h), t);
      assert t.x / TILE == tx && t.y / TILE == ty;
    }
    forall tx: nat, ty: nat | GridTile(d, tx, ty)
      ensures Reports(ts, tx, ty) <==> TileChanged(d, prev, cur, tx, ty)
    {
      ReportedIffChanged(d, prev, cur, tx, ty);
    }
  }

  lemma ReportedIffChanged(d: Dims, prev: seq<byte>, cur: seq<byte>, tx: nat, ty: nat)
    requires GridTile(d, tx, ty)
    ensures Reports(ChangedTiles(d, prev, cur), tx, ty) <==> TileChanged(d, prev, cur, tx, ty)
  {
    var ts := ChangedTiles(d, prev, cur);
    if Reports(ts, tx, ty) {
      var t :| t in ts && t.x == tx * TILE && t.y == ty * TILE;
      var sx, sy := MemberChanged(d, prev, cur, TilesAcross(d.h), t);
      assert sx == tx && sy == ty;
    }
    if TileChanged(d, prev, cur, tx, ty) {
      ChangedIsMember(d, prev, cur, tx, ty, TilesAcross(d.h));
      assert TileOf(d, cur, tx, ty) in ts;
    }
  }

  /** One delta step: current pixel inside reported tiles, previous pixel elsewhere. */
  lemma DeltaStepAt(d: Dims, prev: seq<byte>, cur: seq<byte>, px: nat, py: nat, c: nat)
    requires WellSized(d, prev) && WellSized(d, cur) && Inside(d, px, py) && c < 3
    ensures GridTile(d, px / TILE, py / TILE)
    ensures At(d, ApplyTiles(d, prev, ChangedTiles(d, prev, cur)), px, py, c) ==
            if TileChanged(d, prev, cur, px / TILE, py / TILE)
            then At(d, cur, px, py, c) else At(d, prev, px, py, c)
  {
    TilesPartition(d, px, py);
    ChangedTilesExact(d, prev, cur);
    ApplyTilesAt(d, prev, cur, ChangedTiles(d, prev, cur), px, py, c);
  }

  // ---------- The same, written out in bytes ----------

  /** Two frames of any length differ at pixel (px, py) of rows w pixels wide. */
  predicate DifferAt(w: nat, prev: seq<byte>, cur: seq<byte>, px: nat, py: nat) {
    var o := 3 * (py * w + px);
    && o + 3 <= |prev| && o + 3 <= |cur|
    && (prev[o] != cur[o] || prev[o + 1] != cur[o + 1] || prev[o + 2] != cur[o + 2])
  }

  /** Differs at a corner or at the centre of the rectangle. */
  predicate DifferAtFive(fw: nat, prev: seq<byte>, cur: seq<byte>, x: nat, y: nat, w: nat, h: nat)
    requires w >= 1 && h >= 1
  {
    || DifferAt(fw, prev, cur, x, y)
    || DifferAt(fw, prev, cur, x + w - 1, y)
    || DifferAt(fw, prev, cur, x, y + h - 1)
    || DifferAt(fw, prev, cur, x + w - 1, y + h - 1)
    || DifferAt(fw, prev, cur, x + w / 2, y + h / 2)
  }

  /** The side of the tile that starts at pixel x of n: 64, or what is left. */
  function Side(n: nat, x: nat): (s: nat)
    requires x < n
    ensures 1 <= s && x + s <= n
  {
    if n - x < 64 then n - x else 64
  }

  /** A corner or the centre of the tile with corner (64 * tx, 64 * ty). */
  predicate AtFive(d: Dims, tx: nat, ty: nat, px: nat, py: nat)
    requires 64 * tx < d.w && 64 * ty < d.h
  {
    var x, y := 64 * tx, 64 * ty;
    var w, h := Side(d.w, x), Side(d.h, y);
    || (px == x && py == y)
    || (px == x + w - 1 && py == y)
    || (px == x && py == y + h - 1)
    || (px == x + w - 1 && py == y + h - 1)
    || (px == x + w / 2 && py == y + h / 2)
  }

  lemma DiffersWrittenOut(d: Dims, prev: seq<byte>, cur: seq<byte>, px: nat, py: nat)
    requires Inside(d, px, py)
    ensures SampleDiffers(d, prev, cur, px, py) <==> DifferAt(d.w, prev, cur, px, py)
  {
    var o := Offset(d.w, px, py);
    if o + 3 <= |prev| && o + 3 <= |cur| {
      var a, b := prev[o..o + 3], cur[o..o + 3];
      assert a == b <==> a[0] == b[0] && a[1] == b[1] && a[2] == b[2];
    }
  }

  predicate SomeDiffers(d: Dims, prev: seq<byte>, cur: seq<byte>, x: nat, y: nat, ps: seq<(nat, nat)>) {
    exists i | 0 <= i < |ps| :: SampleDiffers(d, prev, cur, x + ps[i].0, y + ps[i].1)
  }

  lemma ChangedAtFive(d: Dims, prev: seq<byte>, cur: seq<byte>, tx: nat, ty: nat)
    requires GridTile(d, tx, ty)
    ensures 64 * tx < d.w && 64 * ty < d.h
    ensures TileChanged(d, prev, cur, tx, ty) <==>
            DifferAtFive(d.w, prev, cur, 64 * tx, 64 * ty, Side(d.w, 64 * tx), Side(d.h, 64 * ty))
  {
    assert TILE == 64;
    InGrid(d, tx, ty);
    hide *;
    SideIsExtent(d.w, tx);
    SideIsExtent(d.h, ty);
    SamplesOfTile(d, prev, cur, tx, ty, 64 * tx, 64 * ty, Side(d.w, 64 * tx), Side(d.h, 64 * ty));
    FiveSamples(d, prev, cur, 64 * tx, 64 * ty, Side(d.w, 64 * tx), Side(d.h, 64 * ty));
  }

  lemma InGrid(d: Dims, tx: nat, ty: nat)
    ensures GridTile(d, tx, ty) <==> tx < TilesAcross(d.w) && ty < TilesAcross(d.h)
  {
  }

  lemma SamplesOfTile(d: Dims, prev: seq<byte>, cur: seq<byte>, tx: nat, ty: nat, x: nat, y: nat, w: nat, h: nat)
    requires GridTile(d, tx, ty) && x == tx * TILE && y == ty * TILE
    requires w == Extent(d.w, tx) >= 1 && h == Extent(d.h, ty) >= 1
    ensures var ps := SamplePoints(w, h);
            TileChanged(d, prev, cur, tx, ty) <==> SomeDiffers(d, prev, cur, x, y, ps)
  {
    hide SampleDiffers, Extent, TilesAcross;
  }

  lemma SideIsExtent(n: nat, t: nat)
    requires t < TilesAcross(n)
    ensures 64 * t < n && Extent(n, t) == Side(n, 64 * t)
  {
  }

  lemma FiveSamples(d: Dims, prev: seq<byte>, cur: seq<byte>, x: nat, y: nat, w: nat, h: nat)
    requires w >= 1 && h >= 1 && x + w <= d.w && y + h <= d.h
    ensures var ps := SamplePoints(w, h);
            SomeDiffers(d, prev, cur, x, y, ps) <==> DifferAtFive(d.w, prev, cur, x, y, w, h)
  {
    hide SampleDiffers, DifferAt;
    var ps := SamplePoints(w, h);
    forall i | 0 <= i < 5
      ensures SampleDiffers(d, prev, cur, x + ps[i].0, y + ps[i].1) <==>
              DifferAt(d.w, prev, cur, x + ps[i].0, y + ps[i].1)
    {
      DiffersWrittenOut(d, prev, cur, x + ps[i].0, y + ps[i].1);
    }
    if DifferAtFive(d.w, prev, cur, x, y, w, h) {
      assert DifferAt(d.w, prev, cur, x + ps[0].0, y + ps[0].1) || DifferAt(d.w, prev, cur, x + ps[1].0, y + ps[1].1)
             || DifferAt(d.w, prev, cur, x + ps[2].0, y + ps[2].1) || DifferAt(d.w, prev, cur, x + ps[3].0, y + ps[3].1)
             || DifferAt(d.w, prev, cur, x + ps[4].0, y + ps[4].1);
    }
  }

  /** The tile with corner (64 * tx, 64 * ty) is reported if and only if the frames,
      of any length, differ at one of its corners or at its centre. */
  lemma ReportedWrittenOut(d: Dims, prev: seq<byte>, cur: seq<byte>, tx: nat, ty: nat)
    requires 64 * tx < d.w && 64 * ty < d.h
    ensures var x, y := 64 * tx, 64 * ty;
            var w, h := Side(d.w, x), Side(d.h, y);
            (exists t | t in ChangedTiles(d, prev, cur) :: t.x == x && t.y == y) <==>
            || DifferAt(d.w, prev, cur, x, y)
            || DifferAt(d.w, prev, cur, x + w - 1, y)
            || DifferAt(d.w, prev, cur, x, y + h - 1)
            || DifferAt(d.w, prev, cur, x + w - 1, y + h - 1)
            || DifferAt(d.w, prev, cur, x + w / 2, y + h / 2)
  {
    assert GridTile(d, tx, ty);
    ReportedIffChanged(d, prev, cur, tx, ty);
    ChangedAtFive(d, prev, cur, tx, ty);
    hide DifferAt, TileChanged, ChangedTiles, Side;
  }

  /** A reported tile starts at multiples of 64 and has the side that is left there. */
  lemma ReportedTileShape(d: Dims, prev: seq<byte>, cur: seq<byte>, t: TileData)
    requires t in ChangedTiles(d, prev, cur)
    ensures t.x % 64 == 0 && t.y % 64 == 0 && t.x < d.w && t.y < d.h
    ensures t.width == Side(d.w, t.x) && t.height == Side(d.h, t.y)
  {
    var tx, ty := MemberChanged(d, prev, cur, TilesAcross(d.h), t);
    TileCorner(d, cur, tx, ty);
    InGrid(d, tx, ty);
    hide *;
    SideIsExtent(d.w, tx);
    SideIsExtent(d.h, ty);
  }

  lemma TileCorner(d: Dims, cur: seq<byte>, tx: nat, ty: nat)
    requires GridTile(d, tx, ty)
    ensures var t := TileOf(d, cur, tx, ty);
            && t.x == 64 * tx && t.y == 64 * ty && t.width == Extent(d.w, tx) && t.height == Extent(d.h, ty)
            && t.x % 64 == 0 && t.y % 64 == 0
  {
    hide Extent, ExtractTile;
  }

  /** It holds the current frame's bytes, row by row. */
  lemma ReportedTileBytes(d: Dims, prev: seq<byte>, cur: seq<byte>, t: TileData, i: nat, j: nat, c: nat)
    requires t in ChangedTiles(d, prev, cur) && WellSized(d, cur) && i < t.width && j < t.height && c < 3
    ensures RowStart(t.width, j) + 3 * i + c < |t.data| == RowStart(t.width, t.height)
    ensures Offset(d.w, t.x + i, t.y + j) + c < |cur|
    ensures t.data[RowStart(t.width, j) + 3 * i + c] == cur[Offset(d.w, t.x + i, t.y + j) + c]
  {
    assert ChangedTiles(d, prev, cur) == ChangedRows(d, prev, cur, TilesAcross(d.h));
    hide *;
    var tx, ty := MemberChanged(d, prev, cur, TilesAcross(d.h), t);
    TileDataRows(d, cur, tx, ty);
    ExtractRowsAt(d, cur, t.x, t.y, t.width, t.height, i, j, c);
    CellOfFrame(d, cur, t.x + i, t.y + j, c);
  }

  lemma CellOfFrame(d: Dims, f: seq<byte>, px: nat, py: nat, c: nat)
    requires WellSized(d, f) && px < d.w && py < d.h && c < 3
    ensures Inside(d, px, py) && Offset(d.w, px, py) + c < |f| && At(d, f, px, py, c) == f[Offset(d.w, px, py) + c]
  {
    OffsetInRange(d, px, py);
  }

  lemma TileDataRows(d: Dims, f: seq<byte>, tx: nat, ty: nat)
    requires GridTile(d, tx, ty)
    ensures var t := TileOf(d, f, tx, ty);
            t.x + t.width <= d.w && t.y + t.height <= d.h && t.data == ExtractRows(d, f, t.x, t.y, t.width, t.height)
  {
    TileInside(d, tx, ty);
    hide ExtractRows, TilesAcross, Extent;
  }

  predicate RowMajor(t: TileData, u: TileData) { t.y < u.y || (t.y == u.y && t.x < u.x) }

  ghost predicate Ordered(ts: seq<TileData>) { forall i, j | 0 <= i < j < |ts| :: RowMajor(ts[i], ts[j]) }

  lemma OrderedConcat(ts: seq<TileData>, us: seq<TileData>)
    requires Ordered(ts) && Ordered(us)
    requires forall t, u | t in ts && u in us :: RowMajor(t, u)
    ensures Ordered(ts + us)
  {
    hide RowMajor;
  }

  lemma {:induction false} RowOrdered(d: Dims, prev: seq<byte>, cur: seq<byte>, ty: nat, n: nat)
    requires n <= TilesAcross(d.w) && ty < TilesAcross(d.h)
    ensures Ordered(ChangedInRow(d, prev, cur, ty, n))
  {
    hide TileChanged, TilesAcross, Ordered;
    if n == 0 {
      NoneOrdered();
    } else {
      RowOrdered(d, prev, cur, ty, n - 1);
      var t := TileOf(d, cur, n - 1, ty);
      var before := ChangedInRow(d, prev, cur, ty, n - 1);
      forall u | u in before
        ensures RowMajor(u, t)
      {
        var tx := RowMemberChanged(d, prev, cur, ty, n - 1, u);
      }
      hide TileOf;
      OneOrdered(t);
      NoneOrdered();
      OrderedConcat(before, [t]);
      assert before + [] == before;
    }
  }

  lemma NoneOrdered()
    ensures Ordered([])
  {
  }

  lemma OneOrdered(t: TileData)
    ensures Ordered([t])
  {
  }

  lemma {:induction false} RowsOrdered(d: Dims, prev: seq<byte>, cur: seq<byte>, n: nat)
    requires n <= TilesAcross(d.h)
    ensures Ordered(ChangedRows(d, prev, cur, n))
  {
    hide TileChanged, TilesAcross, Ordered, ChangedInRow;
    if n == 0 {
      NoneOrdered();
    } else {
      RowsOrdered(d, prev, cur, n - 1);
      RowOrdered(d, prev, cur, n - 1, TilesAcross(d.w));
      var above, row := ChangedRows(d, prev, cur, n - 1), ChangedInRow(d, prev, cur, n - 1, TilesAcross(d.w));
      forall t, u | t in above && u in row
        ensures RowMajor(t, u)
      {
        var tx, ty := MemberAbove(d, prev, cur, n - 1, t);
        var sx := RowMemberChanged(d, prev, cur, n - 1, TilesAcross(d.w), u);
      }
      OrderedConcat(above, row);
    }
  }

  lemma {:induction false} MemberAbove(d: Dims, prev: seq<byte>, cur: seq<byte>, n: nat, t: TileData)
    returns (tx: nat, ty: nat)
    requires n <= TilesAcross(d.h) && t in ChangedRows(d, prev, cur, n)
    ensures GridTile(d, tx, ty) && ty < n && t == TileOf(d, cur, tx, ty)
  {
    hide TileChanged, TileOf, TilesAcross, ChangedInRow;
    if t in ChangedRows(d, prev, cur, n - 1) {
      tx, ty := MemberAbove(d, prev, cur, n - 1, t);
    } else {
      tx := RowMemberChanged(d, prev, cur, n - 1, TilesAcross(d.w), t);
      ty := n - 1;
    }
  }

  /** Tiles are reported in row-major order, so none is reported twice. */
  lemma ReportedInOrder(d: Dims, prev: seq<byte>, cur: seq<byte>)
    ensures forall i, j | 0 <= i < j < |ChangedTiles(d, prev, cur)| ::
              var t, u := ChangedTiles(d, prev, cur)[i], ChangedTiles(d, prev, cur)[j];
              t.y < u.y || (t.y == u.y && t.x < u.x)
  {
    RowsOrdered(d, prev, cur, TilesAcross(d.h));
    hide ChangedRows;
  }

  /** A key frame is sent exactly first, on demand, or when more than 60% of the
      ceil(w / 64) * ceil(h / 64) tiles are reported; it holds the frame, and a delta
      the reported tiles. */
  lemma MessageWrittenOut(d: Dims, last: Option<seq<byte>>, frame: seq<byte>, force: bool)
    ensures var m := Process(d, last, frame, force);
            && (m.frameType == KeyFrame <==>
                 (last.None? || force ||
                  10 * |ChangedTiles(d, last.value, frame)| > 6 * (((d.w + 63) / 64) * ((d.h + 63) / 64))))
            && m.width == d.w && m.height == d.h
            && (m.frameType == KeyFrame ==> m.data == frame && m.tiles.None?)
            && (m.frameType == DeltaFrame ==>
                  m.data == [] && last.Some? && m.tiles == Some(ChangedTiles(d, last.value, frame)))
  {
    hide ChangedTiles;
    if last.Some? {
      SixTenths(|ChangedTiles(d, last.value, frame)|, TotalTiles(d));
    }
    hide TotalTiles;
    assert TotalTiles(d) == ((d.w + 63) / 64) * ((d.h + 63) / 64) by { CountsTiles(d); }
  }

  lemma CountsTiles(d: Dims)
    ensures TotalTiles(d) == ((d.w + 63) / 64) * ((d.h + 63) / 64)
  {
  }

  lemma SixTenths(n: nat, total: nat)
    ensures n > total * 6 / 10 <==> 10 * n > 6 * total
  {
  }

  // ---------- Frames and tiles of the wrong size ----------

  /** Rows of a rectangle that end past the frame are left out. */
  lemma {:induction false} MissingRowsLeftOut(d: Dims, f: seq<byte>, x: nat, y: nat, w: nat, m: nat, k: nat)
    requires m <= k && (m < k ==> 3 * ((y + m) * d.w + x) + 3 * w > |f|)
    ensures ExtractRows(d, f, x, y, w, k) == ExtractRows(d, f, x, y, w, m)
    decreases k
  {
    if m < k {
      MissingRowsLeftOut(d, f, x, y, w, m, k - 1);
      TimesMonotone(y + m, y + k - 1, d.w);
    }
  }

  /** Rows of a tile below the frame are not copied, whatever the frame holds there. */
  lemma RowsBelowIgnored(d: Dims, f: seq<byte>, t: TileData)
    requires t.y + t.height >= d.h
    ensures CopyTile(d, f, t) == if t.y >= d.h then f else CopyTile(d, f, t.(height := d.h - t.y))
  {
    if t.y < d.h {
      HeightIrrelevant(d, f, t, d.h - t.y, d.h - t.y);
    }
  }

  lemma {:induction false} HeightIrrelevant(d: Dims, f: seq<byte>, t: TileData, h: nat, k: nat)
    ensures CopyRows(d, f, t, k) == CopyRows(d, f, t.(height := h), k)
  {
    if k > 0 {
      HeightIrrelevant(d, f, t, h, k - 1);
      RowHeightIrrelevant(d, CopyRows(d, f, t, k - 1), t, h, k - 1);
      hide CopyRow;
    }
  }

  lemma RowHeightIrrelevant(d: Dims, f: seq<byte>, t: TileData, h: nat, k: nat)
    ensures CopyRow(d, f, t, k) == CopyRow(d, f, t.(height := h), k)
  {
    hide Offset, RowStart, Blit;
  }

  /** A row that does not fit the frame, or that the tile has no bytes for, is skipped. */
  lemma UnfitRowSkipped(d: Dims, f: seq<byte>, t: TileData, k: nat)
    requires || 3 * ((t.y + k) * d.w + t.x) + 3 * t.width > |f|
             || k * (3 * t.width) + 3 * t.width > |t.data|
    ensures CopyRows(d, f, t, k + 1) == CopyRows(d, f, t, k)
  {
    CopyRowsNext(d, f, t, k);
    UnfitRow(d, CopyRows(d, f, t, k), t, k);
    hide CopyRow, CopyRows;
  }

  lemma UnfitRow(d: Dims, f: seq<byte>, t: TileData, k: nat)
    requires || 3 * ((t.y + k) * d.w + t.x) + 3 * t.width > |f|
             || k * (3 * t.width) + 3 * t.width > |t.data|
    ensures CopyRow(d, f, t, k) == f
  {
    hide Blit;
  }
}
