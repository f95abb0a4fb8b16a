/** Whole runs of the tile codec: what the server believes the client shows,
    what the client shows, and what a delta costs. */
module FrameRuns {
  import opened Basics
  import opened TileGrid
  import opened FrameCodec
  import opened FrameProcessing

  // ---------- Runs of process_frame ----------

  datatype Capture = Capture(frame: seq<byte>, force: bool)

  predicate AllWellSized(d: Dims, caps: seq<Capture>) { forall k | k in caps :: WellSized(d, k.frame) }

  /** last_frame after the captures, starting from a new processor. */
  function LastFrame(d: Dims, caps: seq<Capture>): Option<seq<byte>> {
    if caps == [] then None
    else
      var n := |caps| - 1;
      Some(NextLast(d, LastFrame(d, caps[..n]), caps[n].frame, caps[n].force))
  }

  /** The message produced by the i-th capture of the run. */
  function Message(d: Dims, caps: seq<Capture>, i: nat): ProcessedFrame
    requires i < |caps|
  {
    Process(d, LastFrame(d, caps[..i]), caps[i].frame, caps[i].force)
  }

  /** The i-th message carries tile (tx, ty): it is a key frame, or a delta listing the tile. */
  predicate Carries(d: Dims, caps: seq<Capture>, i: nat, tx: nat, ty: nat)
    requires i < |caps|
  {
    var m := Message(d, caps, i);
    m.frameType == KeyFrame || (m.tiles.Some? && Reports(m.tiles.value, tx, ty))
  }

  lemma {:induction false} LastFrameWellSized(d: Dims, caps: seq<Capture>)
    requires AllWellSized(d, caps)
    ensures caps != [] ==> LastFrame(d, caps).Some? && WellSized(d, LastFrame(d, caps).value)
  {
    if caps != [] {
      var n := |caps| - 1;
      assert caps[n] in caps;
      LastFrameWellSized(d, caps[..n]);
    }
  }

  /** One step of a run at one pixel: fresh if the pixel's tile was carried, kept otherwise. */
  lemma RunStepAt(d: Dims, caps: seq<Capture>, px: nat, py: nat, c: nat)
    requires AllWellSized(d, caps) && caps != [] && Inside(d, px, py) && c < 3
    requires LastFrame(d, caps).Some? && WellSized(d, LastFrame(d, caps).value)
    ensures var n := |caps| - 1;
            var now := At(d, LastFrame(d, caps).value, px, py, c);
            if Carries(d, caps, n, px / TILE, py / TILE)
            then WellSized(d, caps[n].frame) && now == At(d, caps[n].frame, px, py, c)
            else n > 0 && LastFrame(d, caps[..n]).Some? && WellSized(d, LastFrame(d, caps[..n]).value) &&
                 now == At(d, LastFrame(d, caps[..n]).value, px, py, c)
  {
    var n := |caps| - 1;
    assert caps[n] in caps;
    LastFrameWellSized(d, caps[..n]);
    var last := LastFrame(d, caps[..n]);
    if !SendsKey(d, last, caps[n].frame, caps[n].force) {
      TilesPartition(d, px, py);
      ChangedTilesExact(d, last.value, caps[n].frame);
      DeltaStepAt(d, last.value, caps[n].frame, px, py, c);
    }
  }

  /** Two frames agree byte for byte on tile (tx, ty). */
  ghost predicate SameTile(d: Dims, f: seq<byte>, g: seq<byte>, tx: nat, ty: nat)
    requires WellSized(d, f) && WellSized(d, g) && GridTile(d, tx, ty)
  {
    forall px: nat, py: nat, c: nat | Inside(d, px, py) && c < 3 && InTile(d, tx, ty, px, py) ::
      At(d, f, px, py, c) == At(d, g, px, py, c)
  }

  /** One step of a run at one tile. */
  lemma RunStepTile(d: Dims, caps: seq<Capture>, tx: nat, ty: nat)
    requires AllWellSized(d, caps) && caps != [] && GridTile(d, tx, ty)
    ensures LastFrame(d, caps).Some? && WellSized(d, LastFrame(d, caps).value)
    ensures var n := |caps| - 1;
            if Carries(d, caps, n, tx, ty)
            then WellSized(d, caps[n].frame) && SameTile(d, LastFrame(d, caps).value, caps[n].frame, tx, ty)
            else n > 0 && LastFrame(d, caps[..n]).Some? && WellSized(d, LastFrame(d, caps[..n]).value) &&
                 SameTile(d, LastFrame(d, caps).value, LastFrame(d, caps[..n]).value, tx, ty)
  {
    var n := |caps| - 1;
    assert caps[n] in caps;
    LastFrameWellSized(d, caps);
    LastFrameWellSized(d, caps[..n]);
    forall px: nat, py: nat, c: nat | Inside(d, px, py) && c < 3 && InTile(d, tx, ty, px, py)
      ensures var now := At(d, LastFrame(d, caps).value, px, py, c);
              if Carries(d, caps, n, tx, ty) then now == At(d, caps[n].frame, px, py, c)
              else n > 0 && now == At(d, LastFrame(d, caps[..n]).value, px, py, c)
    {
      TilesPartition(d, px, py);
      RunStepAt(d, caps, px, py, c);
    }
  }

  lemma CarriesInPrefix(d: Dims, caps: seq<Capture>, n: nat, j: nat, tx: nat, ty: nat)
    requires j < n <= |caps|
    ensures Carries(d, caps[..n], j, tx, ty) <==> Carries(d, caps, j, tx, ty)
  {
    assert caps[..n][..j] == caps[..j];
  }

  /** In every run, every tile of last_frame is byte for byte that tile of the
      capture that last carried it: i is such a capture and no later one is. */
  lemma {:induction false} TilesAreLastSent(d: Dims, caps: seq<Capture>, tx: nat, ty: nat) returns (i: nat)
    requires AllWellSized(d, caps) && caps != [] && GridTile(d, tx, ty)
    ensures i < |caps| && Carries(d, caps, i, tx, ty)
    ensures forall j | i < j < |caps| :: !Carries(d, caps, j, tx, ty)
    ensures LastFrame(d, caps).Some? && WellSized(d, LastFrame(d, caps).value) && WellSized(d, caps[i].frame)
    ensures SameTile(d, LastFrame(d, caps).value, caps[i].frame, tx, ty)
  {
    var n := |caps| - 1;
    RunStepTile(d, caps, tx, ty);
    if Carries(d, caps, n, tx, ty) {
      i := n;
    } else {
      i := TilesAreLastSent(d, caps[..n], tx, ty);
      forall j | i <= j < n
        ensures Carries(d, caps[..n], j, tx, ty) <==> Carries(d, caps, j, tx, ty)
      {
        CarriesInPrefix(d, caps, n, j, tx, ty);
      }
      SameTileTransitive(d, LastFrame(d, caps).value, LastFrame(d, caps[..n]).value, caps[i].frame, tx, ty);
    }
  }

  lemma SameTileTransitive(d: Dims, f: seq<byte>, g: seq<byte>, h: seq<byte>, tx: nat, ty: nat)
    requires WellSized(d, f) && WellSized(d, g) && WellSized(d, h) && GridTile(d, tx, ty)
    requires SameTile(d, f, g, tx, ty) && SameTile(d, g, h, tx, ty)
    ensures SameTile(d, f, h, tx, ty)
  {
    forall px: nat, py: nat, c: nat | Inside(d, px, py) && c < 3 && InTile(d, tx, ty, px, py)
      ensures At(d, f, px, py, c) == At(d, h, px, py, c)
    {
      assert At(d, f, px, py, c) == At(d, g, px, py, c);
    }
  }

  /** After every capture, key or delta, last_frame agrees with that capture, byte
      for byte, at the four corners and the centre of every tile. */
  lemma SamplesAgree(d: Dims, caps: seq<Capture>, tx: nat, ty: nat, px: nat, py: nat, c: nat)
    requires AllWellSized(d, caps) && caps != [] && 64 * tx < d.w && 64 * ty < d.h && c < 3
    requires var x, y := 64 * tx, 64 * ty;
             var w, h := Side(d.w, x), Side(d.h, y);
             (px, py) in {(x, y), (x + w - 1, y), (x, y + h - 1), (x + w - 1, y + h - 1), (x + w / 2, y + h / 2)}
    ensures var o := 3 * (py * d.w + px) + c;
            && LastFrame(d, caps).Some? && 0 <= o < |LastFrame(d, caps).value| == |caps[|caps| - 1].frame|
            && LastFrame(d, caps).value[o] == caps[|caps| - 1].frame[o]
  {
    var n := |caps| - 1;
    assert caps[n] in caps && AtFive(d, tx, ty, px, py);
    FiveInTile(d, tx, ty, px, py);
    LastFrameWellSized(d, caps);
    LastFrameWellSized(d, caps[..n]);
    RunStepTile(d, caps, tx, ty);
    OffsetInRange(d, px, py);
    if Carries(d, caps, n, tx, ty) {
      assert At(d, LastFrame(d, caps).value, px, py, c) == At(d, caps[n].frame, px, py, c);
    } else {
      var before := LastFrame(d, caps[..n]).value;
      assert At(d, LastFrame(d, caps).value, px, py, c) == At(d, before, px, py, c);
      UnreportedAgrees(d, before, caps[n].frame, tx, ty, px, py, c);
    }
  }

  lemma FiveInTile(d: Dims, tx: nat, ty: nat, px: nat, py: nat)
    requires 64 * tx < d.w && 64 * ty < d.h && AtFive(d, tx, ty, px, py)
    ensures GridTile(d, tx, ty) && Inside(d, px, py) && InTile(d, tx, ty, px, py)
  {
    SideIsExtent(d.w, tx);
    SideIsExtent(d.h, ty);
    hide Extent;
  }

  lemma UnreportedAgrees(d: Dims, prev: seq<byte>, cur: seq<byte>, tx: nat, ty: nat, px: nat, py: nat, c: nat)
    requires WellSized(d, prev) && WellSized(d, cur) && 64 * tx < d.w && 64 * ty < d.h && c < 3
    requires GridTile(d, tx, ty) && AtFive(d, tx, ty, px, py) && Inside(d, px, py)
    requires !Reports(ChangedTiles(d, prev, cur), tx, ty)
    ensures At(d, prev, px, py, c) == At(d, cur, px, py, c)
  {
    ReportedIffChanged(d, prev, cur, tx, ty);
    ChangedAtFive(d, prev, cur, tx, ty);
    OffsetInRange(d, px, py);
    hide TileChanged, ChangedTiles, DifferAt, Side;
    assert !DifferAt(d.w, prev, cur, px, py);
    SameBytes(d, prev, cur, px, py, c);
  }

  lemma SameBytes(d: Dims, prev: seq<byte>, cur: seq<byte>, px: nat, py: nat, c: nat)
    requires WellSized(d, prev) && WellSized(d, cur) && Inside(d, px, py) && c < 3
    requires !DifferAt(d.w, prev, cur, px, py)
    ensures At(d, prev, px, py, c) == At(d, cur, px, py, c)
  {
    OffsetInRange(d, px, py);
  }

  // ---------- Sampling can miss a change ----------

  /** A delta brings last_frame to the captured frame exactly when no tile
      changed away from its sample points only. */
  lemma DeltaExactIff(d: Dims, prev: seq<byte>, cur: seq<byte>)
    requires WellSized(d, prev) && WellSized(d, cur)
    ensures ApplyTiles(d, prev, ChangedTiles(d, prev, cur)) == cur <==>
            forall tx: nat, ty: nat | GridTile(d, tx, ty) ::
              TileChanged(d, prev, cur, tx, ty) || SameTile(d, prev, cur, tx, ty)
  {
    var next := ApplyTiles(d, prev, ChangedTiles(d, prev, cur));
    if next == cur {
      forall tx: nat, ty: nat | GridTile(d, tx, ty) && !TileChanged(d, prev, cur, tx, ty)
        ensures SameTile(d, prev, cur, tx, ty)
      {
        forall px: nat, py: nat, c: nat | Inside(d, px, py) && c < 3 && InTile(d, tx, ty, px, py)
          ensures At(d, prev, px, py, c) == At(d, cur, px, py, c)
        {
          TilesPartition(d, px, py);
          DeltaStepAt(d, prev, cur, px, py, c);
        }
      }
    }
    if forall tx: nat, ty: nat | GridTile(d, tx, ty) ::
        TileChanged(d, prev, cur, tx, ty) || SameTile(d, prev, cur, tx, ty)
    {
      forall px: nat, py: nat, c: nat | Inside(d, px, py) && c < 3
        ensures At(d, next, px, py, c) == At(d, cur, px, py, c)
      {
        TilesPartition(d, px, py);
        DeltaStepAt(d, prev, cur, px, py, c);
        assert GridTile(d, px / TILE, py / TILE);
        assert InTile(d, px / TILE, py / TILE, px, py);
      }
      FrameExtensionality(d, next, cur);
    }
  }

  /** A 4x1 frame whose second pixel changes: no sample sees it, nothing is sent. */
  lemma ChangeMissed()
    ensures var d := Dims(4, 1);
            var prev := [0, 0, 0, 0, 0, 0, 0, 0, 0, 0, 0, 0];
            var cur := prev[3 := 255];
            && !SendsKey(d, Some(prev), cur, false)
            && ChangedTiles(d, prev, cur) == []
            && NextLast(d, Some(prev), cur, false) == prev && prev != cur
  {
    var d := Dims(4, 1);
    var prev: seq<byte> := [0, 0, 0, 0, 0, 0, 0, 0, 0, 0, 0, 0];
    var cur := prev[3 := 255];
    assert !TileChanged(d, prev, cur, 0, 0) by {
      assert SamplePoints(4, 1) == [(0, 0), (3, 0), (0, 0), (3, 0), (2, 0)];
      assert prev[0..3] == cur[0..3] && prev[9..12] == cur[9..12] && prev[6..9] == cur[6..9];
    }
    assert prev[3] != cur[3];
    assert ChangedInRow(d, prev, cur, 0, 1) == ChangedInRow(d, prev, cur, 0, 0) == [];
    assert ChangedRows(d, prev, cur, 1) == ChangedRows(d, prev, cur, 0) == [];
  }

  // ---------- Cost of a delta ----------

  function Payload(ts: seq<TileData>): nat {
    if ts == [] then 0 else Payload(ts[..|ts| - 1]) + |ts[|ts| - 1].data|
  }

  lemma {:induction false} PayloadConcat(ts: seq<TileData>, us: seq<TileData>)
    ensures Payload(ts + us) == Payload(ts) + Payload(us)
  {
    if us == [] {
      assert ts + us == ts;
    } else {
      var n := |us| - 1;
      assert (ts + us)[..|ts + us| - 1] == ts + us[..n];
      PayloadConcat(ts, us[..n]);
    }
  }

  lemma PayloadSnoc(ts: seq<TileData>, t: TileData)
    ensures Payload(ts + [t]) == Payload(ts) + |t.data|
  {
    assert (ts + [t])[..|ts|] == ts;
  }

  /** Bytes in h rows of w pixels. */
  function RectBytes(h: nat, w: nat): nat {
    if h == 0 then 0 else RectBytes(h - 1, w) + 3 * w
  }

  lemma {:induction false} RectBytesClosed(h: nat, w: nat)
    ensures RectBytes(h, w) == RowStart(w, h) == FrameBytes(Dims(w, h))
  {
    if h > 0 {
      RectBytesClosed(h - 1, w);
    }
  }

  lemma {:induction false} RectBytesWider(h: nat, v: nat, w: nat)
    ensures RectBytes(h, v + w) == RectBytes(h, v) + RectBytes(h, w)
  {
    if h > 0 {
      RectBytesWider(h - 1, v, w);
    }
  }

  lemma {:induction false} RectBytesTaller(g: nat, h: nat, w: nat)
    ensures RectBytes(g + h, w) == RectBytes(g, w) + RectBytes(h, w)
  {
    if h > 0 {
      RectBytesTaller(g, h - 1, w);
      assert g + h - 1 == g + (h - 1);
    }
  }

  lemma TileBytes(d: Dims, cur: seq<byte>, tx: nat, ty: nat)
    requires WellSized(d, cur) && GridTile(d, tx, ty)
    ensures |TileOf(d, cur, tx, ty).data| == RectBytes(Extent(d.h, ty), Extent(d.w, tx)) >= 3
  {
    var h, w := Extent(d.h, ty), Extent(d.w, tx);
    TileInside(d, tx, ty);
    ExtractRowsLength(d, cur, tx * TILE, ty * TILE, w, h);
    RectBytesClosed(h, w);
  }

  /** Bytes of the first n tiles of tile row ty. */
  function RowBytes(d: Dims, ty: nat, n: nat): nat
    requires n <= TilesAcross(d.w) && ty < TilesAcross(d.h)
  {
    if n == 0 then 0 else RowBytes(d, ty, n - 1) + RectBytes(Extent(d.h, ty), Extent(d.w, n - 1))
  }

  /** Tiles and bytes of the first n tile rows. */
  function GridBytes(d: Dims, n: nat): nat
    requires n <= TilesAcross(d.h)
  {
    if n == 0 then 0 else GridBytes(d, n - 1) + RowBytes(d, n - 1, TilesAcross(d.w))
  }

  function GridTiles(d: Dims, n: nat): nat {
    if n == 0 then 0 else GridTiles(d, n - 1) + TilesAcross(d.w)
  }

  lemma {:induction false} GridTilesClosed(d: Dims, n: nat)
    ensures GridTiles(d, n) == TilesAcross(d.w) * n
  {
    if n > 0 {
      GridTilesClosed(d, n - 1);
    }
  }

  lemma {:induction false} RowBytesClosed(d: Dims, ty: nat, n: nat)
    requires n <= TilesAcross(d.w) && ty < TilesAcross(d.h)
    ensures RowBytes(d, ty, n) == RectBytes(Extent(d.h, ty), Min(d.w, n * TILE))
  {
    if n == 0 {
      RectBytesClosed(Extent(d.h, ty), 0);
    } else {
      RowBytesClosed(d, ty, n - 1);
      assert Min(d.w, n * TILE) == (n - 1) * TILE + Extent(d.w, n - 1);
      RectBytesWider(Extent(d.h, ty), (n - 1) * TILE, Extent(d.w, n - 1));
    }
  }

  lemma StripHeights(d: Dims, n: nat)
    requires 0 < n <= TilesAcross(d.h)
    ensures Min(d.w, TilesAcross(d.w) * TILE) == d.w && Min(d.h, (n - 1) * TILE) == (n - 1) * TILE
    ensures Min(d.h, n * TILE) == (n - 1) * TILE + Extent(d.h, n - 1)
  {
  }

  /** The tiles' bytes add up to the frame's: nothing is missed or sent twice. */
  lemma {:induction false} GridBytesClosed(d: Dims, n: nat)
    requires n <= TilesAcross(d.h)
    ensures GridBytes(d, n) == RectBytes(Min(d.h, n * TILE), d.w)
  {
    hide RectBytes, RowBytes;
    if n == 0 {
      RectBytesClosed(0, d.w);
    } else {
      StripHeights(d, n);
      hide Min, Extent, TilesAcross;
      GridBytesClosed(d, n - 1);
      RowBytesClosed(d, n - 1, TilesAcross(d.w));
      RectBytesTaller((n - 1) * TILE, Extent(d.h, n - 1), d.w);
    }
  }

  /** In one tile row: bytes sent, plus three for every tile not sent, fit in the row. */
  lemma {:induction false} RowPayload(d: Dims, prev: seq<byte>, cur: seq<byte>, ty: nat, n: nat)
    requires WellSized(d, cur) && n <= TilesAcross(d.w) && ty < TilesAcross(d.h)
    ensures |ChangedInRow(d, prev, cur, ty, n)| <= n
    ensures Payload(ChangedInRow(d, prev, cur, ty, n)) + 3 * (n - |ChangedInRow(d, prev, cur, ty, n)|)
            <= RowBytes(d, ty, n)
  {
    hide TileChanged, TileOf, TilesAcross, RectBytes;
    if n > 0 {
      var before, t := ChangedInRow(d, prev, cur, ty, n - 1), TileOf(d, cur, n - 1, ty);
      RowPayload(d, prev, cur, ty, n - 1);
      TileBytes(d, cur, n - 1, ty);
      PayloadSnoc(before, t);
      assert ChangedInRow(d, prev, cur, ty, n) == before + [t] || ChangedInRow(d, prev, cur, ty, n) == before;
    }
  }

  lemma {:induction false} RowsPayload(d: Dims, prev: seq<byte>, cur: seq<byte>, n: nat)
    requires WellSized(d, cur) && n <= TilesAcross(d.h)
    ensures |ChangedRows(d, prev, cur, n)| <= GridTiles(d, n)
    ensures Payload(ChangedRows(d, prev, cur, n)) + 3 * (GridTiles(d, n) - |ChangedRows(d, prev, cur, n)|)
            <= GridBytes(d, n)
  {
    hide ChangedInRow, RowBytes;
    if n > 0 {
      var above, row := ChangedRows(d, prev, cur, n - 1), ChangedInRow(d, prev, cur, n - 1, TilesAcross(d.w));
      RowsPayload(d, prev, cur, n - 1);
      RowPayload(d, prev, cur, n - 1, TilesAcross(d.w));
      PayloadConcat(above, row);
      var tiles, bytes := GridTiles(d, n - 1), GridBytes(d, n - 1);
      var rowTiles, rowBytes := TilesAcross(d.w), RowBytes(d, n - 1, TilesAcross(d.w));
      assert Payload(above + row) + 3 * (tiles + rowTiles - |above + row|) <= bytes + rowBytes;
    }
  }

  /** A delta is always cheaper than the key frame it replaces, by at least
      three bytes for each tile it leaves out; and it leaves one out. */
  lemma DeltaSmallerThanKey(d: Dims, last: Option<seq<byte>>, frame: seq<byte>, force: bool)
    requires WellSized(d, frame) && d.w >= 1 && d.h >= 1
    requires Process(d, last, frame, force).frameType == DeltaFrame
    ensures var ts := Process(d, last, frame, force).tiles;
            && ts.Some? && |ts.value| < TotalTiles(d)
            && Payload(ts.value) + 3 * (TotalTiles(d) - |ts.value|) <= FrameBytes(d)
            && Payload(ts.value) < FrameBytes(d)
  {
    var ts := ChangedTiles(d, last.value, frame);
    TotalIsPositive(d);
    PayloadBound(d, last.value, frame);
    assert |ts| <= TotalTiles(d) * 6 / 10;
  }

  lemma PayloadBound(d: Dims, prev: seq<byte>, cur: seq<byte>)
    requires WellSized(d, cur)
    ensures |ChangedTiles(d, prev, cur)| <= TotalTiles(d)
    ensures Payload(ChangedTiles(d, prev, cur)) + 3 * (TotalTiles(d) - |ChangedTiles(d, prev, cur)|)
            <= FrameBytes(d)
  {
    RowsPayload(d, prev, cur, TilesAcross(d.h));
    GridTilesClosed(d, TilesAcross(d.h));
    GridBytesClosed(d, TilesAcross(d.h));
    RectBytesClosed(d.h, d.w);
  }

  lemma TotalIsPositive(d: Dims)
    requires d.w >= 1 && d.h >= 1
    ensures 1 <= TotalTiles(d)
  {
    ProductMonotone(1, 1, TilesAcross(d.w), TilesAcross(d.h));
  }

  // ---------- The client ----------

  /** The client's current_frame, and the size its frame_processor was made for. */
  datatype Screen = Screen(current: Option<seq<byte>>, processor: Option<Dims>)

  function Receive(s: Screen, m: ProcessedFrame): Screen {
    match m.frameType
    case KeyFrame =>
      Screen(Some(m.data), if s.processor.None? then Some(Dims(m.width, m.height)) else s.processor)
    case DeltaFrame =>
      if s.current.Some? && s.processor.Some? && m.tiles.Some?
      then s.(current := Some(ApplyTiles(s.processor.value, s.current.value, m.tiles.value)))
      else s
  }

  function ReceiveAll(s: Screen, ms: seq<ProcessedFrame>): Screen {
    if ms == [] then s else Receive(ReceiveAll(s, ms[..|ms| - 1]), ms[|ms| - 1])
  }

  const EMPTY_SCREEN := Screen(None, None)

  /** The client after a run in which message i arrives exactly when got[i]. */
  function ClientAfter(d: Dims, caps: seq<Capture>, got: seq<bool>): Screen
    requires |got| == |caps|
  {
    if caps == [] then EMPTY_SCREEN
    else
      var n := |caps| - 1;
      var before := ClientAfter(d, caps[..n], got[..n]);
      if got[n] then Receive(before, Message(d, caps, n)) else before
  }

  lemma {:induction false} ProcessorSize(d: Dims, caps: seq<Capture>, got: seq<bool>)
    requires |got| == |caps|
    ensures var s := ClientAfter(d, caps, got);
            (s.processor.Some? ==> s.processor.value == d) && (s.current.Some? ==> s.processor.Some?)
  {
    if caps != [] {
      ProcessorSize(d, caps[..|caps| - 1], got[..|caps| - 1]);
    }
  }

  /** Whatever was lost before: once the key frame of step j is delivered and
      nothing after it is lost, the client shows the server's last_frame. */
  lemma {:induction false} KeyFrameResynchronises(d: Dims, caps: seq<Capture>, got: seq<bool>, j: nat)
    requires |got| == |caps| && j < |caps|
    requires Message(d, caps, j).frameType == KeyFrame
    requires forall i | j <= i < |caps| :: got[i]
    ensures ClientAfter(d, caps, got).current == LastFrame(d, caps)
  {
    hide Process, NextLast, Receive;
    var n := |caps| - 1;
    if j < n {
      assert caps[..n][..j] == caps[..j];
      KeyFrameResynchronises(d, caps[..n], got[..n], j);
    }
    ProcessorSize(d, caps[..n], got[..n]);
    ReceiveMatches(d, LastFrame(d, caps[..n]), ClientAfter(d, caps[..n], got[..n]), caps[n].frame, caps[n].force);
  }

  /** One message: a key frame always, a delta if the client was in step. */
  lemma ReceiveMatches(d: Dims, last: Option<seq<byte>>, s: Screen, frame: seq<byte>, force: bool)
    requires (s.processor.Some? ==> s.processor.value == d) && (s.current.Some? ==> s.processor.Some?)
    requires Process(d, last, frame, force).frameType == KeyFrame || s.current == last
    ensures Receive(s, Process(d, last, frame, force)).current == Some(NextLast(d, last, frame, force))
  {
    hide ChangedTiles, ApplyTiles;
  }

  /** With nothing lost the client shows last_frame after every message. */
  lemma NothingLost(d: Dims, caps: seq<Capture>, got: seq<bool>)
    requires |got| == |caps| && forall i | 0 <= i < |got| :: got[i]
    ensures ClientAfter(d, caps, got).current == LastFrame(d, caps)
  {
    if caps != [] {
      assert caps[..0] == [];
      KeyFrameResynchronises(d, caps, got, 0);
    }
  }

  /** The client shows something if and only if a key frame has arrived. */
  lemma {:induction false} ShowsIffKeyArrived(d: Dims, caps: seq<Capture>, got: seq<bool>)
    requires |got| == |caps|
    ensures ClientAfter(d, caps, got).current.Some? <==>
            exists k | 0 <= k < |caps| :: got[k] && Message(d, caps, k).frameType == KeyFrame
  {
    if caps != [] {
      hide Process, NextLast;
      var n := |caps| - 1;
      ShowsIffKeyArrived(d, caps[..n], got[..n]);
      forall k | 0 <= k < n
        ensures Message(d, caps[..n], k) == Message(d, caps, k) && got[..n][k] == got[k]
      {
        assert caps[..n][..k] == caps[..k];
      }
    }
  }

  /** Whatever is lost: once the client shows something, each tile of it is byte for
      byte that tile of the capture whose message last brought it; i is such a
      capture and no later message that carried the tile arrived. */
  lemma {:induction false} ClientTilesAreLastDelivered(d: Dims, caps: seq<Capture>, got: seq<bool>, tx: nat, ty: nat)
    returns (i: nat)
    requires |got| == |caps| && AllWellSized(d, caps) && GridTile(d, tx, ty)
    requires ClientAfter(d, caps, got).current.Some?
    ensures i < |caps| && got[i] && Carries(d, caps, i, tx, ty)
    ensures forall j | i < j < |caps| :: !(got[j] && Carries(d, caps, j, tx, ty))
    ensures WellSized(d, ClientAfter(d, caps, got).current.value) && WellSized(d, caps[i].frame)
    ensures SameTile(d, ClientAfter(d, caps, got).current.value, caps[i].frame, tx, ty)
  {
    hide Process, NextLast, Receive, SameTile, Carries;
    var n := |caps| - 1;
    assert caps[n] in caps;
    var before := ClientAfter(d, caps[..n], got[..n]);
    LastFrameWellSized(d, caps[..n]);
    ProcessorSize(d, caps[..n], got[..n]);
    if before.current.Some? {
      i := ClientTilesAreLastDelivered(d, caps[..n], got[..n], tx, ty);
      forall j | i <= j < n
        ensures Carries(d, caps[..n], j, tx, ty) <==> Carries(d, caps, j, tx, ty)
      {
        CarriesInPrefix(d, caps, n, j, tx, ty);
      }
    }
    if got[n] {
      ReceivedTile(d, caps, before, tx, ty);
      if Carries(d, caps, n, tx, ty) {
        i := n;
      } else {
        SameTileTransitive(d, ClientAfter(d, caps, got).current.value, before.current.value, caps[i].frame, tx, ty);
      }
    }
  }

  /** One arriving message at one tile. */
  lemma ReceivedTile(d: Dims, caps: seq<Capture>, s: Screen, tx: nat, ty: nat)
    requires AllWellSized(d, caps) && caps != [] && GridTile(d, tx, ty)
    requires (s.processor.Some? ==> s.processor.value == d) && (s.current.Some? ==> s.processor.Some?)
    requires s.current.Some? ==> WellSized(d, s.current.value)
    requires var n := |caps| - 1;
             LastFrame(d, caps[..n]).Some? ==> WellSized(d, LastFrame(d, caps[..n]).value)
    ensures var n := |caps| - 1; var r := Receive(s, Message(d, caps, n)).current;
            r.Some? ==>
              && WellSized(d, r.value) && WellSized(d, caps[n].frame)
              && if Carries(d, caps, n, tx, ty) then SameTile(d, r.value, caps[n].frame, tx, ty)
                 else s.current.Some? && SameTile(d, r.value, s.current.value, tx, ty)
  {
    var n := |caps| - 1;
    assert caps[n] in caps;
    var last, frame := LastFrame(d, caps[..n]), caps[n].frame;
    if !SendsKey(d, last, frame, caps[n].force) && s.current.Some? {
      var ts := ChangedTiles(d, last.value, frame);
      var shown := ApplyTiles(d, s.current.value, ts);
      ChangedTilesExact(d, last.value, frame);
      hide ChangedTiles, ApplyTiles, TileChanged;
      forall px: nat, py: nat, c: nat | Inside(d, px, py) && c < 3 && InTile(d, tx, ty, px, py)
        ensures At(d, shown, px, py, c) ==
                if Reports(ts, tx, ty) then At(d, frame, px, py, c) else At(d, s.current.value, px, py, c)
      {
        TilesPartition(d, px, py);
        ApplyTilesAt(d, s.current.value, frame, ts, px, py, c);
      }
    }
  }

  /** A key frame of another size does not change the processor there is, and a delta
      that comes before any key frame changes nothing. */
  lemma ProcessorKept(s: Screen, m: ProcessedFrame)
    ensures m.frameType == KeyFrame ==> Receive(s, m).current == Some(m.data)
    ensures Receive(s, m).processor ==
            if s.processor.None? && m.frameType == KeyFrame then Some(Dims(m.width, m.height)) else s.processor
    ensures m.frameType == DeltaFrame && (s.current.None? || s.processor.None? || m.tiles.None?) ==> Receive(s, m) == s
  {
  }

  /** The messages of a run that arrive, in order. */
  function Delivered(d: Dims, caps: seq<Capture>, got: seq<bool>): seq<ProcessedFrame>
    requires |got| == |caps|
  {
    if caps == [] then []
    else
      var n := |caps| - 1;
      Delivered(d, caps[..n], got[..n]) + (if got[n] then [Message(d, caps, n)] else [])
  }

  /** The lossy client is the client that receives just the delivered messages. */
  lemma {:induction false} ClientSeesDelivered(d: Dims, caps: seq<Capture>, got: seq<bool>)
    requires |got| == |caps|
    ensures ReceiveAll(EMPTY_SCREEN, Delivered(d, caps, got)) == ClientAfter(d, caps, got)
  {
    if caps != [] {
      var n := |caps| - 1;
      ClientSeesDelivered(d, caps[..n], got[..n]);
      var before := Delivered(d, caps[..n], got[..n]);
      if got[n] {
        assert (before + [Message(d, caps, n)])[..|before|] == before;
      } else {
        assert before + [] == before;
      }
    }
  }

  /** Every message of a run can be applied without leaving u32 or the frame. */
  lemma MessagesAreSafe(d: Dims, caps: seq<Capture>, i: nat)
    requires Addressable(d) && i < |caps|
    ensures var m := Message(d, caps, i);
            m.width == d.w && m.height == d.h && (m.tiles.Some? ==> TilesInRange(d, m.tiles.value))
  {
    var last := LastFrame(d, caps[..i]);
    if !SendsKey(d, last, caps[i].frame, caps[i].force) {
      ChangedTilesExact(d, last.value, caps[i].frame);
      CutTilesInRange(d, caps[i].frame, ChangedTiles(d, last.value, caps[i].frame));
    }
  }

  // ---------- The client object ----------

  class ClientScreen {
    var current: array?<byte>
    var processor: FrameProcessor?

    ghost predicate Valid(d: Dims) reads this {
      Addressable(d) && (processor != null ==> processor.Valid() && processor.D() == d)
    }

    ghost function View(): Screen reads this, current {
      Screen(if current == null then None else Some(current[..]),
             if processor == null then None else Some(processor.D()))
    }

    constructor ()
      ensures View() == EMPTY_SCREEN && forall d | Addressable(d) :: Valid(d)
    {
      current, processor := null, null;
    }

    /** Drains the queue of received frames, as update does on every repaint. */
    method Update(d: Dims, queue: seq<ProcessedFrame>)
      requires Valid(d)
      requires forall m | m in queue :: m.width == d.w && m.height == d.h
      requires forall m | m in queue && m.tiles.Some? :: TilesInRange(d, m.tiles.value)
      modifies this, current
      ensures Valid(d) && View() == ReceiveAll(old(View()), queue)
      ensures current == old(current) || fresh(current)
    {
      var i := 0;
      while i < |queue|
        invariant 0 <= i <= |queue| && Valid(d)
        invariant current == old(current) || fresh(current)
        invariant View() == ReceiveAll(old(View()), queue[..i])
      {
        var m := queue[i];
        assert queue[..i + 1][..i] == queue[..i];
        match m.frameType {
          case KeyFrame =>
            if processor == null {
              processor := new FrameProcessor(m.width as u32, m.height as u32);
            }
            current := new byte[|m.data|](k requires 0 <= k < |m.data| => m.data[k]);
            assert current[..] == m.data;
          case DeltaFrame =>
            if current != null && processor != null {
              processor.ApplyDelta(current, m);
            }
        }
        i := i + 1;
      }
      assert queue[..i] == queue;
    }
  }
}
