/** The FrameProcessor object of src/common/frame_processor.rs. Tile counts, offsets
    and sizes are computed in u32 as in the code. */
module FrameProcessing {
  import opened Basics
  import opened TileGrid
  import opened FrameCodec

  /** Frame sizes for which the u32 arithmetic of the code is meaningful. For
      non-empty frames the last conjunct implies the other two. */
  predicate Addressable(d: Dims) {
    d.w + 63 < TWO_32 && d.h + 63 < TWO_32 && FrameBytes(d) < TWO_32
  }

  lemma NonEmptyAddressable(d: Dims)
    requires d.w >= 1 && d.h >= 1
    ensures Addressable(d) <==> FrameBytes(d) < TWO_32
  {
    ProductMonotone(1, d.w, d.h, d.w);
    ProductMonotone(d.h, 1, d.h, d.w);
  }

  /** The u32 products taken while this tile is copied stay in range. */
  predicate CopyInRange(d: Dims, t: TileData) {
    && t.x < TWO_32 && t.y < TWO_32 && t.width < TWO_32 && t.height < TWO_32
    && var rows := RowsInFrame(d, t.y, t.height);
       rows > 0 ==> Offset(d.w, t.x, t.y + rows - 1) < TWO_32 && 3 * t.width < TWO_32
  }

  predicate TilesInRange(d: Dims, ts: seq<TileData>) { forall t | t in ts :: CopyInRange(d, t) }

  /** Whatever find_changed_tiles cuts out of a frame can be copied back safely. */
  lemma CutTilesInRange(d: Dims, cur: seq<byte>, ts: seq<TileData>)
    requires Addressable(d) && CutFrom(d, cur, ts)
    ensures TilesInRange(d, ts)
  {
    forall t | t in ts
      ensures CopyInRange(d, t)
    {
      TileInside(d, t.x / TILE, t.y / TILE);
      RowEndInRange(d, t.x, t.width, t.y + t.height - 1);
    }
  }

  /** On a well-sized frame every length guard of the codec holds, for every tile of
      the grid: the sample slices, the extracted rows, and the copied rows. */
  lemma GuardsHold(d: Dims, f: seq<byte>, tx: nat, ty: nat, k: nat)
    requires WellSized(d, f) && GridTile(d, tx, ty) && k < Extent(d.h, ty)
    ensures var t := TileOf(d, f, tx, ty);
            && Offset(d.w, t.x, t.y + k) + 3 * t.width <= |f|
            && RowStart(t.width, k) + 3 * t.width <= |t.data|
            && 64 * tx < d.w && 64 * ty < d.h
            && forall px, py | AtFive(d, tx, ty, px, py) ::
                 Inside(d, px, py) && Offset(d.w, px, py) + 3 <= |f|
  {
    var t := TileOf(d, f, tx, ty);
    TileInside(d, tx, ty);
    ExtractRowsLength(d, f, t.x, t.y, t.width, t.height);
    RowSlices(d, t, k);
    assert 64 * tx < d.w && 64 * ty < d.h;
    forall px, py | AtFive(d, tx, ty, px, py)
      ensures Inside(d, px, py) && Offset(d.w, px, py) + 3 <= |f|
    {
      OffsetInRange(d, px, py);
    }
  }

  lemma ProductMonotone(a: nat, b: nat, c: nat, e: nat)
    requires a <= c && b <= e
    ensures a * b <= c * e
  {
    TimesMonotone(a, c, b);
    TimesMonotone(b, e, c);
  }

  class FrameProcessor {
    var lastFrame: Option<seq<byte>>
    const width: u32
    const height: u32
    const tileWidth: u32
    const tileHeight: u32

    ghost function D(): Dims { Dims(width as nat, height as nat) }

    ghost predicate Valid() {
      && tileWidth as nat == TilesAcross(width as nat)
      && tileHeight as nat == TilesAcross(height as nat)
    }

    constructor (width: u32, height: u32)
      requires width as nat + 63 < TWO_32 && height as nat + 63 < TWO_32
      ensures Valid() && D() == Dims(width as nat, height as nat) && lastFrame == None
    {
      this.lastFrame := None;
      this.width := width;
      this.height := height;
      this.tileWidth := (width + 63) / 64;
      this.tileHeight := (height + 63) / 64;
    }

    /** (py * width + px) * bpp, computed in u32. */
    function PixelOffset(px: u32, py: u32): (o: u32)
      requires Offset(width as nat, px as nat, py as nat) < TWO_32
      ensures o as nat == Offset(width as nat, px as nat, py as nat)
    {
      (py * width + px) * 3
    }

    /** One pass of the sampling loop. */
    method PointChanged(prev: seq<byte>, curr: seq<byte>, px: u32, py: u32) returns (differs: bool)
      requires Addressable(D())
      ensures differs == SampleDiffers(D(), prev, curr, px as nat, py as nat)
    {
      if px >= width || py >= height {
        return false;
      }
      OffsetInRange(D(), px as nat, py as nat);
      var offset := PixelOffset(px, py) as nat;
      if offset + 3 <= |prev| && offset + 3 <= |curr| {
        if prev[offset..offset + 3] != curr[offset..offset + 3] {
          return true;
        }
      }
      differs := false;
    }

    method IsTileChanged(prev: seq<byte>, curr: seq<byte>, x: u32, y: u32, w: u32, h: u32, ghost tx: nat, ghost ty: nat)
      returns (changed: bool)
      requires Valid() && Addressable(D()) && GridTile(D(), tx, ty)
      requires x as nat == tx * TILE && w as nat == Extent(D().w, tx)
      requires y as nat == ty * TILE && h as nat == Extent(D().h, ty)
      ensures changed == TileChanged(D(), prev, curr, tx, ty)
    {
      var points: seq<(u32, u32)> := [(0, 0), (w - 1, 0), (0, h - 1), (w - 1, h - 1), (w / 2, h / 2)];
      ghost var ps := SamplePoints(w as nat, h as nat);
      TileInside(D(), tx, ty);
      hide SampleDiffers;
      var i := 0;
      while i < 5
        invariant 0 <= i <= 5
        invariant forall j | 0 <= j < i ::
          !SampleDiffers(D(), prev, curr, x as nat + ps[j].0, y as nat + ps[j].1)
      {
        assert ps[i] == (points[i].0 as nat, points[i].1 as nat);
        var differs := PointChanged(prev, curr, x + points[i].0, y + points[i].1);
        if differs {
          return true;
        }
        i := i + 1;
      }
      changed := false;
    }

    method ExtractTileData(frame: seq<byte>, x: u32, y: u32, w: u32, h: u32) returns (data: seq<byte>)
      requires Valid() && Addressable(D())
      requires x as nat + w as nat <= width as nat && y as nat + h as nat <= height as nat
      ensures data == ExtractTile(D(), frame, x as nat, y as nat, w as nat, h as nat)
    {
      var bpp: u32 := 3;
      RectangleInRange(D(), w as nat, h as nat);
      var capacity := w * h * bpp;
      data := [];
      var ty: u32 := 0;
      while ty < h
        invariant 0 <= ty <= h
        invariant data == ExtractRows(D(), frame, x as nat, y as nat, w as nat, ty as nat)
      {
        var py := y + ty;
        if py >= height {
          break;
        }
        RowEndInRange(D(), x as nat, w as nat, py as nat);
        var rowStart := PixelOffset(x, py) as nat;
        var rowEnd := rowStart + (w * bpp) as nat;
        if rowEnd <= |frame| {
          data := data + frame[rowStart..rowEnd];
        }
        ty := ty + 1;
      }
    }

    /** The body of find_changed_tiles for one grid cell. */
    method ReportTile(previous: seq<byte>, current: seq<byte>, tileX: u32, tileY: u32) returns (report: seq<TileData>)
      requires Valid() && Addressable(D()) && GridTile(D(), tileX as nat, tileY as nat)
      ensures report == if TileChanged(D(), previous, current, tileX as nat, tileY as nat)
                        then [TileOf(D(), current, tileX as nat, tileY as nat)] else []
    {
      TileInside(D(), tileX as nat, tileY as nat);
      var x, y := tileX * 64, tileY * 64;
      var w: u32 := if 64 <= width - x then 64 else width - x;
      var h: u32 := if 64 <= height - y then 64 else height - y;
      var differs := IsTileChanged(previous, current, x, y, w, h, tileX as nat, tileY as nat);
      report := [];
      if differs {
        var data := ExtractTileData(current, x, y, w, h);
        report := [TileData(x as nat, y as nat, w as nat, h as nat, data)];
      }
    }

    method FindChangedTiles(previous: seq<byte>, current: seq<byte>) returns (changed: seq<TileData>)
      requires Valid() && Addressable(D())
      ensures changed == ChangedTiles(D(), previous, current)
    {
      changed := [];
      var tileY: u32 := 0;
      while tileY < tileHeight
        invariant 0 <= tileY <= tileHeight
        invariant changed == ChangedRows(D(), previous, current, tileY as nat)
      {
        var tileX: u32 := 0;
        ghost var above := changed;
        while tileX < tileWidth
          invariant 0 <= tileX <= tileWidth
          invariant changed == above + ChangedInRow(D(), previous, current, tileY as nat, tileX as nat)
        {
          var report := ReportTile(previous, current, tileX, tileY);
          changed := changed + report;
          tileX := tileX + 1;
        }
        tileY := tileY + 1;
      }
    }

    /** One pass of the row loop of copy_tile_to_frame. */
    method CopyTileRow(frame: array<byte>, t: TileData, ty: u32, tileOffset: nat)
      requires Valid() && CopyInRange(D(), t)
      requires ty as nat < RowsInFrame(D(), t.y, t.height) && tileOffset == RowStart(t.width, ty as nat)
      modifies frame
      ensures frame[..] == CopyRow(D(), old(frame[..]), t, ty as nat)
    {
      LastRowIsLargest(D().w, t.x, t.y + ty as nat, t.y + RowsInFrame(D(), t.y, t.height) - 1);
      var frameOffset := PixelOffset(t.x as u32, t.y as u32 + ty) as nat;
      var copyLen := (t.width as u32 * 3) as nat;
      if frameOffset + copyLen <= frame.Length && tileOffset + copyLen <= |t.data| {
        ghost var row := t.data[tileOffset..tileOffset + copyLen];
        forall i | 0 <= i < copyLen {
          frame[frameOffset + i] := t.data[tileOffset + i];
        }
        assert frame[..] == Blit(old(frame[..]), frameOffset, row);
      }
    }

    method CopyTileToFrame(frame: array<byte>, t: TileData)
      requires Valid() && CopyInRange(D(), t)
      modifies frame
      ensures frame[..] == CopyTile(D(), old(frame[..]), t)
    {
      var tileOffset := 0;
      assert t.y < TWO_32 && t.height < TWO_32;
      hide CopyInRange, CopyRow, CopyRows, RowStart;
      RowStartNext(t.width, 0);
      CopyRowsNext(D(), frame[..], t, 0);
      ghost var rows := RowsInFrame(D(), t.y, t.height);
      var ty: u32 := 0;
      while ty < t.height as u32
        invariant 0 <= ty as nat <= rows
        invariant tileOffset == RowStart(t.width, ty as nat)
        invariant frame[..] == CopyRows(D(), old(frame[..]), t, ty as nat)
      {
        var py := t.y as u32 + ty;
        if py >= height {
          break;
        }
        CopyTileRow(frame, t, ty, tileOffset);
        RowStartNext(t.width, ty as nat);
        CopyRowsNext(D(), old(frame[..]), t, ty as nat);
        tileOffset := tileOffset + 3 * t.width;
        ty := ty + 1;
      }
    }

    method ApplyDelta(base: array<byte>, delta: ProcessedFrame)
      requires Valid()
      requires delta.tiles.Some? ==> TilesInRange(D(), delta.tiles.value)
      modifies base
      ensures base[..] == if delta.tiles.Some? then ApplyTiles(D(), old(base[..]), delta.tiles.value)
                          else old(base[..])
    {
      if delta.tiles.Some? {
        CopyTiles(base, delta.tiles.value);
      }
    }

    /** The loop over tiles shared by process_frame and apply_delta. */
    method CopyTiles(frame: array<byte>, ts: seq<TileData>)
      requires Valid() && TilesInRange(D(), ts)
      modifies frame
      ensures frame[..] == ApplyTiles(D(), old(frame[..]), ts)
    {
      var i := 0;
      while i < |ts|
        invariant 0 <= i <= |ts|
        invariant frame[..] == ApplyTiles(D(), old(frame[..]), ts[..i])
      {
        CopyTileToFrame(frame, ts[i]);
        assert ts[..i + 1][..i] == ts[..i];
        i := i + 1;
      }
      assert ts[..i] == ts;
    }

    method ProcessFrame(frame: seq<byte>, forceKeyframe: bool) returns (r: ProcessedFrame)
      requires Valid() && (lastFrame.None? || forceKeyframe || Addressable(D()))
      modifies this`lastFrame
      ensures r == Process(D(), old(lastFrame), frame, forceKeyframe)
      ensures lastFrame == Some(NextLast(D(), old(lastFrame), frame, forceKeyframe))
    {
      if lastFrame.None? || forceKeyframe {
        lastFrame := Some(frame);
        return ProcessedFrame(KeyFrame, frame, width as nat, height as nat, None);
      }
      var previous := lastFrame.value;
      var changed := FindChangedTiles(previous, frame);
      TileCountInRange(D());
      var totalTiles := (tileWidth * tileHeight) as nat;
      if |changed| > totalTiles * 6 / 10 {
        lastFrame := Some(frame);
        return ProcessedFrame(KeyFrame, frame, width as nat, height as nat, None);
      }
      var newFrame := new byte[|previous|](i requires 0 <= i < |previous| => previous[i]);
      assert newFrame[..] == previous;
      ChangedTilesExact(D(), previous, frame);
      CutTilesInRange(D(), frame, changed);
      CopyTiles(newFrame, changed);
      lastFrame := Some(newFrame[..]);
      r := ProcessedFrame(DeltaFrame, [], width as nat, height as nat, Some(changed));
    }
  }

  lemma LastRowIsLargest(w: nat, x: nat, py: nat, last: nat)
    requires py <= last
    ensures Offset(w, x, py) <= Offset(w, x, last)
    ensures py * w + x <= Offset(w, x, last) && py * w <= Offset(w, x, last)
  {
    ProductMonotone(py, w, last, w);
  }

  /** w * h and w * h * 3 fit wherever the whole frame does. */
  lemma RectangleInRange(d: Dims, w: nat, h: nat)
    requires Addressable(d) && w <= d.w && h <= d.h
    ensures w * h < TWO_32 && w * h * 3 < TWO_32
  {
    ProductMonotone(w, h, d.w, d.h);
  }

  lemma TileCountInRange(d: Dims)
    requires Addressable(d)
    ensures TilesAcross(d.w) * TilesAcross(d.h) < TWO_32
  {
    ProductMonotone(TilesAcross(d.w), TilesAcross(d.h), d.w, d.h);
  }
}
