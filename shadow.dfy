/** The shadow framebuffer of the driver (loongson_shadow.c): the decision to
    use a shadow and a second, previous-frame shadow; the buffer allocation;
    the scan-out window; and the tile diff that turns the damage of a shadow
    update into the tiles whose bytes really changed. */
module Shadow {
  import opened Regions
  import opened ShadowTiles
  import opened Wrappers

  /** Which pixel-conversion pass of the shadow library follows the diff. */
  datatype ConversionPass = Update32to24 | UpdatePacked

  // ---------------------------------------------------------------------
  // The state of the tile diff between tiles.  The cursor (j, i) is the
  // tile about to be visited; tiles are visited from the last row of the
  // grid to the first and, within a row, from the last column to the first.

  /** Tile (i', j') of the grid was visited before the cursor reached (j, i). */
  ghost predicate Visited(e: Box, j: int, i: int, i': int, j': int) {
    InGrid(e, i', j') && (j' > j || (j' == j && i' > i))
  }

  /** Tile (i', j') was visited and compared: it is not outside the damage. */
  ghost predicate Compared(dmg: seq<Box>, j: int, i: int, i': int, j': int) {
    Visited(Extents(dmg), j, i, i', j') && Overlaps(dmg, TileBox(Extents(dmg), i', j'))
  }

  /** Byte `k` belongs to a tile compared before the cursor reached (j, i). */
  ghost predicate SyncedBy(dmg: seq<Box>, stride: int, cpp: int, j: int, i: int, k: int) {
    exists i', j' | Compared(dmg, j, i, i', j') :: InBoxBytes(stride, cpp, TileBox(Extents(dmg), i', j'), k)
  }

  /** Byte `k` belongs to a tile of the grid that is not outside the damage:
      the bytes the whole diff brings up to date. */
  ghost predicate SyncedByte(dmg: seq<Box>, stride: int, cpp: int, k: int) {
    exists i', j' | InGrid(Extents(dmg), i', j') && Overlaps(dmg, TileBox(Extents(dmg), i', j')) ::
      InBoxBytes(stride, cpp, TileBox(Extents(dmg), i', j'), k)
  }
  /** The previous-frame buffer after the whole diff: the new bytes where
      SyncedByte holds, the old ones elsewhere. */
  ghost function SyncedBytes(dmg: seq<Box>, orig: seq<bv8>, cur: seq<bv8>, stride: int, cpp: int): (now: seq<bv8>)
    requires |cur| == |orig|
    ensures |now| == |orig|
    ensures forall k | 0 <= k < |orig| :: now[k] == if SyncedByte(dmg, stride, cpp, k) then cur[k] else orig[k]
  {
    seq(|orig|, k requires 0 <= k < |orig| => if SyncedByte(dmg, stride, cpp, k) then cur[k] else orig[k])
  }


  /** The diff so far: `now` holds the new bytes exactly on the compared
      tiles, and `recorded` lists exactly the compared tiles whose bytes
      differed at the start. */
  ghost predicate DiffInv(dmg: seq<Box>, orig: seq<bv8>, cur: seq<bv8>, now: seq<bv8>,
                          stride: int, cpp: int, j: int, i: int, recorded: seq<(int, int)>)
    requires |orig| == |cur| == |now|
  {
    && (forall k | 0 <= k < |now| :: now[k] == if SyncedBy(dmg, stride, cpp, j, i, k) then cur[k] else orig[k])
    && (forall t :: t in recorded <==>
          Compared(dmg, j, i, t.0, t.1) && BoxDiffers(orig, cur, stride, cpp, TileBox(Extents(dmg), t.0, t.1)))
  }

  /** The damage is a well-formed region whose extents fit the buffers. */
  ghost predicate DiffFits(dmg: seq<Box>, stride: int, cpp: int, len: int) {
    WellFormed(dmg) && Fits(stride, cpp, Extents(dmg), len)
  }

  /** The clipped tiles of the grid of a non-empty fitting box fit too. */
  lemma {:induction false} TileFits(e: Box, stride: int, cpp: int, len: int, i: int, j: int)
    requires Fits(stride, cpp, e, len) && NonEmptyBox(e) && InGrid(e, i, j)
    ensures Fits(stride, cpp, TileBox(e, i, j), len) && NonEmptyBox(TileBox(e, i, j))
  {
    var t := TileBox(e, i, j);
    TileBoxInExtents(e, i, j);
    Layout(stride, cpp, t, 0, len);
    Layout(stride, cpp, e, 0, len);
    MulLe(t.x2, e.x2, cpp);
    MulLe(t.y2, e.y2, stride);
  }

  /** At the start nothing is compared and nothing recorded. */
  lemma {:induction false} DiffStart(dmg: seq<Box>, orig: seq<bv8>, cur: seq<bv8>, stride: int, cpp: int)
    requires |orig| == |cur|
    ensures DiffInv(dmg, orig, cur, orig, stride, cpp, TileHi(Extents(dmg).y2) - 1, TileHi(Extents(dmg).x2) - 1, [])
  {
    var e := Extents(dmg);
    var jStart, iStart := TileHi(e.y2) - 1, TileHi(e.x2) - 1;
    forall i', j' ensures !Visited(e, jStart, iStart, i', j') {
    }
  }

  /** A tile outside the damage is passed over: nothing changes. */
  lemma {:induction false} SkipTile(dmg: seq<Box>, orig: seq<bv8>, cur: seq<bv8>, now: seq<bv8>,
                                    stride: int, cpp: int, j: int, i: int, recorded: seq<(int, int)>)
    requires |orig| == |cur| == |now|
    requires DiffInv(dmg, orig, cur, now, stride, cpp, j, i, recorded)
    requires !Overlaps(dmg, TileBox(Extents(dmg), i, j))
    ensures DiffInv(dmg, orig, cur, now, stride, cpp, j, i - 1, recorded)
  {
    var e := Extents(dmg);
    assert forall i', j' :: Compared(dmg, j, i - 1, i', j') <==> Compared(dmg, j, i, i', j');
    forall k ensures SyncedBy(dmg, stride, cpp, j, i - 1, k) <==> SyncedBy(dmg, stride, cpp, j, i, k) {
      if SyncedBy(dmg, stride, cpp, j, i - 1, k) {
        var i', j' :| Compared(dmg, j, i - 1, i', j') && InBoxBytes(stride, cpp, TileBox(e, i', j'), k);
        assert Compared(dmg, j, i, i', j');
      }
      if SyncedBy(dmg, stride, cpp, j, i, k) {
        var i', j' :| Compared(dmg, j, i, i', j') && InBoxBytes(stride, cpp, TileBox(e, i', j'), k);
        assert Compared(dmg, j, i - 1, i', j');
      }
    }
  }

  /** No byte of the tile under the cursor belongs to a tile compared earlier. */
  lemma {:induction false} FreshTile(dmg: seq<Box>, stride: int, cpp: int, len: int, j: int, i: int, k: int)
    requires DiffFits(dmg, stride, cpp, len) && NonEmptyBox(Extents(dmg))
    requires InGrid(Extents(dmg), i, j)
    requires InBoxBytes(stride, cpp, TileBox(Extents(dmg), i, j), k)
    ensures !SyncedBy(dmg, stride, cpp, j, i, k)
  {
    var e := Extents(dmg);
    TileFits(e, stride, cpp, len, i, j);
    forall i', j' | Compared(dmg, j, i, i', j')
      ensures !InBoxBytes(stride, cpp, TileBox(e, i', j'), k)
    {
      TileFits(e, stride, cpp, len, i', j');
      TilesSeparated(e, i, j, i', j');
      BytesDisjoint(stride, cpp, TileBox(e, i, j), TileBox(e, i', j'), len, k);
    }
  }

  /** A tile that is not outside the damage is compared and its bytes copied;
      whether it differed from the buffer now is whether it differed from the
      buffer at the start, because no earlier tile touched its bytes. */
  lemma {:induction false} CompareTile(dmg: seq<Box>, orig: seq<bv8>, cur: seq<bv8>, now: seq<bv8>,
                                       now': seq<bv8>, stride: int, cpp: int, len: int, j: int, i: int,
                                       recorded: seq<(int, int)>, dirty: bool)
    requires |orig| == |cur| == |now| == |now'| == len
    requires DiffFits(dmg, stride, cpp, len) && NonEmptyBox(Extents(dmg))
    requires InGrid(Extents(dmg), i, j) && Overlaps(dmg, TileBox(Extents(dmg), i, j))
    requires DiffInv(dmg, orig, cur, now, stride, cpp, j, i, recorded)
    requires forall k | 0 <= k < len ::
               now'[k] == if InBoxBytes(stride, cpp, TileBox(Extents(dmg), i, j), k) then cur[k] else now[k]
    requires dirty == BoxDiffers(now, cur, stride, cpp, TileBox(Extents(dmg), i, j))
    ensures dirty == BoxDiffers(orig, cur, stride, cpp, TileBox(Extents(dmg), i, j))
    ensures DiffInv(dmg, orig, cur, now', stride, cpp, j, i - 1, if dirty then recorded + [(i, j)] else recorded)
  {
    var e := Extents(dmg);
    var t := TileBox(e, i, j);
    forall k | 0 <= k < len && InBoxBytes(stride, cpp, t, k) ensures now[k] == orig[k] {
      FreshTile(dmg, stride, cpp, len, j, i, k);
    }
    BoxDiffersAgree(now, orig, cur, stride, cpp, t);
    assert Compared(dmg, j, i - 1, i, j);
    forall k ensures SyncedBy(dmg, stride, cpp, j, i - 1, k) <==>
                     SyncedBy(dmg, stride, cpp, j, i, k) || InBoxBytes(stride, cpp, t, k) {
      if SyncedBy(dmg, stride, cpp, j, i - 1, k) {
        var i', j' :| Compared(dmg, j, i - 1, i', j') && InBoxBytes(stride, cpp, TileBox(e, i', j'), k);
        if i' != i || j' != j {
          assert Compared(dmg, j, i, i', j');
        }
      }
      if SyncedBy(dmg, stride, cpp, j, i, k) {
        var i', j' :| Compared(dmg, j, i, i', j') && InBoxBytes(stride, cpp, TileBox(e, i', j'), k);
        assert Compared(dmg, j, i - 1, i', j');
      }
    }
    var recorded' := if dirty then recorded + [(i, j)] else recorded;
    forall tt ensures tt in recorded' <==>
        Compared(dmg, j, i - 1, tt.0, tt.1) && BoxDiffers(orig, cur, stride, cpp, TileBox(e, tt.0, tt.1))
    {
      assert Compared(dmg, j, i - 1, tt.0, tt.1) <==> Compared(dmg, j, i, tt.0, tt.1) || tt == (i, j);
    }
  }

  /** Finishing a row of tiles moves the cursor to the end of the next row. */
  lemma {:induction false} RowDone(dmg: seq<Box>, orig: seq<bv8>, cur: seq<bv8>, now: seq<bv8>,
                                   stride: int, cpp: int, j: int, recorded: seq<(int, int)>)
    requires |orig| == |cur| == |now|
    requires DiffInv(dmg, orig, cur, now, stride, cpp, j, TileLo(Extents(dmg).x1) - 1, recorded)
    ensures DiffInv(dmg, orig, cur, now, stride, cpp, j - 1, TileHi(Extents(dmg).x2) - 1, recorded)
  {
    var e := Extents(dmg);
    var iDone, iNext := TileLo(e.x1) - 1, TileHi(e.x2) - 1;
    assert forall i', j' :: Visited(e, j, iDone, i', j') <==> Visited(e, j - 1, iNext, i', j');
    assert forall i', j' :: Compared(dmg, j, iDone, i', j') <==> Compared(dmg, j - 1, iNext, i', j');
    forall k ensures SyncedBy(dmg, stride, cpp, j, iDone, k) <==> SyncedBy(dmg, stride, cpp, j - 1, iNext, k) {
      if SyncedBy(dmg, stride, cpp, j, iDone, k) {
        var i', j' :| Compared(dmg, j, iDone, i', j') && InBoxBytes(stride, cpp, TileBox(e, i', j'), k);
        assert Compared(dmg, j - 1, iNext, i', j');
      }
      if SyncedBy(dmg, stride, cpp, j - 1, iNext, k) {
        var i', j' :| Compared(dmg, j - 1, iNext, i', j') && InBoxBytes(stride, cpp, TileBox(e, i', j'), k);
        assert Compared(dmg, j, iDone, i', j');
      }
    }
  }

  /** When every tile is visited, the buffer holds the new bytes exactly on
      the tiles not outside the damage. */
  lemma {:induction false} DiffDoneBytes(dmg: seq<Box>, orig: seq<bv8>, cur: seq<bv8>, now: seq<bv8>,
                                         stride: int, cpp: int, len: int, jEnd: int, recorded: seq<(int, int)>)
    requires |orig| == |cur| == |now| == len
    requires jEnd == TileLo(Extents(dmg).y1) - 1
    requires DiffInv(dmg, orig, cur, now, stride, cpp, jEnd, TileHi(Extents(dmg).x2) - 1, recorded)
    ensures forall k | 0 <= k < len :: now[k] == if SyncedByte(dmg, stride, cpp, k) then cur[k] else orig[k]
  {
    var e := Extents(dmg);
    var iEnd := TileHi(e.x2) - 1;
    forall k ensures SyncedBy(dmg, stride, cpp, jEnd, iEnd, k) <==> SyncedByte(dmg, stride, cpp, k) {
      if SyncedBy(dmg, stride, cpp, jEnd, iEnd, k) {
        var i', j' :| Compared(dmg, jEnd, iEnd, i', j') && InBoxBytes(stride, cpp, TileBox(e, i', j'), k);
      }
      if SyncedByte(dmg, stride, cpp, k) {
        var i', j' :| InGrid(e, i', j') && Overlaps(dmg, TileBox(e, i', j')) &&
                      InBoxBytes(stride, cpp, TileBox(e, i', j'), k);
        assert Compared(dmg, jEnd, iEnd, i', j');
      }
    }
  }

  /** When every tile is visited, a damaged pixel lies in a recorded tile
      exactly when the tile holding it changed. */
  lemma {:induction false} DiffDone(dmg: seq<Box>, orig: seq<bv8>, cur: seq<bv8>, now: seq<bv8>,
                                    stride: int, cpp: int, len: int, jEnd: int, rects: seq<Rect>, recorded: seq<(int, int)>)
    requires |orig| == |cur| == |now| == len
    requires DiffFits(dmg, stride, cpp, len)
    requires |rects| == |recorded|
    requires forall r | 0 <= r < |rects| :: rects[r] == BoxRect(TileBox(Extents(dmg), recorded[r].0, recorded[r].1))
    requires jEnd == TileLo(Extents(dmg).y1) - 1
    requires DiffInv(dmg, orig, cur, now, stride, cpp, jEnd, TileHi(Extents(dmg).x2) - 1, recorded)
    ensures forall p :: Contains(Intersect(dmg, FromRects(rects)), p) <==>
              Contains(dmg, p) && BoxDiffers(orig, cur, stride, cpp, TileAt(Extents(dmg), p))
  {
    var e := Extents(dmg);
    var iEnd := TileHi(e.x2) - 1;
    forall p | Contains(dmg, p)
      ensures (exists r | 0 <= r < |recorded| :: InBox(TileBox(e, recorded[r].0, recorded[r].1), p))
              <==> BoxDiffers(orig, cur, stride, cpp, TileAt(e, p))
    {
      if exists r | 0 <= r < |recorded| :: InBox(TileBox(e, recorded[r].0, recorded[r].1), p) {
        var r :| 0 <= r < |recorded| && InBox(TileBox(e, recorded[r].0, recorded[r].1), p);
        TileIndexOf(e, recorded[r].0, recorded[r].1, p);
        assert recorded[r] in recorded;
      }
      if BoxDiffers(orig, cur, stride, cpp, TileAt(e, p)) {
        TilesCover(e, p);
        OverlapsIffSharedPixel(dmg, TileAt(e, p));
        var t := (p.x / Tile, p.y / Tile);
        assert Compared(dmg, jEnd, iEnd, t.0, t.1);
        assert t in recorded;
        var r :| 0 <= r < |recorded| && recorded[r] == t;
        assert InBox(TileBox(e, recorded[r].0, recorded[r].1), p);
      }
    }
    forall r | 0 <= r < |rects| ensures RectBox(rects[r]) == TileBox(e, recorded[r].0, recorded[r].1) {
    }
  }

  /** The diff so far, with the rectangle buffer: `DiffInv`, and the first
      `nrects` rectangles hold the recorded tiles, no more of them than tiles
      visited before the cursor. */
  ghost predicate DiffData(dmg: seq<Box>, orig: seq<bv8>, cur: seq<bv8>, now: seq<bv8>,
                           stride: int, cpp: int, j: int, i: int,
                           rects: seq<Rect>, nrects: int, recorded: seq<(int, int)>)
  {
    var e := Extents(dmg);
    && |orig| == |cur| == |now|
    && DiffInv(dmg, orig, cur, now, stride, cpp, j, i, recorded)
    && |recorded| == nrects <= |rects|
    && nrects <= Mul(TileHi(e.y2) - 1 - j, TileHi(e.x2) - TileLo(e.x1)) + (TileHi(e.x2) - 1 - i)
    && forall r | 0 <= r < nrects :: rects[r] == BoxRect(TileBox(e, recorded[r].0, recorded[r].1))
  }

  /** Before the first tile nothing is recorded. */
  lemma DiffStartData(dmg: seq<Box>, orig: seq<bv8>, cur: seq<bv8>, stride: int, cpp: int, rects: seq<Rect>)
    requires |orig| == |cur|
    ensures DiffData(dmg, orig, cur, orig, stride, cpp, TileHi(Extents(dmg).y2) - 1, TileHi(Extents(dmg).x2) - 1,
                     rects, 0, [])
  {
    DiffStart(dmg, orig, cur, stride, cpp);
    var e := Extents(dmg);
    assert Mul(0, TileHi(e.x2) - TileLo(e.x1)) == 0;
  }

  /** A tile of the grid that is not outside the damage fits the buffers,
      and the rectangle buffer has room for it. */
  lemma {:induction false} TileRoom(dmg: seq<Box>, orig: seq<bv8>, cur: seq<bv8>, now: seq<bv8>,
                                    stride: int, cpp: int, len: int, j: int, i: int,
                                    rects: seq<Rect>, nrects: int, recorded: seq<(int, int)>)
    requires DiffFits(dmg, stride, cpp, len) && |rects| == Capacity(Extents(dmg))
    requires DiffData(dmg, orig, cur, now, stride, cpp, j, i, rects, nrects, recorded)
    requires InGrid(Extents(dmg), i, j) && Overlaps(dmg, TileBox(Extents(dmg), i, j))
    ensures nrects < |rects|
    ensures NonEmptyBox(Extents(dmg)) && Fits(stride, cpp, TileBox(Extents(dmg), i, j), len)
  {
    var e := Extents(dmg);
    GridBounds(e);
    TileFits(e, stride, cpp, len, i, j);
    CountBound(TileHi(e.x2) - TileLo(e.x1), TileHi(e.y2) - TileLo(e.y1), TileHi(e.y2) - 1 - j, TileHi(e.x2) - 1 - i);
  }

  /** One step of the tile loops on the state of the diff: the tile under the
      cursor is compared (and, when it changed, recorded) or passed over. */
  lemma {:induction false} TileStep(dmg: seq<Box>, orig: seq<bv8>, cur: seq<bv8>, now: seq<bv8>, now': seq<bv8>,
                                    stride: int, cpp: int, len: int, j: int, i: int,
                                    rects: seq<Rect>, rects': seq<Rect>, nrects: int, recorded: seq<(int, int)>,
                                    dirty: bool)
    requires |now| == |now'| == len && DiffFits(dmg, stride, cpp, len) && |rects| == Capacity(Extents(dmg))
    requires DiffData(dmg, orig, cur, now, stride, cpp, j, i, rects, nrects, recorded)
    requires InGrid(Extents(dmg), i, j)
    requires Overlaps(dmg, TileBox(Extents(dmg), i, j)) ==>
               && (forall k | 0 <= k < len ::
                     now'[k] == if InBoxBytes(stride, cpp, TileBox(Extents(dmg), i, j), k) then cur[k] else now[k])
               && dirty == BoxDiffers(now, cur, stride, cpp, TileBox(Extents(dmg), i, j))
               && 0 <= nrects < |rects|
               && rects' == if dirty then rects[nrects := BoxRect(TileBox(Extents(dmg), i, j))] else rects
    requires !Overlaps(dmg, TileBox(Extents(dmg), i, j)) ==> now' == now && rects' == rects && !dirty
    ensures |rects'| == |rects|
    ensures DiffData(dmg, orig, cur, now', stride, cpp, j, i - 1, rects',
                     if dirty then nrects + 1 else nrects, if dirty then recorded + [(i, j)] else recorded)
  {
    var e := Extents(dmg);
    if Overlaps(dmg, TileBox(e, i, j)) {
      TileRoom(dmg, orig, cur, now, stride, cpp, len, j, i, rects, nrects, recorded);
      CompareTile(dmg, orig, cur, now, now', stride, cpp, len, j, i, recorded, dirty);
      CountBound(TileHi(e.x2) - TileLo(e.x1), TileHi(e.y2) - TileLo(e.y1), TileHi(e.y2) - 1 - j, TileHi(e.x2) - 1 - i);
    } else {
      SkipTile(dmg, orig, cur, now, stride, cpp, j, i, recorded);
    }
  }

  /** Finishing a row of tiles, with the rectangle buffer. */
  lemma {:induction false} RowDoneData(dmg: seq<Box>, orig: seq<bv8>, cur: seq<bv8>, now: seq<bv8>,
                                       stride: int, cpp: int, j: int,
                                       rects: seq<Rect>, nrects: int, recorded: seq<(int, int)>)
    requires Placed(Extents(dmg)) && TileLo(Extents(dmg).y1) <= j < TileHi(Extents(dmg).y2)
    requires DiffData(dmg, orig, cur, now, stride, cpp, j, TileLo(Extents(dmg).x1) - 1, rects, nrects, recorded)
    ensures DiffData(dmg, orig, cur, now, stride, cpp, j - 1, TileHi(Extents(dmg).x2) - 1, rects, nrects, recorded)
  {
    var e := Extents(dmg);
    RowDone(dmg, orig, cur, now, stride, cpp, j, recorded);
    GridBounds(e);
    MulIsProduct(TileHi(e.y2) - 1 - j, TileHi(e.x2) - TileLo(e.x1));
    MulIsProduct(TileHi(e.y2) - 1 - (j - 1), TileHi(e.x2) - TileLo(e.x1));
  }

  /** The end of the diff, with the rectangle buffer: the region built from
      the recorded rectangles, intersected with the damage, is the damage on
      the tiles that changed. */
  lemma {:induction false} DiffDoneData(dmg: seq<Box>, orig: seq<bv8>, cur: seq<bv8>, now: seq<bv8>,
                                        stride: int, cpp: int, len: int, jEnd: int,
                                        rects: seq<Rect>, nrects: int, recorded: seq<(int, int)>)
    requires |now| == len && DiffFits(dmg, stride, cpp, len)
    requires jEnd == TileLo(Extents(dmg).y1) - 1
    requires DiffData(dmg, orig, cur, now, stride, cpp, jEnd, TileHi(Extents(dmg).x2) - 1, rects, nrects, recorded)
    ensures 0 <= nrects <= |rects|
    ensures |orig| == |cur| && now == SyncedBytes(dmg, orig, cur, stride, cpp)
    ensures forall p :: Contains(Intersect(dmg, FromRects(rects[..nrects])), p) <==>
              Contains(dmg, p) && BoxDiffers(orig, cur, stride, cpp, TileAt(Extents(dmg), p))
  {
    DiffDoneBytes(dmg, orig, cur, now, stride, cpp, len, jEnd, recorded);
    DiffDone(dmg, orig, cur, now, stride, cpp, len, jEnd, rects[..nrects], recorded);
  }

  /** Bound on the number of recorded tiles: a tiles before the cursor row
      and b before the cursor column stay below the capacity. */
  lemma {:induction false} CountBound(w: int, h: int, a: int, b: int)
    requires 0 <= a < h && 0 <= b < w
    ensures Mul(a, w) + b + 1 <= Mul(w, h)
  {
    MulIsProduct(a, w);
    MulIsProduct(w, h);
    MulLe(a + 1, h, w);
  }

  /** LS_ShadowShouldDouble: the DoubleShadow option when it is set;
      otherwise on exactly for the mgag200 and ast kernel drivers. */
  function ShouldDouble(driverName: string, doubleOption: Option<bool>): (on: bool)
    ensures doubleOption.Some? ==> on == doubleOption.value
    ensures doubleOption.None? ==> (on <==> driverName in {"mgag200", "ast"})
  {
    var byDriver := driverName == "mgag200" || driverName == "ast";
    if doubleOption.Some? then doubleOption.value else byDriver
  }

  /** The shadow state of one screen: the shadow and previous-frame buffers
      and the flags that say whether they are in use. */
  class ShadowState {
    /** drmmode.shadow_enable: render into a CPU shadow buffer. */
    var enable: bool
    /** drmmode.shadow_enable2: keep a previous-frame buffer and diff it. */
    var enable2: bool
    /** drmmode.shadow_fb: the buffer the server renders into. */
    var fb: array?<bv8>
    /** drmmode.shadow_fb2: the previous frame. */
    var fb2: array?<bv8>
    /** The damage region of the shadow buffer. */
    var damage: seq<Box>
    /** drmmode.force_24_32: 24 bpp hardware behind a 32 bpp shadow. */
    const force2432: bool
    /** drmmode.cpp: bytes per pixel of the shadow. */
    const cpp: nat

    constructor (force2432: bool, cpp: nat)
      ensures this.force2432 == force2432 && this.cpp == cpp
      ensures !enable && !enable2 && fb == null && fb2 == null && damage == []
    {
      this.force2432 := force2432;
      this.cpp := cpp;
      enable, enable2 := false, false;
      fb, fb2 := null, null;
      damage := [];
    }

    /** LS_TryEnableShadow.  `capRet`/`capValue` are the answer to the
        prefer-shadow capability query, `shadowOption` the ShadowFB option if
        set; `driverName` and `doubleOption` feed LS_ShadowShouldDouble. */
    method TryEnableShadow(capRet: int, capValue: nat, shadowOption: Option<bool>,
                           driverName: string, doubleOption: Option<bool>)
      modifies this`enable, this`enable2
      ensures force2432 ==> enable
      ensures !force2432 && shadowOption.Some? ==> enable == shadowOption.value
      ensures !force2432 && shadowOption.None? ==> enable == (capRet != 0 || capValue != 0)
      ensures enable2 <==> enable && ShouldDouble(driverName, doubleOption)
    {
      var preferShadow := true;
      if force2432 {
        preferShadow := true;
        enable := true;
      } else {
        if capRet == 0 {
          preferShadow := capValue != 0;
        }
        enable := if shadowOption.Some? then shadowOption.value else preferShadow;
      }
      enable2 := if enable then ShouldDouble(driverName, doubleOption) else false;
    }

    /** LS_ShadowAllocFB: a zero-filled buffer of displayWidth * virtualY
        * bytes-per-pixel bytes; `allocOk` is the outcome of the allocation. */
    method AllocFB(displayWidth: nat, virtualY: nat, bitsPerPixel: nat, allocOk: bool) returns (ok: bool)
      modifies this`fb
      ensures ok == allocOk
      ensures ok ==> fb != null && fresh(fb) && fb.Length == ShadowSize(displayWidth, virtualY, bitsPerPixel)
      ensures ok ==> forall k | 0 <= k < fb.Length :: fb[k] == 0
      ensures !ok ==> fb == null
    {
      if allocOk {
        fb := new bv8[ShadowSize(displayWidth, virtualY, bitsPerPixel)](_ => 0);
      } else {
        fb := null;
      }
      ok := fb != null;
    }

    /** LS_ShadowFreeFB. */
    method FreeFB()
      modifies this`fb
      ensures fb == null
    {
      fb := null;
    }

    /** LS_ShadowAllocDoubleFB: the previous-frame buffer, sized like the shadow. */
    method AllocDoubleFB(displayWidth: nat, virtualY: nat, bitsPerPixel: nat, allocOk: bool) returns (ok: bool)
      modifies this`fb2
      ensures ok == allocOk
      ensures ok ==> fb2 != null && fresh(fb2) && fb2.Length == ShadowSize(displayWidth, virtualY, bitsPerPixel)
      ensures ok ==> forall k | 0 <= k < fb2.Length :: fb2[k] == 0
      ensures !ok ==> fb2 == null
    {
      if allocOk {
        fb2 := new bv8[ShadowSize(displayWidth, virtualY, bitsPerPixel)](_ => 0);
      } else {
        fb2 := null;
      }
      ok := fb2 != null;
    }

    /** LS_ShadowFreeDoubleFB. */
    method FreeDoubleFB()
      modifies this`fb2
      ensures fb2 == null
    {
      fb2 := null;
    }

    /** Both buffers exist, are distinct, have the same size, and the damage
        fits them for a pixmap of `stride` bytes per row. */
    ghost predicate DiffReady(stride: nat)
      reads this
    {
      fb != null && fb2 != null && fb != fb2 && fb.Length == fb2.Length &&
      DiffFits(damage, stride, cpp, fb2.Length)
    }

    /** One row of msUpdateIntersect: memcmp of `width` bytes at `off`, and
        memcpy of them from the shadow when they differ. */
    method SyncRow(off: nat, width: nat) returns (rowDiffers: bool)
      requires fb != null && fb2 != null && fb != fb2 && fb.Length == fb2.Length
      requires off + width <= fb2.Length
      modifies fb2
      ensures rowDiffers == (old(fb2[off..off + width]) != fb[off..off + width])
      ensures forall k | 0 <= k < fb2.Length ::
                fb2[k] == if rowDiffers && off <= k < off + width then fb[k] else old(fb2[k])
    {
      rowDiffers := fb2[off..off + width] != fb[off..off + width];
      if rowDiffers {
        forall k | off <= k < off + width {
          fb2[k] := fb[k];
        }
      }
    }

    /** msUpdateIntersect: bring the bytes of `box` in the previous frame up
        to date row by row, and record the box at prect[at] when some row
        differed. */
    method UpdateIntersect(stride: nat, box: Box, prect: array<Rect>, at: nat) returns (dirty: bool)
      requires fb != null && fb2 != null && fb != fb2 && fb.Length == fb2.Length
      requires Fits(stride, cpp, box, fb2.Length)
      requires at < prect.Length && prect as object != fb && prect as object != fb2
      modifies fb2, prect
      ensures forall k | 0 <= k < fb2.Length ::
                fb2[k] == if InBoxBytes(stride, cpp, box, k) then fb[k] else old(fb2[k])
      ensures dirty == BoxDiffers(old(fb2[..]), fb[..], stride, cpp, box)
      ensures prect[..] == if dirty then old(prect[..])[at := BoxRect(box)] else old(prect[..])
    {
      ghost var orig := fb2[..];
      var width := RowWidth(cpp, box);
      var numLines := box.y2 - box.y1;
      var off := RowStart(stride, cpp, box, box.y1);
      dirty := false;
      var i := 0;
      while i < numLines
        invariant 0 <= i <= numLines
        invariant off == RowStart(stride, cpp, box, box.y1 + i)
        invariant |orig| == fb2.Length
        invariant RowsSynced(orig, fb[..], fb2[..], stride, cpp, box, box.y1 + i)
        invariant dirty == RowsDiffer(orig, fb[..], stride, cpp, box, box.y1 + i)
        invariant prect[..] == old(prect[..])
      {
        var y := box.y1 + i;
        RowInBuffer(stride, cpp, box, fb2.Length, y);
        ghost var before := fb2[..];
        var rowDiffers := SyncRow(off, width);
        RowStep(orig, fb[..], before, fb2[..], stride, cpp, box, y, dirty, rowDiffers);
        dirty := dirty || rowDiffers;
        off := off + stride;
        i := i + 1;
      }
      assert RowsSynced(orig, fb[..], fb2[..], stride, cpp, box, box.y2);
      forall k | 0 <= k < fb2.Length
        ensures fb2[k] == if InBoxBytes(stride, cpp, box, k) then fb[k] else orig[k]
      {
        assert fb2[k] == fb2[..][k] && fb[k] == fb[..][k];
      }
      if dirty {
        prect[at] := BoxRect(box);
      }
    }

    /** The state of the tile diff with the cursor at (j, i): the buffers as
        the diff needs them and the diff so far as `DiffData` says. */
    ghost predicate DiffState(stride: nat, dmg: seq<Box>, orig: seq<bv8>, j: int, i: int,
                              prect: array<Rect>, nrects: int, recorded: seq<(int, int)>)
      reads this, fb, fb2, prect
    {
      && fb != null && fb2 != null && fb != fb2
      && |orig| == fb.Length == fb2.Length
      && DiffFits(dmg, stride, cpp, fb2.Length)
      && prect as object != fb && prect as object != fb2
      && prect.Length == Capacity(Extents(dmg))
      && DiffData(dmg, orig, fb[..], fb2[..], stride, cpp, j, i, prect[..], nrects, recorded)
    }

    /** One step of the tile loops of LS_ShadowUpdatePacked: tile (i, j) is
        compared and copied when it is not outside the damage, and recorded
        at prect[nrects] when it changed. */
    method DiffTile(stride: nat, dmg: seq<Box>, ghost orig: seq<bv8>, j: int, i: int,
                    prect: array<Rect>, nrects: int, ghost recorded: seq<(int, int)>)
      returns (nrects': int, ghost recorded': seq<(int, int)>)
      requires DiffState(stride, dmg, orig, j, i, prect, nrects, recorded)
      requires InGrid(Extents(dmg), i, j)
      modifies fb2, prect
      ensures DiffState(stride, dmg, orig, j, i - 1, prect, nrects', recorded')
    {
      var box := TileBox(Extents(dmg), i, j);
      ghost var now, rects := fb2[..], prect[..];
      var dirty := false;
      if Overlaps(dmg, box) {
        TileRoom(dmg, orig, fb[..], now, stride, cpp, fb2.Length, j, i, rects, nrects, recorded);
        dirty := UpdateIntersect(stride, box, prect, nrects);
      }
      TileStep(dmg, orig, fb[..], now, fb2[..], stride, cpp, fb2.Length, j, i, rects, prect[..], nrects, recorded, dirty);
      nrects' := if dirty then nrects + 1 else nrects;
      recorded' := if dirty then recorded + [(i, j)] else recorded;
    }

    /** The inner tile loop of LS_ShadowUpdatePacked: the tiles of row j,
        from the last column to the first. */
    method DiffRow(stride: nat, dmg: seq<Box>, ghost orig: seq<bv8>, j: int,
                   prect: array<Rect>, nrects: int, ghost recorded: seq<(int, int)>)
      returns (nrects': int, ghost recorded': seq<(int, int)>)
      requires TileLo(Extents(dmg).y1) <= j < TileHi(Extents(dmg).y2)
      requires DiffState(stride, dmg, orig, j, TileHi(Extents(dmg).x2) - 1, prect, nrects, recorded)
      modifies fb2, prect
      ensures DiffState(stride, dmg, orig, j - 1, TileHi(Extents(dmg).x2) - 1, prect, nrects', recorded')
    {
      var e := Extents(dmg);
      var i := TileHi(e.x2) - 1;
      nrects', recorded' := nrects, recorded;
      while i >= TileLo(e.x1)
        invariant TileLo(e.x1) - 1 <= i <= TileHi(e.x2) - 1
        invariant DiffState(stride, dmg, orig, j, i, prect, nrects', recorded')
      {
        nrects', recorded' := DiffTile(stride, dmg, orig, j, i, prect, nrects', recorded');
        i := i - 1;
      }
      RowDoneData(dmg, orig, fb[..], fb2[..], stride, cpp, j, prect[..], nrects', recorded');
    }

    /** The diff before any tile is visited. */
    lemma DiffStartState(stride: nat, dmg: seq<Box>, orig: seq<bv8>, prect: array<Rect>)
      requires fb != null && fb2 != null && fb != fb2 && orig == fb2[..] && fb.Length == fb2.Length
      requires DiffFits(dmg, stride, cpp, fb2.Length)
      requires prect as object != fb && prect as object != fb2 && prect.Length == Capacity(Extents(dmg))
      ensures DiffState(stride, dmg, orig, TileHi(Extents(dmg).y2) - 1, TileHi(Extents(dmg).x2) - 1, prect, 0, [])
      ensures TileLo(Extents(dmg).y1) - 1 <= TileHi(Extents(dmg).y2) - 1
    {
      GridBounds(Extents(dmg));
      DiffStartData(dmg, orig, fb[..], stride, cpp, prect[..]);
    }

    /** The two tile loops of LS_ShadowUpdatePacked: every row of tiles from
        the last to the first. */
    method DiffTiles(stride: nat, dmg: seq<Box>, ghost orig: seq<bv8>, prect: array<Rect>)
      returns (nrects: int, ghost recorded: seq<(int, int)>, ghost jEnd: int)
      requires TileLo(Extents(dmg).y1) - 1 <= TileHi(Extents(dmg).y2) - 1
      requires DiffState(stride, dmg, orig, TileHi(Extents(dmg).y2) - 1, TileHi(Extents(dmg).x2) - 1, prect, 0, [])
      modifies fb2, prect
      ensures jEnd == TileLo(Extents(dmg).y1) - 1
      ensures DiffState(stride, dmg, orig, jEnd, TileHi(Extents(dmg).x2) - 1, prect, nrects, recorded)
    {
      nrects := 0;
      recorded := [];
      var j := TileHi(Extents(dmg).y2) - 1;
      while j >= TileLo(Extents(dmg).y1)
        invariant TileLo(Extents(dmg).y1) - 1 <= j <= TileHi(Extents(dmg).y2) - 1
        invariant DiffState(stride, dmg, orig, j, TileHi(Extents(dmg).x2) - 1, prect, nrects, recorded)
      {
        nrects, recorded := DiffRow(stride, dmg, orig, j, prect, nrects, recorded);
        j := j - 1;
      }
      jEnd := j;
    }

    /** The body of the do-while block of LS_ShadowUpdatePacked once the
        rectangle list is allocated: the tile diff, then the damage
        intersected with the region of the changed tiles. */
    method DiffDamage(stride: nat)
      requires DiffReady(stride)
      modifies this`damage, fb2
      ensures WellFormed(damage)
      ensures forall p :: Contains(damage, p) <==>
                Contains(old(damage), p) &&
                BoxDiffers(old(fb2[..]), fb[..], stride, cpp, TileAt(Extents(old(damage)), p))
      ensures fb2[..] == SyncedBytes(old(damage), old(fb2[..]), fb[..], stride, cpp)
    {
      var dmg := damage;
      ghost var orig := fb2[..];
      var e := Extents(dmg);
      GridBounds(e);
      var prect := new Rect[Capacity(e)](_ => Rect(0, 0, 0, 0));
      var nrects;
      ghost var recorded, jEnd;
      DiffStartState(stride, dmg, orig, prect);
      nrects, recorded, jEnd := DiffTiles(stride, dmg, orig, prect);
      DiffDoneData(dmg, orig, fb[..], fb2[..], stride, cpp, fb2.Length, jEnd, prect[..], nrects, recorded);
      var tiles := FromRects(prect[..nrects]);
      damage := Intersect(dmg, tiles);
    }

    /** LS_ShadowUpdatePacked.  When the previous-frame buffer is in use, the
        damage extents are cut into 16x16 tiles; every tile not outside the
        damage is compared and copied, and the damage is cut down to the tiles
        that changed.  `allocOk` is the outcome of allocating the rectangle
        list; on failure the diff is skipped.  The conversion pass chosen
        afterwards is returned. */
    method UpdatePackedDiff(stride: nat, bitsPerPixel: int, allocOk: bool) returns (pass: ConversionPass)
      requires enable2 && fb2 != null ==> DiffReady(stride)
      modifies this`damage, fb2
      ensures pass == if force2432 && bitsPerPixel == 32 then Update32to24 else UpdatePacked
      ensures !(enable2 && fb2 != null && allocOk) ==> damage == old(damage)
      ensures !(enable2 && fb2 != null && allocOk) && fb2 != null ==> fb2[..] == old(fb2[..])
      ensures enable2 && fb2 != null && allocOk ==>
                WellFormed(damage) &&
                forall p :: Contains(damage, p) <==>
                  Contains(old(damage), p) &&
                  BoxDiffers(old(fb2[..]), fb[..], stride, cpp, TileAt(Extents(old(damage)), p))
      ensures enable2 && fb2 != null && allocOk ==>
                fb2[..] == SyncedBytes(old(damage), old(fb2[..]), fb[..], stride, cpp)
      ensures enable2 && fb2 != null && allocOk && old(fb2[..]) == fb[..] ==>
                (forall p :: !Contains(damage, p)) && fb2[..] == old(fb2[..])
    {
      if enable2 && fb2 != null && allocOk {
        ghost var orig := fb2[..];
        DiffDamage(stride);
        if orig == fb[..] {
          assert fb2[..] == orig;
        }
      }
      pass := if force2432 && bitsPerPixel == 32 then Update32to24 else UpdatePacked;
    }
  }

  /** The rows of `b` above `top` hold the new bytes; every other byte
      still holds the old one. */
  ghost predicate RowsSynced(orig: seq<bv8>, cur: seq<bv8>, now: seq<bv8>, stride: int, cpp: int, b: Box, top: int) {
    |orig| == |cur| == |now| &&
    forall k | 0 <= k < |now| :: now[k] == if InRows(stride, cpp, b, top, k) then cur[k] else orig[k]
  }

  /** Some byte in the rows of `b` above `top` differs. */
  ghost predicate RowsDiffer(orig: seq<bv8>, cur: seq<bv8>, stride: int, cpp: int, b: Box, top: int) {
    exists k | 0 <= k < |orig| && k < |cur| :: InRows(stride, cpp, b, top, k) && orig[k] != cur[k]
  }

  /** One row of msUpdateIntersect: the row is compared with memcmp and, when
      it differs, copied with memcpy. */
  lemma {:induction false} RowStep(orig: seq<bv8>, cur: seq<bv8>, now: seq<bv8>, now': seq<bv8>,
                                   stride: int, cpp: int, b: Box, y: int, dirty: bool, rowDiffers: bool)
    requires Fits(stride, cpp, b, |orig|) && b.y1 <= y < b.y2
    requires RowsSynced(orig, cur, now, stride, cpp, b, y)
    requires dirty == RowsDiffer(orig, cur, stride, cpp, b, y)
    requires RowStart(stride, cpp, b, y) + RowWidth(cpp, b) <= |orig| && 0 <= RowStart(stride, cpp, b, y)
    requires 0 <= RowWidth(cpp, b)
    requires rowDiffers == (now[RowStart(stride, cpp, b, y)..RowStart(stride, cpp, b, y) + RowWidth(cpp, b)] !=
                            cur[RowStart(stride, cpp, b, y)..RowStart(stride, cpp, b, y) + RowWidth(cpp, b)])
    requires |now'| == |now|
    requires forall k | 0 <= k < |now| :: now'[k] == if rowDiffers && InRow(stride, cpp, b, y, k) then cur[k] else now[k]
    ensures RowsSynced(orig, cur, now', stride, cpp, b, y + 1)
    ensures (dirty || rowDiffers) == RowsDiffer(orig, cur, stride, cpp, b, y + 1)
  {
    var off, width := RowStart(stride, cpp, b, y), RowWidth(cpp, b);
    forall k | off <= k < off + width ensures now[k] == orig[k] {
      RowIsFresh(stride, cpp, b, |orig|, y, k);
    }
    forall k ensures InRows(stride, cpp, b, y + 1, k) <==> InRows(stride, cpp, b, y, k) || InRow(stride, cpp, b, y, k) {
      if InRows(stride, cpp, b, y + 1, k) {
        var y' :| b.y1 <= y' < y + 1 && InRow(stride, cpp, b, y', k);
        if y' < y {
          assert InRows(stride, cpp, b, y, k);
        }
      }
    }
    if rowDiffers {
      var m :| 0 <= m < width && now[off..off + width][m] != cur[off..off + width][m];
      assert InRow(stride, cpp, b, y, off + m) && orig[off + m] != cur[off + m];
    } else {
      forall k | off <= k < off + width ensures orig[k] == cur[k] {
        assert now[off..off + width][k - off] == cur[off..off + width][k - off];
      }
    }
  }

  /** A byte of the row under the loop's cursor was not written by an
      earlier row of the same box. */
  lemma {:induction false} RowIsFresh(stride: int, cpp: int, box: Box, len: int, y: int, k: int)
    requires Fits(stride, cpp, box, len) && box.y1 <= y < box.y2
    requires InRow(stride, cpp, box, y, k)
    ensures !InRows(stride, cpp, box, y, k)
  {
    forall y' | box.y1 <= y' < y ensures !InRow(stride, cpp, box, y', k) {
      RowsApart(stride, cpp, box, box, len, y', y);
    }
  }
}
