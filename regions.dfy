/** The X server's region library, as far as the damage core uses it.

    A region is the list of boxes the library stores (REGION_RECTS); what it
    means is the set of pixels it covers, given by `Contains`.  Boxes are
    half-open: a box holds the pixels x1 <= x < x2, y1 <= y < y2.  The library's
    banded representation is not modelled; only the pixel set and the list of
    boxes handed to the kernel are. */
module Regions {

  /** BoxRec: a half-open rectangle given by its corners. */
  datatype Box = Box(x1: int, y1: int, x2: int, y2: int)

  /** xRectangle: origin and size. */
  datatype Rect = Rect(x: int, y: int, width: int, height: int)

  datatype Point = Point(x: int, y: int)

  function Min(a: int, b: int): int { if a <= b then a else b }
  function Max(a: int, b: int): int { if a <= b then b else a }

  predicate InBox(b: Box, p: Point) {
    b.x1 <= p.x < b.x2 && b.y1 <= p.y < b.y2
  }

  predicate NonEmptyBox(b: Box) {
    b.x1 < b.x2 && b.y1 < b.y2
  }

  /** Box `a` lies inside box `b`. */
  predicate Within(a: Box, b: Box) {
    b.x1 <= a.x1 && a.x2 <= b.x2 && b.y1 <= a.y1 && a.y2 <= b.y2
  }

  /** The library never stores an empty box in a region. */
  predicate WellFormed(rs: seq<Box>) {
    forall i | 0 <= i < |rs| :: NonEmptyBox(rs[i])
  }

  /** Pixel `p` belongs to the region. */
  predicate Contains(rs: seq<Box>, p: Point) {
    exists i | 0 <= i < |rs| :: InBox(rs[i], p)
  }

  lemma ContainsAppend(a: seq<Box>, b: seq<Box>, p: Point)
    ensures Contains(a + b, p) <==> Contains(a, p) || Contains(b, p)
  {
    if Contains(a + b, p) {
      var i :| 0 <= i < |a + b| && InBox((a + b)[i], p);
      if i < |a| {
        assert InBox(a[i], p);
      } else {
        assert InBox(b[i - |a|], p);
      }
    }
    if Contains(a, p) {
      var i :| 0 <= i < |a| && InBox(a[i], p);
      assert (a + b)[i] == a[i];
    }
    if Contains(b, p) {
      var i :| 0 <= i < |b| && InBox(b[i], p);
      assert (a + b)[|a| + i] == b[i];
    }
  }

  /** The smallest box holding both boxes. */
  function Hull(a: Box, b: Box): Box {
    Box(Min(a.x1, b.x1), Min(a.y1, b.y1), Max(a.x2, b.x2), Max(a.y2, b.y2))
  }

  /** RegionExtents: the bounding box of the region; the empty region has
      the all-zero box. Every box of the region, hence every pixel, lies in it. */
  function Extents(rs: seq<Box>): (e: Box)
    ensures forall i | 0 <= i < |rs| :: Within(rs[i], e)
    ensures forall p | Contains(rs, p) :: InBox(e, p)
    ensures rs == [] ==> e == Box(0, 0, 0, 0)
    ensures WellFormed(rs) && rs != [] ==> NonEmptyBox(e)
  {
    if |rs| == 0 then Box(0, 0, 0, 0)
    else if |rs| == 1 then rs[0]
    else
      var front := Extents(rs[..|rs| - 1]);
      assert forall i | 0 <= i < |rs| - 1 :: rs[i] == rs[..|rs| - 1][i];
      Hull(front, rs[|rs| - 1])
  }

  /** The common part of two boxes (possibly empty). */
  function Inter(a: Box, b: Box): Box {
    Box(Max(a.x1, b.x1), Max(a.y1, b.y1), Min(a.x2, b.x2), Min(a.y2, b.y2))
  }

  /** The two boxes share at least one pixel. */
  predicate Meet(a: Box, b: Box) {
    NonEmptyBox(Inter(a, b))
  }

  /** RegionContainsRect(region, box) != rgnOUT: some box of the region
      shares a pixel with `b`. */
  predicate Overlaps(rs: seq<Box>, b: Box) {
    exists i | 0 <= i < |rs| :: Meet(rs[i], b)
  }

  /** A box overlaps a region exactly when they have a pixel in common. */
  lemma OverlapsIffSharedPixel(rs: seq<Box>, b: Box)
    ensures Overlaps(rs, b) <==> exists p :: InBox(b, p) && Contains(rs, p)
  {
    if Overlaps(rs, b) {
      var i :| 0 <= i < |rs| && Meet(rs[i], b);
      var q := Inter(rs[i], b);
      var p := Point(q.x1, q.y1);
      assert InBox(rs[i], p) && InBox(b, p);
    }
    if exists p :: InBox(b, p) && Contains(rs, p) {
      var p :| InBox(b, p) && Contains(rs, p);
      var i :| 0 <= i < |rs| && InBox(rs[i], p);
      assert Meet(rs[i], b);
    }
  }

  /** The pieces of the region that lie inside box `b`. */
  function ClipToBox(rs: seq<Box>, b: Box): (r: seq<Box>)
    ensures WellFormed(r)
    ensures forall p :: Contains(r, p) <==> Contains(rs, p) && InBox(b, p)
  {
    if rs == [] then []
    else
      var front := ClipToBox(rs[..|rs| - 1], b);
      var last := rs[|rs| - 1];
      var piece := if Meet(last, b) then [Inter(last, b)] else [];
      assert forall p :: Contains(rs, p) <==> Contains(rs[..|rs| - 1], p) || InBox(last, p) by {
        assert rs == rs[..|rs| - 1] + [last];
        forall p { ContainsAppend(rs[..|rs| - 1], [last], p); }
      }
      assert forall p :: Contains(piece, p) <==> InBox(last, p) && InBox(b, p) by {
        forall p ensures Contains(piece, p) <==> InBox(last, p) && InBox(b, p) {
          if InBox(last, p) && InBox(b, p) {
            assert InBox(piece[0], p);
          }
        }
      }
      assert forall p :: Contains(front + piece, p) <==> Contains(front, p) || Contains(piece, p) by {
        forall p { ContainsAppend(front, piece, p); }
      }
      front + piece
  }

  /** RegionIntersect: the pixels in both regions. */
  function Intersect(a: seq<Box>, b: seq<Box>): (r: seq<Box>)
    ensures WellFormed(r)
    ensures forall p :: Contains(r, p) <==> Contains(a, p) && Contains(b, p)
  {
    if b == [] then []
    else
      var front := Intersect(a, b[..|b| - 1]);
      var last := b[|b| - 1];
      var piece := ClipToBox(a, last);
      assert forall p :: Contains(b, p) <==> Contains(b[..|b| - 1], p) || InBox(last, p) by {
        assert b == b[..|b| - 1] + [last];
        forall p { ContainsAppend(b[..|b| - 1], [last], p); }
      }
      assert forall p :: Contains(front + piece, p) <==> Contains(front, p) || Contains(piece, p) by {
        forall p { ContainsAppend(front, piece, p); }
      }
      front + piece
  }

  /** The box an xRectangle covers. */
  function RectBox(r: Rect): Box {
    Box(r.x, r.y, r.x + r.width, r.y + r.height)
  }

  /** RegionFromRects: the region covering the given rectangles. */
  function FromRects(rects: seq<Rect>): (r: seq<Box>)
    ensures forall p :: Contains(r, p) <==> exists k | 0 <= k < |rects| :: InBox(RectBox(rects[k]), p)
  {
    var r := seq(|rects|, k requires 0 <= k < |rects| => RectBox(rects[k]));
    assert forall p :: Contains(r, p) ==> exists k | 0 <= k < |rects| :: InBox(RectBox(rects[k]), p) by {
      forall p | Contains(r, p) ensures exists k | 0 <= k < |rects| :: InBox(RectBox(rects[k]), p) {
        var k :| 0 <= k < |r| && InBox(r[k], p);
        assert InBox(RectBox(rects[k]), p);
      }
    }
    assert forall p :: (exists k | 0 <= k < |rects| :: InBox(RectBox(rects[k]), p)) ==> Contains(r, p) by {
      forall p | exists k | 0 <= k < |rects| :: InBox(RectBox(rects[k]), p) ensures Contains(r, p) {
        var k :| 0 <= k < |rects| && InBox(RectBox(rects[k]), p);
        assert InBox(r[k], p);
      }
    }
    r
  }
}
