/**
 * The split exception of a leaf: a leaf with more than three objects is kept
 * whole when all of its objects share a common box of positive volume.
 * LeafNode.allIntersect folds a running box given by origin and widths;
 * DataNode.checkAllIntersect folds the same box given by its two corners.
 */
module CommonBox {
  import opened Wrappers
  import opened Boxes
  import opened AirObjects

  /** p lies inside every object of s. */
  predicate InAll(s: seq<AirObject>, p: Point) {
    forall i :: 0 <= i < |s| ==> s[i].Bounds().Contains(p)
  }

  /**
   * One step of LeafNode.allIntersect: the overlap of the running box with o,
   * or None when some axis has low >= high (touching counts as empty).
   */
  function OverlapStep(run: Box, o: AirObject): Option<Box> {
    var maxX := if run.x < o.x then o.x else run.x;
    var maxY := if run.y < o.y then o.y else run.y;
    var maxZ := if run.z < o.z then o.z else run.z;
    var minX2 := if run.x + run.xw < o.x + o.xwid then run.x + run.xw else o.x + o.xwid;
    var minY2 := if run.y + run.yw < o.y + o.ywid then run.y + run.yw else o.y + o.ywid;
    var minZ2 := if run.z + run.zw < o.z + o.zwid then run.z + run.zw else o.z + o.zwid;
    if maxX >= minX2 || maxY >= minY2 || maxZ >= minZ2 then None
    else Some(Box(maxX, maxY, maxZ, minX2 - maxX, minY2 - maxY, minZ2 - maxZ))
  }

  /** The running box after folding OverlapStep over rest, in list order. */
  function OverlapFold(run: Box, rest: seq<AirObject>): Option<Box>
    decreases |rest|
  {
    if rest == [] then Some(run)
    else match OverlapStep(run, rest[0])
      case None => None
      case Some(next) => OverlapFold(next, rest[1..])
  }

  /** LeafNode.allIntersect: false on an empty list, else the fold from the first object succeeds. */
  predicate AllIntersect(s: seq<AirObject>) {
    |s| > 0 && OverlapFold(s[0].Bounds(), s[1..]).Some?
  }

  lemma OverlapStepMeaning(run: Box, o: AirObject)
    ensures OverlapStep(run, o).Some? ==> OverlapStep(run, o).value.HasVolume()
    ensures forall p: Point ::
      (OverlapStep(run, o).Some? && OverlapStep(run, o).value.Contains(p)) <==>
      (run.Contains(p) && o.Bounds().Contains(p))
  {
  }

  /**
   * The fold computes the common part of the running box and all of rest: a point
   * lies in the final box exactly when it lies in every box folded in.
   */
  lemma {:induction false} OverlapFoldMeaning(run: Box, rest: seq<AirObject>)
    ensures OverlapFold(run, rest).Some? && rest != [] ==> OverlapFold(run, rest).value.HasVolume()
    ensures forall p: Point ::
      (OverlapFold(run, rest).Some? && OverlapFold(run, rest).value.Contains(p)) <==>
      (run.Contains(p) && InAll(rest, p))
    decreases |rest|
  {
    if rest != [] {
      OverlapStepMeaning(run, rest[0]);
      match OverlapStep(run, rest[0])
      case None =>
      case Some(next) =>
        OverlapFoldMeaning(next, rest[1..]);
        forall p: Point ensures InAll(rest, p) <==> rest[0].Bounds().Contains(p) && InAll(rest[1..], p) {
          if rest[0].Bounds().Contains(p) && InAll(rest[1..], p) {
            forall i | 0 <= i < |rest| ensures rest[i].Bounds().Contains(p) {
              if i > 0 { assert rest[i] == rest[1..][i - 1]; }
            }
          }
        }
        if rest[1..] == [] {
          assert next.HasVolume();
        }
    }
  }

  /**
   * The split exception in geometric terms: a list of two or more objects passes
   * allIntersect exactly when some point lies inside all of them; a single object
   * always passes and an empty list never does.
   */
  lemma AllIntersectIffCommonPoint(s: seq<AirObject>)
    ensures |s| == 0 ==> !AllIntersect(s)
    ensures |s| == 1 ==> AllIntersect(s)
    ensures |s| >= 2 ==> (AllIntersect(s) <==> exists p: Point :: InAll(s, p))
  {
    if |s| >= 2 {
      OverlapFoldMeaning(s[0].Bounds(), s[1..]);
      forall p: Point ensures InAll(s, p) <==> s[0].Bounds().Contains(p) && InAll(s[1..], p) {
        if s[0].Bounds().Contains(p) && InAll(s[1..], p) {
          forall i | 0 <= i < |s| ensures s[i].Bounds().Contains(p) {
            if i > 0 { assert s[i] == s[1..][i - 1]; }
          }
        }
      }
      if AllIntersect(s) {
        var b := OverlapFold(s[0].Bounds(), s[1..]).value;
        assert b.Contains(b.Origin());
        assert InAll(s, b.Origin());
      }
    }
  }

  /** A non-empty list whose objects all contain one point is never split. */
  lemma CommonPointKeepsLeaf(s: seq<AirObject>, p: Point)
    requires |s| > 0 && InAll(s, p)
    ensures AllIntersect(s)
  {
    AllIntersectIffCommonPoint(s);
  }

  /** LeafNode.allIntersect as the loop the leaf runs over its list. */
  method AllIntersectScan(data: seq<AirObject>) returns (all: bool)
    ensures all == AllIntersect(data)
  {
    if |data| == 0 {
      return false;
    }
    var first := data[0];
    var ix, iy, iz := first.x, first.y, first.z;
    var ixw, iyw, izw := first.xwid, first.ywid, first.zwid;
    var i := 1;
    while i < |data|
      invariant 1 <= i <= |data|
      invariant OverlapFold(first.Bounds(), data[1..]) == OverlapFold(Box(ix, iy, iz, ixw, iyw, izw), data[i..])
    {
      var curr := data[i];
      assert data[i..] == [curr] + data[i + 1..];
      ghost var before := Box(ix, iy, iz, ixw, iyw, izw);
      var maxX := if ix < curr.x then curr.x else ix;
      var maxY := if iy < curr.y then curr.y else iy;
      var maxZ := if iz < curr.z then curr.z else iz;
      var minX2 := if ix + ixw < curr.x + curr.xwid then ix + ixw else curr.x + curr.xwid;
      var minY2 := if iy + iyw < curr.y + curr.ywid then iy + iyw else curr.y + curr.ywid;
      var minZ2 := if iz + izw < curr.z + curr.zwid then iz + izw else curr.z + curr.zwid;
      if maxX >= minX2 || maxY >= minY2 || maxZ >= minZ2 {
        assert OverlapStep(before, curr) == None;
        return false;
      }
      ix, iy, iz := maxX, maxY, maxZ;
      ixw, iyw, izw := minX2 - ix, minY2 - iy, minZ2 - iz;
      assert OverlapStep(before, curr) == Some(Box(ix, iy, iz, ixw, iyw, izw));
      i := i + 1;
    }
    return true;
  }

  /** The intersection box of DataNode.checkAllIntersect, kept as low and high corners. */
  datatype Corners = Corners(x1: int, y1: int, z1: int, x2: int, y2: int, z2: int)

  function CornersOf(o: AirObject): Corners {
    Corners(o.x, o.y, o.z, o.x + o.xwid, o.y + o.ywid, o.z + o.zwid)
  }

  /** One step of DataNode.checkAllIntersect: shrink to the overlap, then test it for emptiness. */
  function ShrinkStep(c: Corners, o: AirObject): (r: Option<Corners>) {
    var d := CornersOf(o);
    var n := Corners(if c.x1 < d.x1 then d.x1 else c.x1, if c.y1 < d.y1 then d.y1 else c.y1,
                     if c.z1 < d.z1 then d.z1 else c.z1, if c.x2 < d.x2 then c.x2 else d.x2,
                     if c.y2 < d.y2 then c.y2 else d.y2, if c.z2 < d.z2 then c.z2 else d.z2);
    if n.x1 >= n.x2 || n.y1 >= n.y2 || n.z1 >= n.z2 then None else Some(n)
  }

  function ShrinkFold(c: Corners, rest: seq<AirObject>): Option<Corners>
    decreases |rest|
  {
    if rest == [] then Some(c)
    else match ShrinkStep(c, rest[0])
      case None => None
      case Some(next) => ShrinkFold(next, rest[1..])
  }

  /** DataNode.checkAllIntersect: true for at most one object, else the corner fold succeeds. */
  predicate CheckAllIntersect(s: seq<AirObject>) {
    |s| <= 1 || ShrinkFold(CornersOf(s[0]), s[1..]).Some?
  }

  function BoxCorners(b: Box): Corners {
    Corners(b.x, b.y, b.z, b.x + b.xw, b.y + b.yw, b.z + b.zw)
  }

  /** The two folds run in lock step: origin-and-width and corner form describe one box. */
  lemma {:induction false} FoldsAgree(run: Box, rest: seq<AirObject>)
    ensures OverlapFold(run, rest).Some? == ShrinkFold(BoxCorners(run), rest).Some?
    decreases |rest|
  {
    if rest != [] {
      match OverlapStep(run, rest[0])
      case None =>
      case Some(next) =>
        assert ShrinkStep(BoxCorners(run), rest[0]) == Some(BoxCorners(next));
        FoldsAgree(next, rest[1..]);
    }
  }

  /** DataNode.checkAllIntersect and LeafNode.allIntersect agree on every non-empty list. */
  lemma CheckAllIntersectAgrees(s: seq<AirObject>)
    ensures |s| > 0 ==> CheckAllIntersect(s) == AllIntersect(s)
    ensures |s| == 0 ==> CheckAllIntersect(s) && !AllIntersect(s)
  {
    if |s| > 1 {
      assert BoxCorners(s[0].Bounds()) == CornersOf(s[0]);
      FoldsAgree(s[0].Bounds(), s[1..]);
    }
  }

  /** DataNode.checkAllIntersect as the loop the node runs over its list. */
  method CheckAllIntersectScan(objects: seq<AirObject>) returns (all: bool)
    ensures all == CheckAllIntersect(objects)
  {
    if |objects| <= 1 {
      return true;
    }
    var first := objects[0];
    var ix1, iy1, iz1 := first.x, first.y, first.z;
    var ix2, iy2, iz2 := ix1 + first.xwid, iy1 + first.ywid, iz1 + first.zwid;
    var i := 1;
    while i < |objects|
      invariant 1 <= i <= |objects|
      invariant ShrinkFold(CornersOf(first), objects[1..]) == ShrinkFold(Corners(ix1, iy1, iz1, ix2, iy2, iz2), objects[i..])
    {
      var current := objects[i];
      assert objects[i..] == [current] + objects[i + 1..];
      var cx1, cy1, cz1 := current.x, current.y, current.z;
      var cx2, cy2, cz2 := cx1 + current.xwid, cy1 + current.ywid, cz1 + current.zwid;
      ghost var before := Corners(ix1, iy1, iz1, ix2, iy2, iz2);
      ix1 := if ix1 < cx1 then cx1 else ix1;
      iy1 := if iy1 < cy1 then cy1 else iy1;
      iz1 := if iz1 < cz1 then cz1 else iz1;
      ix2 := if ix2 < cx2 then ix2 else cx2;
      iy2 := if iy2 < cy2 then iy2 else cy2;
      iz2 := if iz2 < cz2 then iz2 else cz2;
      ghost var after := Corners(ix1, iy1, iz1, ix2, iy2, iz2);
      if ix1 >= ix2 || iy1 >= iy2 || iz1 >= iz2 {
        assert ShrinkStep(before, current) == None;
        return false;
      }
      assert ShrinkStep(before, current) == Some(after);
      i := i + 1;
    }
    return true;
  }
}
