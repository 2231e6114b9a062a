/**
 * Integer points and half-open axis-aligned boxes; the regions of the bintree,
 * split on the axis depth % 3 into two halves of width wid / 2 each
 * (InternalNode.java), and the box-overlap test InternalNode.boxesOverlap.
 */
module Boxes {

  datatype Point = Point(x: int, y: int, z: int)

  /** The box [x, x+xw) × [y, y+yw) × [z, z+zw). */
  datatype Box = Box(x: int, y: int, z: int, xw: int, yw: int, zw: int)
  {
    /** Half-open containment: a face at origin + width belongs to the next box. */
    predicate Contains(p: Point) {
      x <= p.x < x + xw && y <= p.y < y + yw && z <= p.z < z + zw
    }

    function Origin(): Point {
      Point(x, y, z)
    }

    /** Every width positive, so the box holds at least one point. */
    predicate HasVolume() {
      xw > 0 && yw > 0 && zw > 0
    }

    /** A region of the tree: all widths non-negative. */
    predicate IsRegion() {
      xw >= 0 && yw >= 0 && zw >= 0
    }

    function Width(axis: nat): int
      requires axis < 3
    {
      if axis == 0 then xw else if axis == 1 then yw else zw
    }
  }

  /** InternalNode.boxesOverlap: strict overlap on every axis, so touching faces do not overlap. */
  predicate BoxesOverlap(a: Box, b: Box) {
    a.x < b.x + b.xw && a.x + a.xw > b.x &&
    a.y < b.y + b.yw && a.y + a.yw > b.y &&
    a.z < b.z + b.zw && a.z + a.zw > b.z
  }

  /** The corner where the overlap of two boxes begins: the larger low bound on each axis. */
  function LowCorner(a: Box, b: Box): (p: Point)
    ensures a.HasVolume() && b.HasVolume() && BoxesOverlap(a, b) ==> a.Contains(p) && b.Contains(p)
  {
    Point(if a.x < b.x then b.x else a.x,
          if a.y < b.y then b.y else a.y,
          if a.z < b.z then b.z else a.z)
  }

  lemma BoxesOverlapSymmetric(a: Box, b: Box)
    ensures BoxesOverlap(a, b) == BoxesOverlap(b, a)
  {
  }

  /**
   * Two boxes with volume overlap exactly when some point lies in both. (A box of
   * width 0 holds no point, yet overlaps any box that strictly straddles its plane.)
   */
  lemma BoxesOverlapIffCommonPoint(a: Box, b: Box)
    requires a.HasVolume() && b.HasVolume()
    ensures BoxesOverlap(a, b) <==> exists p: Point :: a.Contains(p) && b.Contains(p)
  {
    if BoxesOverlap(a, b) {
      var p := LowCorner(a, b);
      assert a.Contains(p) && b.Contains(p);
    }
  }

  /** Boxes that only share a face on some axis do not overlap. */
  lemma TouchingBoxesDoNotOverlap(a: Box, b: Box)
    requires a.x + a.xw == b.x || a.y + a.yw == b.y || a.z + a.zw == b.z
    ensures !BoxesOverlap(a, b) && !BoxesOverlap(b, a)
  {
  }

  // ---------------------------------------------------------------------
  // Regions and the split on axis depth % 3
  // ---------------------------------------------------------------------

  /** The world region (0, 0, 0, W, W, W) at which Bintree starts every call. */
  function World(worldSize: nat): Box {
    Box(0, 0, 0, worldSize, worldSize, worldSize)
  }

  /**
   * The left child region: same origin, width wid / 2 on the split axis.
   * Widths of regions are never negative, so Java's truncating division and
   * Dafny's agree here.
   */
  function LeftRegion(r: Box, depth: nat): Box {
    var axis := depth % 3;
    if axis == 0 then r.(xw := r.xw / 2)
    else if axis == 1 then r.(yw := r.yw / 2)
    else r.(zw := r.zw / 2)
  }

  /** The right child region: origin moved by wid / 2 on the split axis, width wid / 2 as well. */
  function RightRegion(r: Box, depth: nat): Box {
    var axis := depth % 3;
    if axis == 0 then r.(x := r.x + r.xw / 2, xw := r.xw / 2)
    else if axis == 1 then r.(y := r.y + r.yw / 2, yw := r.yw / 2)
    else r.(z := r.z + r.zw / 2, zw := r.zw / 2)
  }

  /** Both children lie inside the parent region. */
  lemma ChildRegionsInside(r: Box, depth: nat, p: Point)
    requires r.IsRegion()
    ensures LeftRegion(r, depth).IsRegion() && RightRegion(r, depth).IsRegion()
    ensures LeftRegion(r, depth).Contains(p) ==> r.Contains(p)
    ensures RightRegion(r, depth).Contains(p) ==> r.Contains(p)
  {
  }

  /** With an even width on the split axis the children partition the parent: each point is in exactly one. */
  lemma EvenSplitPartitions(r: Box, depth: nat, p: Point)
    requires r.IsRegion() && r.Width(depth % 3) % 2 == 0
    ensures r.Contains(p) <==> LeftRegion(r, depth).Contains(p) || RightRegion(r, depth).Contains(p)
    ensures !(LeftRegion(r, depth).Contains(p) && RightRegion(r, depth).Contains(p))
  {
  }

  /** With an odd width the last unit slice of the split axis belongs to neither child. */
  lemma OddSplitLeavesGap(r: Box, depth: nat)
    requires r.IsRegion() && r.xw > 0 && r.yw > 0 && r.zw > 0
    requires r.Width(depth % 3) % 2 == 1
    ensures var axis := depth % 3;
      var p := Point(if axis == 0 then r.x + r.xw - 1 else r.x,
                     if axis == 1 then r.y + r.yw - 1 else r.y,
                     if axis == 2 then r.z + r.zw - 1 else r.z);
      r.Contains(p) && !LeftRegion(r, depth).Contains(p) && !RightRegion(r, depth).Contains(p)
  {
  }

  // ---------------------------------------------------------------------
  // Termination measure for recursive insertion
  // ---------------------------------------------------------------------

  function Size(r: Box): nat
    requires r.IsRegion()
  {
    r.xw + r.yw + r.zw
  }

  /** How many axes, starting at the split axis of this depth, have width 0 before one is positive. */
  function ZeroRun(r: Box, depth: nat): nat {
    if r.Width(depth % 3) > 0 then 0
    else if r.Width((depth + 1) % 3) > 0 then 1
    else 2
  }

  /** Decreases on every descent into a child of a region with some width of at least 2. */
  function Measure(r: Box, depth: nat): nat
    requires r.IsRegion()
  {
    3 * Size(r) + ZeroRun(r, depth)
  }

  /** A region some axis of which is at least 2 wide; only such regions can hold an internal node. */
  predicate Splittable(r: Box) {
    r.xw >= 2 || r.yw >= 2 || r.zw >= 2
  }

  lemma ChildMeasureDecreases(r: Box, depth: nat)
    requires r.IsRegion() && Size(r) > 0
    ensures LeftRegion(r, depth).IsRegion() && RightRegion(r, depth).IsRegion()
    ensures Measure(LeftRegion(r, depth), depth + 1) < Measure(r, depth)
    ensures Measure(RightRegion(r, depth), depth + 1) < Measure(r, depth)
  {
    var a := depth % 3;
    assert (depth + 1) % 3 == (a + 1) % 3 && (depth + 2) % 3 == (a + 2) % 3;
    assert (depth + 1 + 1) % 3 == (a + 2) % 3;
  }

  // ---------------------------------------------------------------------
  // Power-of-two worlds
  // ---------------------------------------------------------------------

  predicate IsPow2(w: int)
    decreases w
  {
    w == 1 || (w >= 2 && w % 2 == 0 && IsPow2(w / 2))
  }

  /**
   * The regions reached from a power-of-two cube by splitting in x, y, z order:
   * every width is a power of two, and, reading the axes from the split axis
   * onwards, the widths never grow and the first is at most twice the last.
   */
  predicate Dyadic(r: Box, depth: nat) {
    DyadicWidths(r.Width(depth % 3), r.Width((depth + 1) % 3), r.Width((depth + 2) % 3))
  }

  /** Widths p, q, s read from the split axis: powers of two with p >= q >= s >= p / 2. */
  predicate DyadicWidths(p: int, q: int, s: int) {
    IsPow2(p) && IsPow2(q) && IsPow2(s) && q <= p && s <= q && p <= 2 * s
  }

  lemma WorldIsDyadic(worldSize: nat)
    requires IsPow2(worldSize)
    ensures Dyadic(World(worldSize), 0)
  {
  }

  /**
   * In a dyadic region that can hold an internal node the split-axis width is even,
   * so the children partition it, and both children are dyadic at the next depth.
   */
  lemma DyadicSplit(r: Box, depth: nat)
    requires Dyadic(r, depth) && Splittable(r)
    ensures r.IsRegion() && r.Width(depth % 3) >= 2 && r.Width(depth % 3) % 2 == 0
    ensures Dyadic(LeftRegion(r, depth), depth + 1) && Dyadic(RightRegion(r, depth), depth + 1)
  {
    var a := depth % 3;
    if a == 0 {
      DyadicHalvesX(r, depth);
    } else if a == 1 {
      DyadicHalvesY(r, depth);
    } else {
      DyadicHalvesZ(r, depth);
    }
  }

  /** DyadicSplit when the split axis is x. */
  lemma DyadicHalvesX(r: Box, depth: nat)
    requires Dyadic(r, depth) && Splittable(r) && depth % 3 == 0
    ensures r.IsRegion() && r.xw >= 2 && r.xw % 2 == 0
    ensures Dyadic(LeftRegion(r, depth), depth + 1) && Dyadic(RightRegion(r, depth), depth + 1)
  {
    HalvedTriple(r.xw, r.yw, r.zw);
    assert (depth + 1) % 3 == 1 && (depth + 2) % 3 == 2 && (depth + 3) % 3 == 0;
  }

  /** DyadicSplit when the split axis is y. */
  lemma DyadicHalvesY(r: Box, depth: nat)
    requires Dyadic(r, depth) && Splittable(r) && depth % 3 == 1
    ensures r.IsRegion() && r.yw >= 2 && r.yw % 2 == 0
    ensures Dyadic(LeftRegion(r, depth), depth + 1) && Dyadic(RightRegion(r, depth), depth + 1)
  {
    HalvedTriple(r.yw, r.zw, r.xw);
    assert (depth + 1) % 3 == 2 && (depth + 2) % 3 == 0 && (depth + 3) % 3 == 1;
  }

  /** DyadicSplit when the split axis is z. */
  lemma DyadicHalvesZ(r: Box, depth: nat)
    requires Dyadic(r, depth) && Splittable(r) && depth % 3 == 2
    ensures r.IsRegion() && r.zw >= 2 && r.zw % 2 == 0
    ensures Dyadic(LeftRegion(r, depth), depth + 1) && Dyadic(RightRegion(r, depth), depth + 1)
  {
    HalvedTriple(r.zw, r.xw, r.yw);
    assert (depth + 1) % 3 == 0 && (depth + 2) % 3 == 1 && (depth + 3) % 3 == 2;
  }

  /**
   * The widths of a dyadic region read from its split axis, p >= q >= s >= p / 2:
   * when the region is splittable p is even, and halving p gives the widths
   * read from the next axis, q >= s >= p / 2 >= q / 2.
   */
  lemma HalvedTriple(p: int, q: int, s: int)
    requires DyadicWidths(p, q, s)
    ensures p >= 1 && q >= 1 && s >= 1
    ensures p >= 2 || q >= 2 || s >= 2 ==> p >= 2 && p % 2 == 0 && DyadicWidths(q, s, p / 2)
  {
    PowersOfTwoArePositive(p);
    PowersOfTwoArePositive(q);
    PowersOfTwoArePositive(s);
    if p >= 2 {
      HalfIsPow2(p);
    }
  }

  /** Halving a power of two of at least 2 gives a power of two. */
  lemma HalfIsPow2(w: int)
    requires IsPow2(w) && w >= 2
    ensures w % 2 == 0 && IsPow2(w / 2) && w / 2 >= 1
  {
    PowersOfTwoArePositive(w / 2);
  }

  /** A dyadic region that cannot hold an internal node is a unit cube. */
  lemma DyadicUnsplittableIsUnit(r: Box, depth: nat)
    requires Dyadic(r, depth) && !Splittable(r)
    ensures r.xw == 1 && r.yw == 1 && r.zw == 1
  {
    PowersOfTwoArePositive(r.xw);
    PowersOfTwoArePositive(r.yw);
    PowersOfTwoArePositive(r.zw);
  }

  lemma PowersOfTwoArePositive(w: int)
    requires IsPow2(w)
    ensures w >= 1
  {
  }
}
