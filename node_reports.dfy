/**
 * The three traversals every node implements: print, collisions and
 * intersect (BintreeNode.java). The StringBuilder output is modelled as a
 * sequence of structured lines, each with its indentation level (two spaces
 * per level) and the values the line shows.
 */
module NodeReports {
  import opened Boxes
  import opened AirObjects
  import opened NameOrder
  import opened BintreeNodes
  import opened TreeContents

  datatype Item =
    | EmptyHeader(region: Box, depth: nat)             // E (x, y, z, xw, yw, zw) depth
    | InternalHeader(region: Box, depth: nat)          // I (x, y, z, xw, yw, zw) depth
    | LeafHeader(count: nat, region: Box, depth: nat)  // Leaf with n objects (x, y, z, xw, yw, zw) depth
    | Listed(obj: AirObject)                           // (object text)
    | Match(obj: AirObject)                            // object text
    | Collision(first: AirObject, second: AirObject)   // (first text) and (second text)
    | LeafVisit(region: Box, depth: nat)               // In leaf node (x, y, z, xw, yw, zw) depth
    | InternalVisit(region: Box, depth: nat)           // In Internal node (x, y, z, xw, yw, zw) depth

  datatype Line = Line(indent: nat, item: Item)

  /** The output of a traversal together with the count it returns. */
  datatype Report = Report(lines: seq<Line>, count: nat)

  /** The number of nodes in the tree rooted at n. */
  function NodeCount(n: Node): nat {
    match n
    case Internal(left, right) => 1 + NodeCount(left) + NodeCount(right)
    case _ => 1
  }

  predicate IsNodeHeader(item: Item) {
    item.EmptyHeader? || item.InternalHeader? || item.LeafHeader?
  }

  function HeaderCount(lines: seq<Line>): nat {
    if lines == [] then 0
    else (if IsNodeHeader(lines[0].item) then 1 else 0) + HeaderCount(lines[1..])
  }

  lemma {:induction false} HeaderCountAppend(a: seq<Line>, b: seq<Line>)
    ensures HeaderCount(a + b) == HeaderCount(a) + HeaderCount(b)
  {
    if a == [] {
      assert a + b == b;
    } else {
      assert (a + b)[0] == a[0] && (a + b)[1..] == a[1..] + b;
      HeaderCountAppend(a[1..], b);
    }
  }

  function ListedLines(s: seq<AirObject>, indent: nat): (lines: seq<Line>)
    ensures |lines| == |s| && forall i :: 0 <= i < |s| ==> lines[i] == Line(indent, Listed(s[i]))
  {
    if s == [] then [] else [Line(indent, Listed(s[0]))] + ListedLines(s[1..], indent)
  }

  function MatchLines(s: seq<AirObject>, indent: nat): (lines: seq<Line>)
    ensures |lines| == |s| && forall i :: 0 <= i < |s| ==> lines[i] == Line(indent, Match(s[i]))
  {
    if s == [] then [] else [Line(indent, Match(s[0]))] + MatchLines(s[1..], indent)
  }

  lemma ObjectLinesHaveNoHeader(s: seq<AirObject>, indent: nat)
    ensures HeaderCount(ListedLines(s, indent)) == 0 && HeaderCount(MatchLines(s, indent)) == 0
  {
    if s != [] {
      ObjectLinesHaveNoHeader(s[1..], indent);
    }
  }

  // ---------------------------------------------------------------------
  // print
  // ---------------------------------------------------------------------

  /**
   * BintreeNode.print. EmptyNode: one E line. LeafNode: a header, then its
   * objects sorted by name at the header's indentation. DataNode: the same
   * header, then its objects in list order one level deeper. InternalNode: an
   * I line, then the left and the right subtree. Each returns the nodes printed.
   */
  function Print(n: Node, r: Box, depth: nat): Report {
    match n
    case Empty => Report([Line(depth, EmptyHeader(r, depth))], 1)
    case Leaf(data) =>
      Report([Line(depth, LeafHeader(|data|, r, depth))] + ListedLines(SortByName(data), depth), 1)
    case Data(objects) =>
      Report([Line(depth, LeafHeader(|objects|, r, depth))] + ListedLines(objects, depth + 1), 1)
    case Internal(left, right) =>
      var lp := Print(left, LeftRegion(r, depth), depth + 1);
      var rp := Print(right, RightRegion(r, depth), depth + 1);
      Report([Line(depth, InternalHeader(r, depth))] + lp.lines + rp.lines, 1 + lp.count + rp.count)
  }

  /** The count print returns is the number of nodes in the tree and the number of node lines it emits. */
  lemma {:induction false} PrintCountsNodes(n: Node, r: Box, depth: nat)
    ensures Print(n, r, depth).count == NodeCount(n)
    ensures HeaderCount(Print(n, r, depth).lines) == NodeCount(n)
  {
    var p := Print(n, r, depth);
    match n
    case Empty =>
      assert HeaderCount(p.lines) == 1 + HeaderCount([]);
    case Leaf(data) =>
      var h := [Line(depth, LeafHeader(|data|, r, depth))];
      HeaderCountAppend(h, ListedLines(SortByName(data), depth));
      ObjectLinesHaveNoHeader(SortByName(data), depth);
      assert HeaderCount(h) == 1 + HeaderCount([]);
    case Data(objects) =>
      var h := [Line(depth, LeafHeader(|objects|, r, depth))];
      HeaderCountAppend(h, ListedLines(objects, depth + 1));
      ObjectLinesHaveNoHeader(objects, depth + 1);
      assert HeaderCount(h) == 1 + HeaderCount([]);
    case Internal(left, right) =>
      var lp := Print(left, LeftRegion(r, depth), depth + 1);
      var rp := Print(right, RightRegion(r, depth), depth + 1);
      PrintCountsNodes(left, LeftRegion(r, depth), depth + 1);
      PrintCountsNodes(right, RightRegion(r, depth), depth + 1);
      var h := [Line(depth, InternalHeader(r, depth))];
      HeaderCountAppend(h, lp.lines);
      HeaderCountAppend(h + lp.lines, rp.lines);
      assert HeaderCount(h) == 1 + HeaderCount([]);
  }

  /** A leaf prints its header and then every object it holds, once, in ascending name order. */
  lemma LeafPrintSorted(data: seq<AirObject>, r: Box, depth: nat)
    ensures var lines := Print(Leaf(data), r, depth).lines;
      |lines| == |data| + 1 && lines[0] == Line(depth, LeafHeader(|data|, r, depth)) &&
      SortedByName(ObjectsOf(lines[1..])) && multiset(ObjectsOf(lines[1..])) == multiset(data)
  {
    var lines := Print(Leaf(data), r, depth).lines;
    var sorted := SortByName(data);
    assert |sorted| == |multiset(sorted)| == |multiset(data)| == |data|;
    assert lines[1..] == ListedLines(sorted, depth);
    ObjectsOfListed(sorted, depth);
  }

  /** The objects shown on Listed, Match and Collision lines, in order. */
  function ObjectsOf(lines: seq<Line>): seq<AirObject> {
    if lines == [] then []
    else
      var rest := ObjectsOf(lines[1..]);
      match lines[0].item
      case Listed(o) => [o] + rest
      case Match(o) => [o] + rest
      case Collision(a, b) => [a, b] + rest
      case _ => rest
  }

  lemma {:induction false} ObjectsOfListed(s: seq<AirObject>, indent: nat)
    ensures ObjectsOf(ListedLines(s, indent)) == s && ObjectsOf(MatchLines(s, indent)) == s
  {
    if s != [] {
      ObjectsOfListed(s[1..], indent);
      assert ListedLines(s, indent)[1..] == ListedLines(s[1..], indent);
      assert MatchLines(s, indent)[1..] == MatchLines(s[1..], indent);
    }
  }

  lemma {:induction false} ObjectsOfAppend(a: seq<Line>, b: seq<Line>)
    ensures ObjectsOf(a + b) == ObjectsOf(a) + ObjectsOf(b)
  {
    if a == [] {
      assert a + b == b;
    } else {
      assert (a + b)[0] == a[0] && (a + b)[1..] == a[1..] + b;
      ObjectsOfAppend(a[1..], b);
    }
  }

  // ---------------------------------------------------------------------
  // collisions
  // ---------------------------------------------------------------------

  /** The pair in the order LeafNode prints it: the smaller name first. */
  function Ordered(a: AirObject, b: AirObject): Item {
    if a.CompareTo(b) <= 0 then Collision(a, b) else Collision(b, a)
  }

  /**
   * LeafNode's inner collision loop for the object at i: a later object j is
   * reported when the two intersect and the corner where their overlap starts
   * lies in this leaf's region.
   */
  function LeafPairsWith(s: seq<AirObject>, i: nat, j: nat, r: Box): seq<Line>
    requires i < |s|
    decreases |s| - j
  {
    if j >= |s| then []
    else
      (if s[i].IntersectsObject(s[j]) && r.Contains(LowCorner(s[i].Bounds(), s[j].Bounds()))
       then [Line(0, Ordered(s[i], s[j]))] else [])
      + LeafPairsWith(s, i, j + 1, r)
  }

  /** LeafNode's outer collision loop, from index i on. */
  function LeafPairsFrom(s: seq<AirObject>, i: nat, r: Box): seq<Line>
    decreases |s| - i
  {
    if i >= |s| then [] else LeafPairsWith(s, i, i + 1, r) + LeafPairsFrom(s, i + 1, r)
  }

  /** DataNode's collision loops: every intersecting pair i < j, in list order, with no region test. */
  function DataPairsWith(s: seq<AirObject>, i: nat, j: nat, indent: nat): seq<Line>
    requires i < |s|
    decreases |s| - j
  {
    if j >= |s| then []
    else
      (if s[i].IntersectsObject(s[j]) then [Line(indent, Collision(s[i], s[j]))] else [])
      + DataPairsWith(s, i, j + 1, indent)
  }

  function DataPairsFrom(s: seq<AirObject>, i: nat, indent: nat): seq<Line>
    decreases |s| - i
  {
    if i >= |s| then [] else DataPairsWith(s, i, i + 1, indent) + DataPairsFrom(s, i + 1, indent)
  }

  /**
   * BintreeNode.collisions. EmptyNode emits nothing; an internal node emits
   * nothing itself and recurses into both children; a leaf emits its header
   * and the pairs it is responsible for.
   */
  function Collisions(n: Node, r: Box, depth: nat): seq<Line> {
    match n
    case Empty => []
    case Leaf(data) => [Line(0, LeafVisit(r, depth))] + LeafPairsFrom(data, 0, r)
    case Data(objects) => [Line(depth, LeafVisit(r, depth))] + DataPairsFrom(objects, 0, depth + 1)
    case Internal(left, right) =>
      Collisions(left, LeftRegion(r, depth), depth + 1) + Collisions(right, RightRegion(r, depth), depth + 1)
  }

  // ---------------------------------------------------------------------
  // intersect
  // ---------------------------------------------------------------------

  /**
   * Which leaf reports an object the query meets. LeafNode.intersect reports it
   * in the leaf whose region holds the object's origin; the corrected rule uses
   * the corner where the object's overlap with the query begins.
   */
  datatype Anchor = AtOrigin | AtOverlapStart

  function AnchorPoint(o: AirObject, q: Box, anchor: Anchor): Point {
    match anchor
    case AtOrigin => o.Origin()
    case AtOverlapStart => LowCorner(o.Bounds(), q)
  }

  /** The objects a leaf reports: those meeting the query whose anchor point lies in the leaf's region. */
  function LeafMatches(s: seq<AirObject>, q: Box, r: Box, anchor: Anchor): (m: seq<AirObject>)
    ensures forall o :: o in m <==> o in s && o.Intersects(q) && r.Contains(AnchorPoint(o, q, anchor))
    ensures |m| <= |s|
  {
    if s == [] then []
    else
      (if s[0].Intersects(q) && r.Contains(AnchorPoint(s[0], q, anchor)) then [s[0]] else [])
      + LeafMatches(s[1..], q, r, anchor)
  }

  /** The objects a DataNode reports: all those meeting the query, in list order. */
  function DataMatches(s: seq<AirObject>, q: Box): (m: seq<AirObject>)
    ensures forall o :: o in m <==> o in s && o.Intersects(q)
  {
    if s == [] then []
    else (if s[0].Intersects(q) then [s[0]] else []) + DataMatches(s[1..], q)
  }

  /**
   * BintreeNode.intersect for query q. An internal node emits its header and
   * visits only the children whose region overlaps q; a leaf emits its header
   * and its matches; EmptyNode emits nothing. The count is the nodes visited.
   */
  function Intersect(n: Node, q: Box, r: Box, depth: nat, anchor: Anchor): Report {
    match n
    case Empty => Report([], 1)
    case Leaf(data) =>
      Report([Line(0, LeafVisit(r, depth))] + MatchLines(SortByName(LeafMatches(data, q, r, anchor)), 0), 1)
    case Data(objects) =>
      Report([Line(depth, LeafVisit(r, depth))] + MatchLines(DataMatches(objects, q), depth + 1), 1)
    case Internal(left, right) =>
      var lr, rr := LeftRegion(r, depth), RightRegion(r, depth);
      var lq := if BoxesOverlap(q, lr) then Intersect(left, q, lr, depth + 1, anchor) else Report([], 0);
      var rq := if BoxesOverlap(q, rr) then Intersect(right, q, rr, depth + 1, anchor) else Report([], 0);
      Report([Line(0, InternalVisit(r, depth))] + lq.lines + rq.lines, 1 + lq.count + rq.count)
  }

  /** Every visit is to a node of the tree, and the node the call starts at is always visited. */
  lemma {:induction false} IntersectVisitsBounded(n: Node, q: Box, r: Box, depth: nat, anchor: Anchor)
    ensures 1 <= Intersect(n, q, r, depth, anchor).count <= NodeCount(n)
  {
    match n
    case Internal(left, right) =>
      IntersectVisitsBounded(left, q, LeftRegion(r, depth), depth + 1, anchor);
      IntersectVisitsBounded(right, q, RightRegion(r, depth), depth + 1, anchor);
    case _ =>
  }

  /** A query covering the region of a power-of-two world visits every node below it. */
  lemma {:induction false} IntersectVisitsAllWhenCovering(n: Node, q: Box, r: Box, depth: nat, anchor: Anchor)
    requires Dyadic(r, depth) && Sound(n, r, depth) && Covers(q, r)
    ensures Intersect(n, q, r, depth, anchor).count == NodeCount(n)
    decreases n
  {
    match n
    case Internal(left, right) =>
      var lr, rr := LeftRegion(r, depth), RightRegion(r, depth);
      DyadicSplit(r, depth);
      CoverChildren(q, r, depth);
      DyadicHasVolume(lr, depth + 1);
      DyadicHasVolume(rr, depth + 1);
      IntersectVisitsAllWhenCovering(left, q, lr, depth + 1, anchor);
      IntersectVisitsAllWhenCovering(right, q, rr, depth + 1, anchor);
    case _ =>
  }

  /** q reaches over the whole of r on every axis. */
  predicate Covers(q: Box, r: Box) {
    q.x <= r.x && r.x + r.xw <= q.x + q.xw &&
    q.y <= r.y && r.y + r.yw <= q.y + q.yw &&
    q.z <= r.z && r.z + r.zw <= q.z + q.zw
  }

  /** A query covering a region covers both halves of it. */
  lemma CoverChildren(q: Box, r: Box, depth: nat)
    requires Covers(q, r) && r.IsRegion()
    ensures Covers(q, LeftRegion(r, depth)) && Covers(q, RightRegion(r, depth))
  {
  }

  lemma DyadicHasVolume(r: Box, depth: nat)
    requires Dyadic(r, depth)
    ensures r.HasVolume()
  {
    PowersOfTwoArePositive(r.xw);
    PowersOfTwoArePositive(r.yw);
    PowersOfTwoArePositive(r.zw);
  }

  /** Every object intersect reports meets the query and is held by a leaf of the tree. */
  lemma {:induction false} IntersectReportsSound(n: Node, q: Box, r: Box, depth: nat, anchor: Anchor)
    ensures forall o :: o in ObjectsOf(Intersect(n, q, r, depth, anchor).lines) ==> o.Intersects(q) && o in Stored(n)
    decreases n
  {
    match n
    case Empty =>
    case Leaf(data) =>
      var m := LeafMatches(data, q, r, anchor);
      LeafIntersectObjects(data, q, r, depth, anchor);
      forall o | o in SortByName(m) ensures o in m {
        assert o in multiset(SortByName(m));
      }
    case Data(objects) =>
      DataIntersectObjects(objects, q, r, depth, anchor);
    case Internal(left, right) =>
      var lr, rr := LeftRegion(r, depth), RightRegion(r, depth);
      IntersectReportsSound(left, q, lr, depth + 1, anchor);
      IntersectReportsSound(right, q, rr, depth + 1, anchor);
      InternalIntersectObjects(left, right, q, r, depth, anchor);
  }

  lemma LeafIntersectObjects(data: seq<AirObject>, q: Box, r: Box, depth: nat, anchor: Anchor)
    ensures ObjectsOf(Intersect(Leaf(data), q, r, depth, anchor).lines) == SortByName(LeafMatches(data, q, r, anchor))
  {
    var m := SortByName(LeafMatches(data, q, r, anchor));
    ObjectsOfAppend([Line(0, LeafVisit(r, depth))], MatchLines(m, 0));
    ObjectsOfListed(m, 0);
  }

  lemma DataIntersectObjects(objects: seq<AirObject>, q: Box, r: Box, depth: nat, anchor: Anchor)
    ensures ObjectsOf(Intersect(Data(objects), q, r, depth, anchor).lines) == DataMatches(objects, q)
  {
    var m := DataMatches(objects, q);
    ObjectsOfAppend([Line(depth, LeafVisit(r, depth))], MatchLines(m, depth + 1));
    ObjectsOfListed(m, depth + 1);
  }

  /** An internal node's reported objects are those of the children it visits, left first. */
  lemma InternalIntersectObjects(left: Node, right: Node, q: Box, r: Box, depth: nat, anchor: Anchor)
    ensures
      var lr, rr := LeftRegion(r, depth), RightRegion(r, depth);
      ObjectsOf(Intersect(Internal(left, right), q, r, depth, anchor).lines) ==
        (if BoxesOverlap(q, lr) then ObjectsOf(Intersect(left, q, lr, depth + 1, anchor).lines) else []) +
        (if BoxesOverlap(q, rr) then ObjectsOf(Intersect(right, q, rr, depth + 1, anchor).lines) else [])
  {
    var lr, rr := LeftRegion(r, depth), RightRegion(r, depth);
    var lq := if BoxesOverlap(q, lr) then Intersect(left, q, lr, depth + 1, anchor) else Report([], 0);
    var rq := if BoxesOverlap(q, rr) then Intersect(right, q, rr, depth + 1, anchor) else Report([], 0);
    var h := Line(0, InternalVisit(r, depth));
    assert Intersect(Internal(left, right), q, r, depth, anchor).lines == [h] + lq.lines + rq.lines;
    HeaderThenObjects(h, lq.lines, rq.lines);
  }

  /** A line that names no object, followed by two runs of lines, names the objects of the two runs. */
  lemma HeaderThenObjects(h: Line, a: seq<Line>, b: seq<Line>)
    requires !h.item.Listed? && !h.item.Match? && !h.item.Collision?
    ensures ObjectsOf([h] + a + b) == ObjectsOf(a) + ObjectsOf(b)
  {
    assert [h][1..] == [];
    ObjectsOfAppend([h], a);
    ObjectsOfAppend([h] + a, b);
  }
}
