/**
 * How intersect avoids reporting an object once per leaf it spans. LeafNode
 * reports an object only in the leaf whose region contains the object's
 * origin, but InternalNode skips children whose region misses the query: an
 * object whose origin lies in a skipped child is then reported nowhere. The
 * corrected rule reports an object in the leaf containing the corner where
 * the object's overlap with the query begins; that point lies in the query,
 * so its leaf is never skipped, and every meeting object is reported once.
 */
module QueryDedup {
  import opened Wrappers
  import opened Boxes
  import opened AirObjects
  import opened NameOrder
  import opened BintreeNodes
  import opened TreeContents
  import opened NodeReports
  import opened CommonBox

  /** The objects of S meeting q whose anchor point lies in r: what the leaves under r may report. */
  ghost function Share(S: set<AirObject>, q: Box, r: Box, anchor: Anchor): set<AirObject> {
    set o | o in S && o.Intersects(q) && r.Contains(AnchorPoint(o, q, anchor))
  }

  /** The multiset of objects an intersect report shows. */
  function Shown(rep: Report): multiset<AirObject> {
    multiset(ObjectsOf(rep.lines))
  }

  // ---------------------------------------------------------------------
  // Multiset facts
  // ---------------------------------------------------------------------

  /** A sequence without repeats counts each of its elements once. */
  lemma {:induction false} DistinctMultiset<T>(s: seq<T>)
    requires Distinct(s)
    ensures multiset(s) == multiset(set x | x in s)
  {
    if s == [] {
      assert (set x | x in s) == {};
    } else {
      var t := s[1..];
      assert s == [s[0]] + t;
      assert multiset(s) == multiset{s[0]} + multiset(t);
      DistinctTail(s);
      DistinctMultiset(t);
      var rest := set x | x in t;
      assert (set x | x in s) == {s[0]} + rest;
      DisjointUnionMultiset({s[0]}, rest);
      assert multiset({s[0]}) == multiset{s[0]};
    }
  }

  /** The multiset of a union of disjoint sets is the sum of their multisets. */
  lemma DisjointUnionMultiset<T>(A: set<T>, B: set<T>)
    requires A !! B
    ensures multiset(A + B) == multiset(A) + multiset(B)
  {
    forall x ensures multiset(A + B)[x] == (multiset(A) + multiset(B))[x] {
      if x in A { assert x !in B; }
    }
  }

  lemma SubsetMultiset(A: set<AirObject>, B: set<AirObject>)
    requires A <= B
    ensures multiset(A) <= multiset(B)
  {
  }

  lemma {:induction false} LeafMatchesDistinct(s: seq<AirObject>, q: Box, r: Box, anchor: Anchor)
    requires Distinct(s)
    ensures Distinct(LeafMatches(s, q, r, anchor))
  {
    if s != [] {
      var t := s[1..];
      assert Distinct(t) by {
        forall i, j | 0 <= i < j < |t| ensures t[i] != t[j] {
          assert t[i] == s[i + 1] && t[j] == s[j + 1];
        }
      }
      LeafMatchesDistinct(t, q, r, anchor);
      assert s[0] !in t;
      var m := LeafMatches(s, q, r, anchor);
      var rest := LeafMatches(t, q, r, anchor);
      if s[0].Intersects(q) && r.Contains(AnchorPoint(s[0], q, anchor)) {
        assert m == [s[0]] + rest;
        forall i, j | 0 <= i < j < |m| ensures m[i] != m[j] {
          assert m[j] == rest[j - 1];
          if i > 0 { assert m[i] == rest[i - 1]; }
        }
      }
    }
  }

  // ---------------------------------------------------------------------
  // Either rule: each object at most once, and only from its anchor's leaf
  // ---------------------------------------------------------------------

  /**
   * Under either rule, intersect shows each object at most once, and only
   * objects of S that meet the query and whose anchor point lies in the region.
   */
  lemma {:induction false} IntersectAtMostOnce(n: Node, q: Box, r: Box, depth: nat, S: set<AirObject>, anchor: Anchor)
    requires r.IsRegion() && Dyadic(r, depth) && Sound(n, r, depth) && Exact(n, r, depth, S)
    requires NoDataNodes(n)
    ensures Shown(Intersect(n, q, r, depth, anchor)) <= multiset(Share(S, q, r, anchor))
    decreases n
  {
    match n
    case Empty =>
    case Leaf(data) =>
      LeafAtMostOnce(data, q, r, depth, S, anchor);
    case Data(objects) =>
      assert false;
    case Internal(left, right) =>
      var lr, rr := LeftRegion(r, depth), RightRegion(r, depth);
      ExactChildren(left, right, r, depth, S);
      IntersectAtMostOnce(left, q, lr, depth + 1, S, anchor);
      IntersectAtMostOnce(right, q, rr, depth + 1, S, anchor);
      InternalAtMostOnce(left, right, q, r, depth, S, anchor);
  }

  /** The leaf case of IntersectAtMostOnce: a leaf's matches are distinct objects of the share. */
  lemma LeafAtMostOnce(data: seq<AirObject>, q: Box, r: Box, depth: nat, S: set<AirObject>, anchor: Anchor)
    requires ListExact(data, r, S)
    ensures Shown(Intersect(Leaf(data), q, r, depth, anchor)) <= multiset(Share(S, q, r, anchor))
  {
    var m := LeafMatches(data, q, r, anchor);
    LeafIntersectObjects(data, q, r, depth, anchor);
    LeafMatchesDistinct(data, q, r, anchor);
    DistinctMultiset(m);
    SubsetMultiset((set o | o in m), Share(S, q, r, anchor));
  }

  /** The internal case of IntersectAtMostOnce: children within their shares keep the parent within its share. */
  lemma InternalAtMostOnce(left: Node, right: Node, q: Box, r: Box, depth: nat, S: set<AirObject>, anchor: Anchor)
    requires r.IsRegion() && r.Width(depth % 3) % 2 == 0
    requires var lr := LeftRegion(r, depth);
      Shown(Intersect(left, q, lr, depth + 1, anchor)) <= multiset(Share(S, q, lr, anchor))
    requires var rr := RightRegion(r, depth);
      Shown(Intersect(right, q, rr, depth + 1, anchor)) <= multiset(Share(S, q, rr, anchor))
    ensures Shown(Intersect(Internal(left, right), q, r, depth, anchor)) <= multiset(Share(S, q, r, anchor))
  {
    var lr, rr := LeftRegion(r, depth), RightRegion(r, depth);
    var a := if BoxesOverlap(q, lr) then ObjectsOf(Intersect(left, q, lr, depth + 1, anchor).lines) else [];
    var b := if BoxesOverlap(q, rr) then ObjectsOf(Intersect(right, q, rr, depth + 1, anchor).lines) else [];
    InternalIntersectObjects(left, right, q, r, depth, anchor);
    assert multiset(a + b) == multiset(a) + multiset(b);
    SplitShares(S, q, r, depth, anchor);
  }

  /** Under an even split, the shares of the two children are disjoint and make up the parent's share. */
  lemma SplitShares(S: set<AirObject>, q: Box, r: Box, depth: nat, anchor: Anchor)
    requires r.IsRegion() && r.Width(depth % 3) % 2 == 0
    ensures var lr, rr := LeftRegion(r, depth), RightRegion(r, depth);
      Share(S, q, lr, anchor) !! Share(S, q, rr, anchor) &&
      Share(S, q, r, anchor) == Share(S, q, lr, anchor) + Share(S, q, rr, anchor) &&
      multiset(Share(S, q, r, anchor)) == multiset(Share(S, q, lr, anchor)) + multiset(Share(S, q, rr, anchor))
  {
    var lr, rr := LeftRegion(r, depth), RightRegion(r, depth);
    forall o | o in S ensures
      (r.Contains(AnchorPoint(o, q, anchor)) <==> lr.Contains(AnchorPoint(o, q, anchor)) || rr.Contains(AnchorPoint(o, q, anchor))) &&
      !(lr.Contains(AnchorPoint(o, q, anchor)) && rr.Contains(AnchorPoint(o, q, anchor)))
    {
      EvenSplitPartitions(r, depth, AnchorPoint(o, q, anchor));
    }
    DisjointUnionMultiset(Share(S, q, lr, anchor), Share(S, q, rr, anchor));
  }

  // ---------------------------------------------------------------------
  // The corrected rule: every meeting object exactly once
  // ---------------------------------------------------------------------

  /** An object whose overlap with q begins inside a region with volume meets that region. */
  lemma OverlapStartInRegionMeets(o: AirObject, q: Box, r: Box)
    requires o.Bounds().HasVolume() && q.HasVolume() && r.HasVolume()
    requires o.Intersects(q) && r.Contains(LowCorner(o.Bounds(), q))
    ensures o.Intersects(r)
  {
    IntersectsIsBoxesOverlap(o, q);
    var p := LowCorner(o.Bounds(), q);
    assert o.Bounds().Contains(p);
    IntersectsIffCommonPoint(o, r);
  }

  /** A child region holding some object's overlap start overlaps the query, so intersect visits it. */
  lemma OverlapStartRegionIsVisited(o: AirObject, q: Box, r: Box)
    requires o.Bounds().HasVolume() && q.HasVolume() && r.HasVolume()
    requires o.Intersects(q) && r.Contains(LowCorner(o.Bounds(), q))
    ensures BoxesOverlap(q, r)
  {
    IntersectsIsBoxesOverlap(o, q);
    var p := LowCorner(o.Bounds(), q);
    assert q.Contains(p);
    BoxesOverlapIffCommonPoint(q, r);
  }

  /**
   * With the corrected rule, intersect shows every object of S that meets the
   * query and whose overlap with it begins in the region, each exactly once.
   */
  lemma {:induction false} IntersectFixedExactlyOnce(n: Node, q: Box, r: Box, depth: nat, S: set<AirObject>)
    requires r.IsRegion() && Dyadic(r, depth) && Sound(n, r, depth) && Exact(n, r, depth, S)
    requires NoDataNodes(n) && q.HasVolume() && AllHaveVolume(S)
    ensures Shown(Intersect(n, q, r, depth, AtOverlapStart)) == multiset(Share(S, q, r, AtOverlapStart))
    decreases n
  {
    DyadicHasVolume(r, depth);
    match n
    case Empty =>
      forall o | o in Share(S, q, r, AtOverlapStart) ensures false {
        OverlapStartInRegionMeets(o, q, r);
      }
    case Leaf(data) =>
      FixedLeafOnce(data, q, r, depth, S);
    case Data(objects) =>
      assert false;
    case Internal(left, right) =>
      var lr, rr := LeftRegion(r, depth), RightRegion(r, depth);
      DyadicSplit(r, depth);
      DyadicHasVolume(lr, depth + 1);
      DyadicHasVolume(rr, depth + 1);
      IntersectFixedExactlyOnce(left, q, lr, depth + 1, S);
      IntersectFixedExactlyOnce(right, q, rr, depth + 1, S);
      FixedInternalOnce(left, right, q, r, depth, S);
  }

  /** A leaf shows, once each, the objects of S that meet the query and whose overlap with it begins in the leaf. */
  lemma FixedLeafOnce(data: seq<AirObject>, q: Box, r: Box, depth: nat, S: set<AirObject>)
    requires r.HasVolume() && ListExact(data, r, S) && q.HasVolume() && AllHaveVolume(S)
    ensures Shown(Intersect(Leaf(data), q, r, depth, AtOverlapStart)) == multiset(Share(S, q, r, AtOverlapStart))
  {
    var m := LeafMatches(data, q, r, AtOverlapStart);
    LeafMatchesAreShare(data, q, r, S);
    LeafMatchesDistinct(data, q, r, AtOverlapStart);
    DistinctMultiset(m);
    LeafIntersectObjects(data, q, r, depth, AtOverlapStart);
  }

  /** The objects a leaf exact for S matches are its share of the query. */
  lemma LeafMatchesAreShare(data: seq<AirObject>, q: Box, r: Box, S: set<AirObject>)
    requires r.HasVolume() && ListExact(data, r, S) && q.HasVolume() && AllHaveVolume(S)
    ensures (set o | o in LeafMatches(data, q, r, AtOverlapStart)) == Share(S, q, r, AtOverlapStart)
  {
    forall o | o in Share(S, q, r, AtOverlapStart) ensures o in data {
      OverlapStartInRegionMeets(o, q, r);
    }
  }

  /** An internal node shows the children's shares, which split its own share in two. */
  lemma FixedInternalOnce(left: Node, right: Node, q: Box, r: Box, depth: nat, S: set<AirObject>)
    requires r.IsRegion() && r.Width(depth % 3) % 2 == 0 && q.HasVolume() && AllHaveVolume(S)
    requires LeftRegion(r, depth).HasVolume() && RightRegion(r, depth).HasVolume()
    requires var lr := LeftRegion(r, depth);
      Shown(Intersect(left, q, lr, depth + 1, AtOverlapStart)) == multiset(Share(S, q, lr, AtOverlapStart))
    requires var rr := RightRegion(r, depth);
      Shown(Intersect(right, q, rr, depth + 1, AtOverlapStart)) == multiset(Share(S, q, rr, AtOverlapStart))
    ensures Shown(Intersect(Internal(left, right), q, r, depth, AtOverlapStart)) == multiset(Share(S, q, r, AtOverlapStart))
  {
    var lr, rr := LeftRegion(r, depth), RightRegion(r, depth);
    InternalIntersectObjects(left, right, q, r, depth, AtOverlapStart);
    SplitShares(S, q, r, depth, AtOverlapStart);
    if !BoxesOverlap(q, lr) {
      UnvisitedShareEmpty(S, q, lr);
    }
    if !BoxesOverlap(q, rr) {
      UnvisitedShareEmpty(S, q, rr);
    }
  }

  /** A region the query does not overlap holds the start of no object's overlap with it. */
  lemma UnvisitedShareEmpty(S: set<AirObject>, q: Box, c: Box)
    requires !BoxesOverlap(q, c) && c.HasVolume() && q.HasVolume() && AllHaveVolume(S)
    ensures Share(S, q, c, AtOverlapStart) == {}
  {
    forall o | o in Share(S, q, c, AtOverlapStart) ensures false {
      OverlapStartRegionIsVisited(o, q, c);
    }
  }

  /**
   * In a power-of-two world, a query inside the world shows, with the corrected
   * rule, each object of the database that meets the query exactly once.
   */
  lemma WorldQueryExactlyOnce(root: Node, worldSize: nat, q: Box, S: set<AirObject>)
    requires IsPow2(worldSize) && Sound(root, World(worldSize), 0) && Exact(root, World(worldSize), 0, S)
    requires NoDataNodes(root) && q.HasVolume() && AllHaveVolume(S)
    requires 0 <= q.x && q.x + q.xw <= worldSize
    requires 0 <= q.y && q.y + q.yw <= worldSize
    requires 0 <= q.z && q.z + q.zw <= worldSize
    ensures Shown(Intersect(root, q, World(worldSize), 0, AtOverlapStart)) == multiset(set o | o in S && o.Intersects(q))
  {
    WorldShareIsMeeting(S, worldSize, q);
    WorldIsDyadic(worldSize);
    IntersectFixedExactlyOnce(root, q, World(worldSize), 0, S);
  }

  /** For a query inside the world, every object meeting it starts its overlap inside the world. */
  lemma WorldShareIsMeeting(S: set<AirObject>, worldSize: nat, q: Box)
    requires q.HasVolume() && AllHaveVolume(S)
    requires 0 <= q.x && q.x + q.xw <= worldSize
    requires 0 <= q.y && q.y + q.yw <= worldSize
    requires 0 <= q.z && q.z + q.zw <= worldSize
    ensures Share(S, q, World(worldSize), AtOverlapStart) == set o | o in S && o.Intersects(q)
  {
    forall o | o in S && o.Intersects(q) ensures World(worldSize).Contains(LowCorner(o.Bounds(), q)) {
      IntersectsIsBoxesOverlap(o, q);
    }
  }


  // ---------------------------------------------------------------------
  // As written: an object reaching into the query from a skipped child
  // ---------------------------------------------------------------------

  /**
   * The boxes of the example: A, 100 wide, straddles x = 512; B and C sit near
   * the origin and D near x = 1000, so B and D share no point. Names and kinds
   * are free.
   */
  predicate ExampleShapes(a: AirObject, b: AirObject, c: AirObject, d: AirObject) {
    a.Bounds() == Box(500, 0, 0, 100, 10, 10) &&
    b.Bounds() == Box(0, 0, 0, 10, 10, 10) &&
    c.Bounds() == Box(20, 0, 0, 10, 10, 10) &&
    d.Bounds() == Box(1000, 0, 0, 10, 10, 10)
  }

  const ExampleQuery := Box(550, 0, 0, 10, 10, 10)

  /** The tree of a 1024-wide world after inserting a, b, c and d, in that order. */
  function ExampleTree(a: AirObject, b: AirObject, c: AirObject, d: AirObject): Node
    requires ExampleShapes(a, b, c, d)
  {
    var w := World(1024);
    Insert(Insert(Insert(Insert(Empty, a, w, 0), b, w, 0), c, w, 0), d, w, 0)
  }

  /** The fourth insert splits the root on x = 512; A straddles the split and lands in both leaves. */
  lemma ExampleTreeSplits(a: AirObject, b: AirObject, c: AirObject, d: AirObject)
    requires ExampleShapes(a, b, c, d)
    ensures ExampleTree(a, b, c, d) == Internal(Leaf([a, b, c]), Leaf([a, d]))
  {
    ExampleFirstThree(a, b, c, d);
    ExampleFourthSplits(a, b, c, d);
  }

  /** The first three inserts fill the root leaf to its limit of three objects. */
  lemma ExampleFirstThree(a: AirObject, b: AirObject, c: AirObject, d: AirObject)
    requires ExampleShapes(a, b, c, d)
    ensures Insert(Insert(Insert(Empty, a, World(1024), 0), b, World(1024), 0), c, World(1024), 0) == Leaf([a, b, c])
  {
    EmptyInsertMakesLeaf(a, World(1024), 0);
    assert [a] + [b] == [a, b];
    assert [a, b] + [c] == [a, b, c];
  }

  /** D makes four objects with no common point, so the full root leaf splits and re-inserts all four. */
  lemma ExampleFourthSplits(a: AirObject, b: AirObject, c: AirObject, d: AirObject)
    requires ExampleShapes(a, b, c, d)
    ensures Insert(Leaf([a, b, c]), d, World(1024), 0) == Internal(Leaf([a, b, c]), Leaf([a, d]))
  {
    var grown := [a, b, c, d];
    assert [a, b, c] + [d] == grown;
    assert !AllIntersect(grown) by {
      AllIntersectIffCommonPoint(grown);
    }
    ExampleReinsert(a, b, c, d);
  }

  /** Re-inserting A, B, C, D below a fresh split of the world: A goes both ways, B and C left, D right. */
  lemma ExampleReinsert(a: AirObject, b: AirObject, c: AirObject, d: AirObject)
    requires ExampleShapes(a, b, c, d)
    ensures ReinsertAll(Internal(Empty, Empty), [a, b, c, d], World(1024), 0) == Internal(Leaf([a, b, c]), Leaf([a, d]))
  {
    var w := World(1024);
    var i1, i2, i3, i4 := ExampleSpread(a, b, c, d);
    assert [a, b, c, d][1..] == [b, c, d] && [b, c, d][1..] == [c, d] && [c, d][1..] == [d] && [d][1..] == [];
    assert ReinsertAll(i4, [], w, 0) == i4;
    assert ReinsertAll(i3, [d], w, 0) == i4;
    assert ReinsertAll(i2, [c, d], w, 0) == i4;
    assert ReinsertAll(i1, [b, c, d], w, 0) == i4;
  }

  /** The four steps of the re-insertion, one object each. */
  lemma ExampleSpread(a: AirObject, b: AirObject, c: AirObject, d: AirObject) returns (i1: Node, i2: Node, i3: Node, i4: Node)
    requires ExampleShapes(a, b, c, d)
    ensures i1 == InternalInsert(Empty, Empty, a, World(1024), 0) == Internal(Leaf([a]), Leaf([a]))
    ensures i2 == InternalInsert(i1.left, i1.right, b, World(1024), 0) == Internal(Leaf([a, b]), Leaf([a]))
    ensures i3 == InternalInsert(i2.left, i2.right, c, World(1024), 0) == Internal(Leaf([a, b, c]), Leaf([a]))
    ensures i4 == InternalInsert(i3.left, i3.right, d, World(1024), 0) == Internal(Leaf([a, b, c]), Leaf([a, d]))
  {
    var w := World(1024);
    assert LeftRegion(w, 0) == Box(0, 0, 0, 512, 1024, 1024) && RightRegion(w, 0) == Box(512, 0, 0, 512, 1024, 1024);
    i1 := InternalInsert(Empty, Empty, a, w, 0);
    i2 := InternalInsert(i1.left, i1.right, b, w, 0);
    assert [a] + [b] == [a, b];
    i3 := InternalInsert(i2.left, i2.right, c, w, 0);
    assert [a, b] + [c] == [a, b, c];
    i4 := InternalInsert(i3.left, i3.right, d, w, 0);
    assert [a] + [d] == [a, d];
  }

  /** A leaf shows an object exactly when it holds it, the object meets the query, and its anchor point lies in the leaf's region. */
  lemma LeafShowsIff(data: seq<AirObject>, q: Box, r: Box, depth: nat, anchor: Anchor, o: AirObject)
    ensures o in ObjectsOf(Intersect(Leaf(data), q, r, depth, anchor).lines)
        <==> o in data && o.Intersects(q) && r.Contains(AnchorPoint(o, q, anchor))
  {
    var m := LeafMatches(data, q, r, anchor);
    LeafIntersectObjects(data, q, r, depth, anchor);
    assert o in SortByName(m) <==> o in multiset(SortByName(m));
    assert o in m <==> o in multiset(m);
  }

  /** A query that misses the left child's region shows exactly what the right child shows. */
  lemma SkippedLeftChild(left: Node, right: Node, q: Box, r: Box, depth: nat, anchor: Anchor)
    requires !BoxesOverlap(q, LeftRegion(r, depth)) && BoxesOverlap(q, RightRegion(r, depth))
    ensures ObjectsOf(Intersect(Internal(left, right), q, r, depth, anchor).lines)
         == ObjectsOf(Intersect(right, q, RightRegion(r, depth), depth + 1, anchor).lines)
  {
    InternalIntersectObjects(left, right, q, r, depth, anchor);
  }

  /** Below a node whose left region the query misses, a right leaf decides alone what is shown. */
  lemma SkippedLeftLeafShows(left: Node, data: seq<AirObject>, q: Box, r: Box, depth: nat, anchor: Anchor, o: AirObject)
    requires !BoxesOverlap(q, LeftRegion(r, depth)) && BoxesOverlap(q, RightRegion(r, depth))
    ensures o in ObjectsOf(Intersect(Internal(left, Leaf(data)), q, r, depth, anchor).lines)
        <==> o in data && o.Intersects(q) && RightRegion(r, depth).Contains(AnchorPoint(o, q, anchor))
  {
    SkippedLeftChild(left, Leaf(data), q, r, depth, anchor);
    LeafShowsIff(data, q, RightRegion(r, depth), depth + 1, anchor, o);
  }

  /** The example tree holds exactly the four inserted objects, each in the leaves whose region it meets. */
  lemma ExampleTreeExact(a: AirObject, b: AirObject, c: AirObject, d: AirObject)
    requires ExampleShapes(a, b, c, d)
    ensures Exact(Internal(Leaf([a, b, c]), Leaf([a, d])), World(1024), 0, {a, b, c, d})
  {
    var S := {a, b, c, d};
    var w := World(1024);
    assert ListExact([a, b, c], LeftRegion(w, 0), S);
    assert ListExact([a, d], RightRegion(w, 0), S);
  }

  /** The example query lies right of x = 512: it misses the left child's region and meets the right one. */
  lemma ExampleQuerySide()
    ensures !BoxesOverlap(ExampleQuery, LeftRegion(World(1024), 0))
    ensures BoxesOverlap(ExampleQuery, RightRegion(World(1024), 0))
  {
  }

  /** A meets the query; its origin lies in the left child's region, the start of its overlap with the query in the right one. */
  lemma ExampleAnchorsOfA(a: AirObject)
    requires a.Bounds() == Box(500, 0, 0, 100, 10, 10)
    ensures a.Intersects(ExampleQuery)
    ensures !RightRegion(World(1024), 0).Contains(AnchorPoint(a, ExampleQuery, AtOrigin))
    ensures RightRegion(World(1024), 0).Contains(AnchorPoint(a, ExampleQuery, AtOverlapStart))
  {
    assert a.x == 500 && a.y == 0 && a.z == 0 && a.xwid == 100 && a.ywid == 10 && a.zwid == 10;
  }

  /** Under the origin rule the example tree does not show A: its left leaf is skipped and its right leaf refuses A. */
  lemma ExampleHidesA(a: AirObject, b: AirObject, c: AirObject, d: AirObject)
    requires ExampleShapes(a, b, c, d)
    ensures a !in ObjectsOf(Intersect(Internal(Leaf([a, b, c]), Leaf([a, d])), ExampleQuery, World(1024), 0, AtOrigin).lines)
  {
    var w, q := World(1024), ExampleQuery;
    ExampleQuerySide();
    ExampleAnchorsOfA(a);
    SkippedLeftLeafShows(Leaf([a, b, c]), [a, d], q, w, 0, AtOrigin, a);
  }

  /** Under the corrected rule the right leaf of the example tree shows A. */
  lemma ExampleShowsA(a: AirObject, b: AirObject, c: AirObject, d: AirObject)
    requires ExampleShapes(a, b, c, d)
    ensures a in ObjectsOf(Intersect(Internal(Leaf([a, b, c]), Leaf([a, d])), ExampleQuery, World(1024), 0, AtOverlapStart).lines)
  {
    var w, q := World(1024), ExampleQuery;
    ExampleQuerySide();
    ExampleAnchorsOfA(a);
    SkippedLeftLeafShows(Leaf([a, b, c]), [a, d], q, w, 0, AtOverlapStart, a);
  }

  /**
   * Inserting A, B, C, D into a 1024-wide world and querying a box that only A
   * reaches: LeafNode's origin rule never shows A, though A meets the query
   * and the tree holds exactly the four objects; the corrected rule shows it.
   */
  lemma MissedObjectExample(a: AirObject, b: AirObject, c: AirObject, d: AirObject)
    requires ExampleShapes(a, b, c, d)
    ensures a.Intersects(ExampleQuery)
    ensures Exact(ExampleTree(a, b, c, d), World(1024), 0, {a, b, c, d})
    ensures a !in ObjectsOf(Intersect(ExampleTree(a, b, c, d), ExampleQuery, World(1024), 0, AtOrigin).lines)
    ensures a in ObjectsOf(Intersect(ExampleTree(a, b, c, d), ExampleQuery, World(1024), 0, AtOverlapStart).lines)
  {
    ExampleTreeSplits(a, b, c, d);
    ExampleTreeExact(a, b, c, d);
    ExampleHidesA(a, b, c, d);
    ExampleShowsA(a, b, c, d);
  }
}
