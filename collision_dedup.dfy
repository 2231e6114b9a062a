/**
 * How collisions avoids reporting a pair once per leaf both objects span:
 * LeafNode reports an intersecting pair only in the leaf whose region holds
 * the corner where the two boxes' overlap begins, and InternalNode visits both
 * children unconditionally. In a power-of-two world that corner lies in
 * exactly one leaf, so every colliding pair is reported exactly once, with the
 * smaller name first.
 */
module CollisionDedup {
  import opened Names
  import opened Boxes
  import opened AirObjects
  import opened BintreeNodes
  import opened TreeContents
  import opened NodeReports
  import opened QueryDedup

  /** The pairs reported on collision lines, each as the set of its two objects. */
  function PairsOf(lines: seq<Line>): seq<set<AirObject>> {
    if lines == [] then []
    else
      (if lines[0].item.Collision? then [{lines[0].item.first, lines[0].item.second}] else [])
      + PairsOf(lines[1..])
  }

  /** Two different objects collide and their overlap begins in region r. */
  predicate CollideIn(a: AirObject, b: AirObject, r: Box) {
    a != b && a.IntersectsObject(b) && r.Contains(LowCorner(a.Bounds(), b.Bounds()))
  }

  /** The colliding pairs of S whose overlap begins in r: what the leaves under r report. */
  ghost function PairShare(S: set<AirObject>, r: Box): set<set<AirObject>> {
    set a, b | a in S && b in S && CollideIn(a, b, r) :: {a, b}
  }

  /** The pairs a leaf holding s is responsible for: positions k < l whose objects collide in r. */
  ghost function LeafPairSet(s: seq<AirObject>, r: Box): set<set<AirObject>> {
    set k, l | 0 <= k < l < |s| && CollideIn(s[k], s[l], r) :: {s[k], s[l]}
  }

  // ---------------------------------------------------------------------
  // Small facts
  // ---------------------------------------------------------------------

  lemma CollideSymmetric(a: AirObject, b: AirObject, r: Box)
    ensures CollideIn(a, b, r) == CollideIn(b, a, r)
  {
    IntersectsObjectSymmetric(a, b);
    assert LowCorner(a.Bounds(), b.Bounds()) == LowCorner(b.Bounds(), a.Bounds());
  }

  lemma {:induction false} PairsOfAppend(a: seq<Line>, b: seq<Line>)
    ensures PairsOf(a + b) == PairsOf(a) + PairsOf(b)
  {
    if a == [] {
      assert a + b == b;
    } else {
      var h := if a[0].item.Collision? then [{a[0].item.first, a[0].item.second}] else [];
      assert (a + b)[0] == a[0] && (a + b)[1..] == a[1..] + b;
      assert PairsOf(a + b) == h + PairsOf(a[1..] + b);
      assert PairsOf(a) == h + PairsOf(a[1..]);
      PairsOfAppend(a[1..], b);
      assert h + (PairsOf(a[1..]) + PairsOf(b)) == (h + PairsOf(a[1..])) + PairsOf(b);
    }
  }

  /** Either order of a pair names the same two objects. */
  lemma OrderedPair(a: AirObject, b: AirObject)
    ensures Ordered(a, b).Collision? && {Ordered(a, b).first, Ordered(a, b).second} == {a, b}
    ensures CompareStrings(Ordered(a, b).first.name, Ordered(a, b).second.name) <= 0
  {
    CompareAntisymmetric(a.name, b.name);
  }

  // ---------------------------------------------------------------------
  // One leaf: each of its colliding pairs once
  // ---------------------------------------------------------------------

  /** Joining two sequences without repeats and without common elements gives one without repeats. */
  lemma DistinctJoin<T>(a: seq<T>, b: seq<T>)
    requires Distinct(a) && Distinct(b) && forall x :: x in a ==> x !in b
    ensures Distinct(a + b)
  {
    var c := a + b;
    forall i, j | 0 <= i < j < |c| ensures c[i] != c[j] {
      if i < |a| && j >= |a| {
        assert c[i] in a && c[j] == b[j - |a|];
      } else if i >= |a| {
        assert c[i] == b[i - |a|] && c[j] == b[j - |a|];
      }
    }
  }

  /**
   * The inner loop of LeafNode.collisions for the object at i, from partner j
   * on: the pairs of s[i] with each later colliding partner, each once.
   */
  lemma {:induction false} PartnerPairs(s: seq<AirObject>, i: nat, j: nat, r: Box)
    requires Distinct(s) && i < j <= |s|
    ensures PartnersAmong(PairsOf(LeafPairsWith(s, i, j, r)), s, i, j, r)
    decreases |s| - j
  {
    if j < |s| {
      PartnerPairs(s, i, j + 1, r);
      PartnerPairsStep(s, i, j, r);
    }
  }

  /** ps lists, without repetition, the pairs of s[i] with each partner l >= j that collides with it in r. */
  ghost predicate PartnersAmong(ps: seq<set<AirObject>>, s: seq<AirObject>, i: nat, j: nat, r: Box)
    requires i < |s|
  {
    Distinct(ps) &&
    forall P :: P in ps <==> exists l :: j <= l < |s| && CollideIn(s[i], s[l], r) && P == {s[i], s[l]}
  }

  /** One turn of the inner loop: the pair with partner j, if it collides, then the pairs with later partners. */
  lemma PartnerPairsStep(s: seq<AirObject>, i: nat, j: nat, r: Box)
    requires Distinct(s) && i < j < |s|
    requires PartnersAmong(PairsOf(LeafPairsWith(s, i, j + 1, r)), s, i, j + 1, r)
    ensures PartnersAmong(PairsOf(LeafPairsWith(s, i, j, r)), s, i, j, r)
  {
    var later := PairsOf(LeafPairsWith(s, i, j + 1, r));
    var ps := PairsOf(LeafPairsWith(s, i, j, r));
    PartnerHead(s, i, j, r);
    if CollideIn(s[i], s[j], r) {
      var P := {s[i], s[j]};
      forall Q | Q in later ensures s[j] !in Q {
        var l :| j + 1 <= l < |s| && CollideIn(s[i], s[l], r) && Q == {s[i], s[l]};
        assert s[j] != s[i] && s[j] != s[l];
      }
      assert s[j] in P;
      DistinctJoin([P], later);
    }
    forall P ensures P in ps <==> exists l :: j <= l < |s| && CollideIn(s[i], s[l], r) && P == {s[i], s[l]} {
      if exists l :: j <= l < |s| && CollideIn(s[i], s[l], r) && P == {s[i], s[l]} {
        var l :| j <= l < |s| && CollideIn(s[i], s[l], r) && P == {s[i], s[l]};
        if l == j {
          assert P in ps;
        }
      }
    }
  }

  /** The inner loop's line for partner j names the pair {s[i], s[j]} exactly when the two collide in r. */
  lemma PartnerHead(s: seq<AirObject>, i: nat, j: nat, r: Box)
    requires Distinct(s) && i < j < |s|
    ensures PairsOf(LeafPairsWith(s, i, j, r)) ==
      (if CollideIn(s[i], s[j], r) then [{s[i], s[j]}] else []) + PairsOf(LeafPairsWith(s, i, j + 1, r))
  {
    var h: seq<Line> := if s[i].IntersectsObject(s[j]) && r.Contains(LowCorner(s[i].Bounds(), s[j].Bounds()))
      then [Line(0, Ordered(s[i], s[j]))] else [];
    assert LeafPairsWith(s, i, j, r) == h + LeafPairsWith(s, i, j + 1, r);
    PairsOfAppend(h, LeafPairsWith(s, i, j + 1, r));
    OrderedPair(s[i], s[j]);
    assert s[i] != s[j];
    if h != [] {
      assert h[1..] == [];
    }
  }

  /** The outer loop of LeafNode.collisions from i on: each pair of positions i <= k < l that collides, once. */
  lemma {:induction false} LeafPairs(s: seq<AirObject>, i: nat, r: Box)
    requires Distinct(s) && i <= |s|
    ensures PairsAmong(PairsOf(LeafPairsFrom(s, i, r)), s, i, r)
    decreases |s| - i
  {
    if i < |s| {
      LeafPairs(s, i + 1, r);
      LeafPairsStep(s, i, r);
    }
  }

  /**
   * ps lists, without repetition, the pairs of positions i <= k < l of s
   * whose objects collide in r.
   */
  ghost predicate PairsAmong(ps: seq<set<AirObject>>, s: seq<AirObject>, i: nat, r: Box) {
    Distinct(ps) &&
    forall P :: P in ps <==> exists k, l :: i <= k < l < |s| && CollideIn(s[k], s[l], r) && P == {s[k], s[l]}
  }

  /** One turn of the outer loop: the pairs from i are those of the object at i, then those from i + 1. */
  lemma LeafPairsStep(s: seq<AirObject>, i: nat, r: Box)
    requires Distinct(s) && i < |s|
    requires PairsAmong(PairsOf(LeafPairsFrom(s, i + 1, r)), s, i + 1, r)
    ensures PairsAmong(PairsOf(LeafPairsFrom(s, i, r)), s, i, r)
  {
    PartnerPairs(s, i, i + 1, r);
    var W, F := PairsOf(LeafPairsWith(s, i, i + 1, r)), PairsOf(LeafPairsFrom(s, i + 1, r));
    PairsOfAppend(LeafPairsWith(s, i, i + 1, r), LeafPairsFrom(s, i + 1, r));
    assert PairsOf(LeafPairsFrom(s, i, r)) == W + F;
    LaterPairsMissHead(s, i, r, F);
    forall P | P in W ensures P !in F {
      var l :| i + 1 <= l < |s| && CollideIn(s[i], s[l], r) && P == {s[i], s[l]};
      assert s[i] in P;
    }
    DistinctJoin(W, F);
    HeadThenLaterPairs(s, i, r, W, F);
  }

  /** Pairs among positions after i do not contain the object at i. */
  lemma LaterPairsMissHead(s: seq<AirObject>, i: nat, r: Box, F: seq<set<AirObject>>)
    requires Distinct(s) && i < |s|
    requires forall P :: P in F ==> exists k, l :: i + 1 <= k < l < |s| && CollideIn(s[k], s[l], r) && P == {s[k], s[l]}
    ensures forall P :: P in F ==> s[i] !in P
  {
    forall P | P in F ensures s[i] !in P {
      var k, l :| i + 1 <= k < l < |s| && CollideIn(s[k], s[l], r) && P == {s[k], s[l]};
      assert s[i] != s[k] && s[i] != s[l];
    }
  }

  /** The pairs starting at i followed by the pairs among later positions are the pairs among positions from i on. */
  lemma HeadThenLaterPairs(s: seq<AirObject>, i: nat, r: Box, W: seq<set<AirObject>>, F: seq<set<AirObject>>)
    requires i < |s|
    requires forall P :: P in W <==> exists l :: i + 1 <= l < |s| && CollideIn(s[i], s[l], r) && P == {s[i], s[l]}
    requires forall P :: P in F <==> exists k, l :: i + 1 <= k < l < |s| && CollideIn(s[k], s[l], r) && P == {s[k], s[l]}
    ensures forall P :: P in W + F <==> exists k, l :: i <= k < l < |s| && CollideIn(s[k], s[l], r) && P == {s[k], s[l]}
  {
    forall P ensures P in W + F <==> exists k, l :: i <= k < l < |s| && CollideIn(s[k], s[l], r) && P == {s[k], s[l]} {
      if exists k, l :: i <= k < l < |s| && CollideIn(s[k], s[l], r) && P == {s[k], s[l]} {
        var k, l :| i <= k < l < |s| && CollideIn(s[k], s[l], r) && P == {s[k], s[l]};
        if k == i {
          assert P in W;
        } else {
          assert P in F;
        }
      }
    }
  }

  /** A leaf reports each pair it is responsible for exactly once. */
  lemma LeafPairsOnce(s: seq<AirObject>, r: Box)
    requires Distinct(s)
    ensures multiset(PairsOf(LeafPairsFrom(s, 0, r))) == multiset(LeafPairSet(s, r))
  {
    var ps := PairsOf(LeafPairsFrom(s, 0, r));
    LeafPairs(s, 0, r);
    DistinctMultiset(ps);
    assert (set P | P in ps) == LeafPairSet(s, r);
  }

  /** A leaf exact for S reports exactly the colliding pairs of S whose overlap begins in its region. */
  lemma LeafPairsAreShare(s: seq<AirObject>, r: Box, S: set<AirObject>)
    requires ListExact(s, r, S) && AllHaveVolume(S) && r.HasVolume()
    ensures LeafPairSet(s, r) == PairShare(S, r)
  {
    forall P | P in PairShare(S, r) ensures P in LeafPairSet(s, r) {
      var a, b :| a in S && b in S && CollideIn(a, b, r) && P == {a, b};
      OverlapStartInRegionMeets(a, b.Bounds(), r);
      CollideSymmetric(a, b, r);
      OverlapStartInRegionMeets(b, a.Bounds(), r);
      var k :| 0 <= k < |s| && s[k] == a;
      var l :| 0 <= l < |s| && s[l] == b;
      if k < l {
        assert CollideIn(s[k], s[l], r);
      } else {
        assert k != l && CollideIn(s[l], s[k], r) && P == {s[l], s[k]};
      }
    }
  }

  // ---------------------------------------------------------------------
  // The whole tree
  // ---------------------------------------------------------------------

  /** Two descriptions of the same pair of different objects name the same two objects. */
  lemma SamePair(a: AirObject, b: AirObject, c: AirObject, d: AirObject)
    requires a != b && {a, b} == {c, d}
    ensures (a == c && b == d) || (a == d && b == c)
  {
    assert a in {c, d} && b in {c, d} && c in {a, b} && d in {a, b};
  }

  /** Under an even split the children's pair shares are disjoint and make up the parent's. */
  lemma SplitPairShares(S: set<AirObject>, r: Box, depth: nat)
    requires r.IsRegion() && r.Width(depth % 3) % 2 == 0
    ensures var lr, rr := LeftRegion(r, depth), RightRegion(r, depth);
      PairShare(S, lr) !! PairShare(S, rr) &&
      PairShare(S, r) == PairShare(S, lr) + PairShare(S, rr)
  {
    var lr, rr := LeftRegion(r, depth), RightRegion(r, depth);
    forall P | P in PairShare(S, lr) ensures P !in PairShare(S, rr) {
      var a, b :| a in S && b in S && CollideIn(a, b, lr) && P == {a, b};
      if P in PairShare(S, rr) {
        var c, d :| c in S && d in S && CollideIn(c, d, rr) && P == {c, d};
        SamePair(a, b, c, d);
        assert LowCorner(a.Bounds(), b.Bounds()) == LowCorner(c.Bounds(), d.Bounds());
        EvenSplitPartitions(r, depth, LowCorner(a.Bounds(), b.Bounds()));
      }
    }
    forall P | P in PairShare(S, r) ensures P in PairShare(S, lr) + PairShare(S, rr) {
      var a, b :| a in S && b in S && CollideIn(a, b, r) && P == {a, b};
      EvenSplitPartitions(r, depth, LowCorner(a.Bounds(), b.Bounds()));
      assert CollideIn(a, b, lr) || CollideIn(a, b, rr);
    }
    forall P | P in PairShare(S, lr) + PairShare(S, rr) ensures P in PairShare(S, r) {
      if P in PairShare(S, lr) {
        var a, b :| a in S && b in S && CollideIn(a, b, lr) && P == {a, b};
        EvenSplitPartitions(r, depth, LowCorner(a.Bounds(), b.Bounds()));
        assert CollideIn(a, b, r);
      } else {
        var a, b :| a in S && b in S && CollideIn(a, b, rr) && P == {a, b};
        EvenSplitPartitions(r, depth, LowCorner(a.Bounds(), b.Bounds()));
        assert CollideIn(a, b, r);
      }
    }
  }

  /**
   * In a power-of-two world, collisions under a node exact for S reports every
   * colliding pair of S whose overlap begins in the node's region exactly once.
   */
  lemma {:induction false} CollisionsExactlyOnce(n: Node, r: Box, depth: nat, S: set<AirObject>)
    requires r.IsRegion() && Dyadic(r, depth) && Sound(n, r, depth) && Exact(n, r, depth, S)
    requires NoDataNodes(n) && AllHaveVolume(S)
    ensures multiset(PairsOf(Collisions(n, r, depth))) == multiset(PairShare(S, r))
    decreases n
  {
    DyadicHasVolume(r, depth);
    match n
    case Empty =>
      forall P | P in PairShare(S, r) ensures false {
        var a, b :| a in S && b in S && CollideIn(a, b, r) && P == {a, b};
        OverlapStartInRegionMeets(a, b.Bounds(), r);
      }
    case Leaf(data) =>
      var h := [Line(0, LeafVisit(r, depth))];
      PairsOfAppend(h, LeafPairsFrom(data, 0, r));
      assert PairsOf(h) == [];
      LeafPairsOnce(data, r);
      LeafPairsAreShare(data, r, S);
    case Data(objects) =>
      assert false;
    case Internal(left, right) =>
      var lr, rr := LeftRegion(r, depth), RightRegion(r, depth);
      DyadicSplit(r, depth);
      CollisionsExactlyOnce(left, lr, depth + 1, S);
      CollisionsExactlyOnce(right, rr, depth + 1, S);
      PairsOfAppend(Collisions(left, lr, depth + 1), Collisions(right, rr, depth + 1));
      SplitPairShares(S, r, depth);
      DisjointUnionMultiset(PairShare(S, lr), PairShare(S, rr));
  }

  /** Every object of S lies inside the world cube. */
  ghost predicate InsideWorld(S: set<AirObject>, worldSize: nat) {
    forall o :: o in S ==> (0 <= o.x && o.x + o.xwid <= worldSize &&
      0 <= o.y && o.y + o.ywid <= worldSize && 0 <= o.z && o.z + o.zwid <= worldSize)
  }

  /** The colliding pairs of S: two different objects whose boxes intersect. */
  ghost function CollidingPairs(S: set<AirObject>): set<set<AirObject>> {
    set a, b | a in S && b in S && a != b && a.IntersectsObject(b) :: {a, b}
  }

  /** Inside the world, every colliding pair's overlap begins in the world region. */
  lemma WorldShareIsAllPairs(S: set<AirObject>, worldSize: nat)
    requires AllHaveVolume(S) && InsideWorld(S, worldSize)
    ensures PairShare(S, World(worldSize)) == CollidingPairs(S)
  {
    forall P | P in CollidingPairs(S) ensures P in PairShare(S, World(worldSize)) {
      var a, b :| a in S && b in S && a != b && a.IntersectsObject(b) && P == {a, b};
      assert CollideIn(a, b, World(worldSize));
    }
    forall P | P in PairShare(S, World(worldSize)) ensures P in CollidingPairs(S) {
      var a, b :| a in S && b in S && CollideIn(a, b, World(worldSize)) && P == {a, b};
    }
  }

  /** In a power-of-two world holding objects inside it, collisions reports every colliding pair exactly once. */
  lemma WorldCollisionsExactlyOnce(root: Node, worldSize: nat, S: set<AirObject>)
    requires IsPow2(worldSize) && Sound(root, World(worldSize), 0) && Exact(root, World(worldSize), 0, S)
    requires NoDataNodes(root) && AllHaveVolume(S) && InsideWorld(S, worldSize)
    ensures multiset(PairsOf(Collisions(root, World(worldSize), 0))) == multiset(CollidingPairs(S))
  {
    WorldIsDyadic(worldSize);
    CollisionsExactlyOnce(root, World(worldSize), 0, S);
    WorldShareIsAllPairs(S, worldSize);
  }

  // ---------------------------------------------------------------------
  // Order within a line
  // ---------------------------------------------------------------------

  /** Every collision line names the object with the smaller (or equal) name first. */
  predicate SmallerFirst(lines: seq<Line>) {
    forall k :: 0 <= k < |lines| && lines[k].item.Collision? ==>
      CompareStrings(lines[k].item.first.name, lines[k].item.second.name) <= 0
  }

  lemma {:induction false} PartnerLinesOrdered(s: seq<AirObject>, i: nat, j: nat, r: Box)
    requires i < |s|
    ensures SmallerFirst(LeafPairsWith(s, i, j, r))
    decreases |s| - j
  {
    if j < |s| {
      PartnerLinesOrdered(s, i, j + 1, r);
      OrderedPair(s[i], s[j]);
    }
  }

  lemma {:induction false} LeafLinesOrdered(s: seq<AirObject>, i: nat, r: Box)
    ensures SmallerFirst(LeafPairsFrom(s, i, r))
    decreases |s| - i
  {
    if i < |s| {
      PartnerLinesOrdered(s, i, i + 1, r);
      LeafLinesOrdered(s, i + 1, r);
    }
  }

  /** In a tree of LeafNodes every collision line puts the smaller name first (DataNode keeps list order). */
  lemma {:induction false} CollisionsSmallerFirst(n: Node, r: Box, depth: nat)
    requires NoDataNodes(n)
    ensures SmallerFirst(Collisions(n, r, depth))
    decreases n
  {
    match n
    case Empty =>
    case Leaf(data) =>
      LeafLinesOrdered(data, 0, r);
    case Internal(left, right) =>
      CollisionsSmallerFirst(left, LeftRegion(r, depth), depth + 1);
      CollisionsSmallerFirst(right, RightRegion(r, depth), depth + 1);
  }
}
