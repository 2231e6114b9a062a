/**
 * What the bintree stores: every node holds exactly those objects of the
 * database that meet its region. Insert and remove keep this, so the leaves of
 * a power-of-two world together hold exactly the objects of the database.
 */
module TreeContents {
  import opened Boxes
  import opened AirObjects
  import opened SimpleLists
  import opened CommonBox
  import opened BintreeNodes

  predicate Distinct<T(==)>(s: seq<T>) {
    forall i, j :: 0 <= i < j < |s| ==> s[i] != s[j]
  }

  /** Dropping the head of a sequence without repeats leaves one without repeats, and without the head. */
  lemma DistinctTail<T>(s: seq<T>)
    requires Distinct(s) && s != []
    ensures Distinct(s[1..]) && s[0] !in s[1..]
  {
    var t := s[1..];
    forall i, j | 0 <= i < j < |t| ensures t[i] != t[j] {
      assert t[i] == s[i + 1] && t[j] == s[j + 1];
    }
  }

  /** The list s holds, once each, exactly the objects of S that meet r. */
  ghost predicate ListExact(s: seq<AirObject>, r: Box, S: set<AirObject>) {
    Distinct(s) && forall o :: o in s <==> o in S && o.Intersects(r)
  }

  /** Node n, at region r and this depth, holds exactly the objects of S that meet r. */
  ghost predicate Exact(n: Node, r: Box, depth: nat, S: set<AirObject>) {
    match n
    case Empty => forall o :: o in S ==> !o.Intersects(r)
    case Leaf(data) => ListExact(data, r, S)
    case Data(objects) => ListExact(objects, r, S)
    case Internal(left, right) =>
      Exact(left, LeftRegion(r, depth), depth + 1, S) && Exact(right, RightRegion(r, depth), depth + 1, S)
  }

  /** Every object of S has positive widths, as WorldDB's validation ensures. */
  ghost predicate AllHaveVolume(S: set<AirObject>) {
    forall o :: o in S ==> o.Bounds().HasVolume()
  }

  /** The objects listed in the leaves of n. */
  function Stored(n: Node): set<AirObject> {
    match n
    case Empty => {}
    case Leaf(data) => set o | o in data
    case Data(objects) => set o | o in objects
    case Internal(left, right) => Stored(left) + Stored(right)
  }

  // ---------------------------------------------------------------------
  // The leaves hold only objects that were inserted
  // ---------------------------------------------------------------------

  /** Inserting adds at most the inserted object to the leaves, in any world. */
  lemma {:induction false} InsertStoresOnly(n: Node, obj: AirObject, r: Box, depth: nat)
    requires r.IsRegion() && Sound(n, r, depth) && obj.Intersects(r)
    ensures Stored(Insert(n, obj, r, depth)) <= Stored(n) + {obj}
    decreases Measure(r, depth), 3, 0
  {
    match n
    case Empty => LeafInsertStoresOnly([], obj, r, depth);
    case Leaf(data) => LeafInsertStoresOnly(data, obj, r, depth);
    case Data(objects) => DataInsertStoresOnly(objects, obj, r, depth);
    case Internal(left, right) => InternalInsertStoresOnly(left, right, obj, r, depth);
  }

  lemma {:induction false} LeafInsertStoresOnly(data: seq<AirObject>, obj: AirObject, r: Box, depth: nat)
    requires r.IsRegion() && AllMeet(data, r) && obj.Intersects(r)
    ensures Stored(LeafInsert(data, obj, r, depth)) <= (set o | o in data) + {obj}
    decreases Measure(r, depth), 2, 0
  {
    var grown := data + [obj];
    if |grown| > MaxObjects && !AllIntersect(grown) && Splittable(r) {
      ReinsertStoresOnly(Internal(Empty, Empty), grown, r, depth);
    }
  }

  lemma {:induction false} DataInsertStoresOnly(objects: seq<AirObject>, obj: AirObject, r: Box, depth: nat)
    requires r.IsRegion() && AllMeet(objects, r) && obj.Intersects(r)
    ensures Stored(DataInsert(objects, obj, r, depth)) <= (set o | o in objects) + {obj}
    decreases Measure(r, depth), 2, 0
  {
    var grown := objects + [obj];
    if |grown| > MaxObjects && !CheckAllIntersect(grown) && Splittable(r) {
      ReinsertStoresOnly(Internal(Empty, Empty), grown, r, depth);
    }
  }

  lemma {:induction false} ReinsertStoresOnly(n: Node, objs: seq<AirObject>, r: Box, depth: nat)
    requires r.IsRegion() && n.Internal? && Sound(n, r, depth) && AllMeet(objs, r)
    ensures Stored(ReinsertAll(n, objs, r, depth)) <= Stored(n) + set o | o in objs
    decreases Measure(r, depth), 1, |objs|
  {
    if objs != [] {
      InternalInsertStoresOnly(n.left, n.right, objs[0], r, depth);
      var next := InternalInsert(n.left, n.right, objs[0], r, depth);
      var rest := objs[1..];
      assert AllMeet(rest, r) by {
        forall k | 0 <= k < |rest| ensures rest[k].Intersects(r) {
          assert rest[k] == objs[k + 1];
        }
      }
      ReinsertStoresOnly(next, rest, r, depth);
      assert objs == [objs[0]] + rest;
      assert Stored(next) + (set o | o in rest) <= Stored(n) + set o | o in objs;
    }
  }

  lemma {:induction false} InternalInsertStoresOnly(left: Node, right: Node, obj: AirObject, r: Box, depth: nat)
    requires r.IsRegion() && Sound(Internal(left, right), r, depth) && obj.Intersects(r)
    ensures Stored(InternalInsert(left, right, obj, r, depth)) <= Stored(left) + Stored(right) + {obj}
    decreases Measure(r, depth), 0, 0
  {
    ChildMeasureDecreases(r, depth);
    var lr, rr := LeftRegion(r, depth), RightRegion(r, depth);
    if obj.Intersects(lr) {
      InsertStoresOnly(left, obj, lr, depth + 1);
    }
    if obj.Intersects(rr) {
      InsertStoresOnly(right, obj, rr, depth + 1);
    }
  }

  /** Removing never adds an object to the leaves. */
  lemma {:induction false} RemoveStoresOnly(n: Node, obj: AirObject, r: Box, depth: nat)
    ensures Stored(Remove(n, obj, r, depth)) <= Stored(n)
    decreases n
  {
    match n
    case Empty =>
    case Leaf(data) => RemoveFirstKeeps(data, obj);
    case Data(objects) => RemoveFirstKeeps(objects, obj);
    case Internal(left, right) =>
      RemoveStoresOnly(left, obj, LeftRegion(r, depth), depth + 1);
      RemoveStoresOnly(right, obj, RightRegion(r, depth), depth + 1);
  }

  lemma RemoveFirstKeeps(s: seq<AirObject>, x: AirObject)
    ensures forall o :: o in RemoveFirst(s, x) ==> o in s
  {
    forall o | o in RemoveFirst(s, x) ensures o in s {
      assert o in multiset(RemoveFirst(s, x));
    }
  }

  // ---------------------------------------------------------------------
  // Geometry of the split
  // ---------------------------------------------------------------------

  /** An object meeting a child region meets the parent region. */
  lemma ChildMeetImpliesParent(o: AirObject, r: Box, depth: nat)
    requires r.IsRegion()
    ensures o.Intersects(LeftRegion(r, depth)) ==> o.Intersects(r)
    ensures o.Intersects(RightRegion(r, depth)) ==> o.Intersects(r)
  {
  }

  /** With an even split width, an object with volume that meets the parent meets a child. */
  lemma EvenSplitCovers(o: AirObject, r: Box, depth: nat)
    requires r.IsRegion() && r.Width(depth % 3) % 2 == 0 && o.Bounds().HasVolume()
    ensures o.Intersects(r) ==> o.Intersects(LeftRegion(r, depth)) || o.Intersects(RightRegion(r, depth))
  {
  }

  // ---------------------------------------------------------------------
  // Exactness depends only on the objects that meet the region
  // ---------------------------------------------------------------------

  lemma {:induction false} ExactSeesOnlyRegion(n: Node, r: Box, depth: nat, S: set<AirObject>, T: set<AirObject>)
    requires r.IsRegion()
    requires forall o: AirObject :: o.Intersects(r) ==> (o in S <==> o in T)
    ensures Exact(n, r, depth, S) == Exact(n, r, depth, T)
    decreases n
  {
    match n
    case Empty =>
    case Leaf(data) =>
    case Data(objects) =>
    case Internal(left, right) =>
      var lr, rr := LeftRegion(r, depth), RightRegion(r, depth);
      forall o: AirObject ensures o.Intersects(lr) ==> o.Intersects(r) {
        ChildMeetImpliesParent(o, r, depth);
      }
      forall o: AirObject ensures o.Intersects(rr) ==> o.Intersects(r) {
        ChildMeetImpliesParent(o, r, depth);
      }
      ChildRegionsInside(r, depth, r.Origin());
      ExactSeesOnlyRegion(left, lr, depth + 1, S, T);
      ExactSeesOnlyRegion(right, rr, depth + 1, S, T);
  }

  // ---------------------------------------------------------------------
  // Insert
  // ---------------------------------------------------------------------

  /** Inserting a new object into a node that is exact for S makes it exact for S with the object. */
  lemma {:induction false} InsertExact(n: Node, obj: AirObject, r: Box, depth: nat, S: set<AirObject>)
    requires r.IsRegion() && Sound(n, r, depth) && obj.Intersects(r)
    requires Exact(n, r, depth, S) && obj !in S
    ensures Exact(Insert(n, obj, r, depth), r, depth, S + {obj})
    decreases Measure(r, depth), 3, 0
  {
    match n
    case Empty => LeafInsertExact([], obj, r, depth, S);
    case Leaf(data) => LeafInsertExact(data, obj, r, depth, S);
    case Data(objects) => DataInsertExact(objects, obj, r, depth, S);
    case Internal(left, right) => InternalInsertExact(left, right, obj, r, depth, S);
  }

  lemma {:induction false} LeafInsertExact(data: seq<AirObject>, obj: AirObject, r: Box, depth: nat, S: set<AirObject>)
    requires r.IsRegion() && AllMeet(data, r) && obj.Intersects(r)
    requires ListExact(data, r, S) && obj !in S
    ensures Exact(LeafInsert(data, obj, r, depth), r, depth, S + {obj})
    decreases Measure(r, depth), 2, 0
  {
    var grown := data + [obj];
    GrownListExact(data, obj, r, S);
    if |grown| > MaxObjects && !AllIntersect(grown) && Splittable(r) {
      SplitExact(grown, r, depth, S + {obj});
    }
  }

  lemma {:induction false} DataInsertExact(objects: seq<AirObject>, obj: AirObject, r: Box, depth: nat, S: set<AirObject>)
    requires r.IsRegion() && AllMeet(objects, r) && obj.Intersects(r)
    requires ListExact(objects, r, S) && obj !in S
    ensures Exact(DataInsert(objects, obj, r, depth), r, depth, S + {obj})
    decreases Measure(r, depth), 2, 0
  {
    var grown := objects + [obj];
    GrownListExact(objects, obj, r, S);
    if |grown| > MaxObjects && !CheckAllIntersect(grown) && Splittable(r) {
      SplitExact(grown, r, depth, S + {obj});
    }
  }

  lemma GrownListExact(data: seq<AirObject>, obj: AirObject, r: Box, S: set<AirObject>)
    requires ListExact(data, r, S) && obj !in S && obj.Intersects(r)
    ensures ListExact(data + [obj], r, S + {obj})
  {
    var grown := data + [obj];
    forall i, j | 0 <= i < j < |grown| ensures grown[i] != grown[j] {
      if j == |data| {
        assert grown[i] in data;
      }
    }
  }

  /** A split re-inserts the list, exact for T, into a fresh internal node, which is then exact for T. */
  lemma SplitExact(grown: seq<AirObject>, r: Box, depth: nat, T: set<AirObject>)
    requires r.IsRegion() && Splittable(r) && AllMeet(grown, r) && ListExact(grown, r, T)
    ensures Sound(Internal(Empty, Empty), r, depth) &&
      Exact(ReinsertAll(Internal(Empty, Empty), grown, r, depth), r, depth, T)
    decreases Measure(r, depth), 1, |grown| + 1
  {
    ReinsertExact(Internal(Empty, Empty), grown, r, depth, {});
    var U := {} + set o | o in grown;
    ExactSeesOnlyRegion(ReinsertAll(Internal(Empty, Empty), grown, r, depth), r, depth, U, T);
  }

  lemma {:induction false} ReinsertExact(n: Node, objs: seq<AirObject>, r: Box, depth: nat, T: set<AirObject>)
    requires r.IsRegion() && n.Internal? && Sound(n, r, depth) && AllMeet(objs, r)
    requires Exact(n, r, depth, T) && Distinct(objs) && forall o :: o in objs ==> o !in T
    ensures Exact(ReinsertAll(n, objs, r, depth), r, depth, T + set o | o in objs)
    decreases Measure(r, depth), 1, |objs|
  {
    if objs == [] {
      assert T + (set o | o in objs) == T;
    } else {
      var x, rest := objs[0], objs[1..];
      assert objs == [x] + rest;
      assert (T + {x}) + (set o | o in rest) == T + set o | o in objs;
      DistinctTail(objs);
      InternalInsertExact(n.left, n.right, x, r, depth, T);
      var next := InternalInsert(n.left, n.right, x, r, depth);
      assert AllMeet(rest, r) by {
        forall k | 0 <= k < |rest| ensures rest[k].Intersects(r) {
          assert rest[k] == objs[k + 1];
        }
      }
      ReinsertExact(next, rest, r, depth, T + {x});
    }
  }

  lemma {:induction false} InternalInsertExact(left: Node, right: Node, obj: AirObject, r: Box, depth: nat, S: set<AirObject>)
    requires r.IsRegion() && Sound(Internal(left, right), r, depth) && obj.Intersects(r)
    requires Exact(Internal(left, right), r, depth, S) && obj !in S
    ensures Exact(InternalInsert(left, right, obj, r, depth), r, depth, S + {obj})
    decreases Measure(r, depth), 0, 0
  {
    ChildMeasureDecreases(r, depth);
    var lr, rr := LeftRegion(r, depth), RightRegion(r, depth);
    if obj.Intersects(lr) {
      InsertExact(left, obj, lr, depth + 1, S);
    } else {
      ExactSeesOnlyRegion(left, lr, depth + 1, S, S + {obj});
    }
    if obj.Intersects(rr) {
      InsertExact(right, obj, rr, depth + 1, S);
    } else {
      ExactSeesOnlyRegion(right, rr, depth + 1, S, S + {obj});
    }
  }

  // ---------------------------------------------------------------------
  // Remove
  // ---------------------------------------------------------------------

  /** Removing from a list without repeats drops exactly that one object. */
  lemma RemoveFirstDistinct(s: seq<AirObject>, x: AirObject)
    requires Distinct(s)
    ensures Distinct(RemoveFirst(s, x))
    ensures forall o :: o in RemoveFirst(s, x) <==> o in s && o != x
  {
    if x in s {
      var i :| 0 <= i < |s| && s[i] == x;
      assert x !in s[..i];
      RemoveFirstAt(s, x, i);
      CutDistinct(s, i);
    }
  }

  lemma CutDistinct(s: seq<AirObject>, i: int)
    requires Distinct(s) && 0 <= i < |s|
    ensures Distinct(s[..i] + s[i + 1..])
    ensures forall o :: o in s[..i] + s[i + 1..] <==> o in s && o != s[i]
  {
    var c := s[..i] + s[i + 1..];
    assert forall k :: 0 <= k < |c| ==> c[k] == s[if k < i then k else k + 1];
    forall o ensures o in c <==> o in s && o != s[i] {
      if o in s && o != s[i] {
        var k :| 0 <= k < |s| && s[k] == o;
        assert c[if k < i then k else k - 1] == o;
      }
    }
  }

  /**
   * Removing an object from a node exact for S leaves it exact for S without the
   * object. The collapse of an internal node to Empty is exact because, in a
   * power-of-two world, an object with volume that meets a region meets one of
   * its halves.
   */
  lemma {:induction false} RemoveExact(n: Node, obj: AirObject, r: Box, depth: nat, S: set<AirObject>)
    requires r.IsRegion() && Dyadic(r, depth) && Sound(n, r, depth) && AllHaveVolume(S)
    requires Exact(n, r, depth, S)
    ensures Exact(Remove(n, obj, r, depth), r, depth, S - {obj})
    decreases n
  {
    match n
    case Empty =>
    case Leaf(data) =>
      RemoveListExact(data, obj, r, depth, S);
    case Data(objects) =>
      RemoveListExact(objects, obj, r, depth, S);
    case Internal(left, right) =>
      var lr, rr := LeftRegion(r, depth), RightRegion(r, depth);
      ExactChildren(left, right, r, depth, S);
      if obj.Intersects(lr) {
        RemoveExact(left, obj, lr, depth + 1, S);
      } else {
        ExactSeesOnlyRegion(left, lr, depth + 1, S, S - {obj});
      }
      if obj.Intersects(rr) {
        RemoveExact(right, obj, rr, depth + 1, S);
      } else {
        ExactSeesOnlyRegion(right, rr, depth + 1, S, S - {obj});
      }
      RemoveInternalExact(left, right, obj, r, depth, S);
  }

  /** The leaf cases of RemoveExact: dropping obj from an exact list leaves an exact list, or nothing to meet r. */
  lemma RemoveListExact(s: seq<AirObject>, obj: AirObject, r: Box, depth: nat, S: set<AirObject>)
    requires ListExact(s, r, S)
    ensures Exact(Remove(Leaf(s), obj, r, depth), r, depth, S - {obj})
    ensures Exact(Remove(Data(s), obj, r, depth), r, depth, S - {obj})
  {
    RemoveFirstDistinct(s, obj);
  }

  /** The children of a sound, exact internal node in a dyadic region are sound and exact in dyadic halves. */
  lemma ExactChildren(left: Node, right: Node, r: Box, depth: nat, S: set<AirObject>)
    requires r.IsRegion() && Dyadic(r, depth) && Sound(Internal(left, right), r, depth)
    requires Exact(Internal(left, right), r, depth, S)
    ensures r.Width(depth % 3) % 2 == 0
    ensures var lr := LeftRegion(r, depth);
      lr.IsRegion() && Dyadic(lr, depth + 1) && Sound(left, lr, depth + 1) && Exact(left, lr, depth + 1, S)
    ensures var rr := RightRegion(r, depth);
      rr.IsRegion() && Dyadic(rr, depth + 1) && Sound(right, rr, depth + 1) && Exact(right, rr, depth + 1, S)
  {
    DyadicSplit(r, depth);
    ChildRegionsInside(r, depth, r.Origin());
  }

  /** The internal step of RemoveExact: exact children make the rebuilt or collapsed node exact. */
  lemma RemoveInternalExact(left: Node, right: Node, obj: AirObject, r: Box, depth: nat, S: set<AirObject>)
    requires r.IsRegion() && r.Width(depth % 3) % 2 == 0 && AllHaveVolume(S)
    requires var lr := LeftRegion(r, depth);
      Exact(if obj.Intersects(lr) then Remove(left, obj, lr, depth + 1) else left, lr, depth + 1, S - {obj})
    requires var rr := RightRegion(r, depth);
      Exact(if obj.Intersects(rr) then Remove(right, obj, rr, depth + 1) else right, rr, depth + 1, S - {obj})
    ensures Exact(Remove(Internal(left, right), obj, r, depth), r, depth, S - {obj})
  {
    var lr, rr := LeftRegion(r, depth), RightRegion(r, depth);
    var left' := if obj.Intersects(lr) then Remove(left, obj, lr, depth + 1) else left;
    var right' := if obj.Intersects(rr) then Remove(right, obj, rr, depth + 1) else right;
    if left'.Empty? && right'.Empty? {
      assert Remove(Internal(left, right), obj, r, depth) == Empty;
      EmptyHalvesExact(r, depth, S, obj);
    } else {
      var m := Remove(Internal(left, right), obj, r, depth);
      assert m.Internal? && m.left == left' && m.right == right';
    }
  }

  /** Two empty halves of an evenly split region mean no object with volume meets the region. */
  lemma EmptyHalvesExact(r: Box, depth: nat, S: set<AirObject>, obj: AirObject)
    requires r.IsRegion() && r.Width(depth % 3) % 2 == 0 && AllHaveVolume(S)
    requires Exact(Empty, LeftRegion(r, depth), depth + 1, S - {obj})
    requires Exact(Empty, RightRegion(r, depth), depth + 1, S - {obj})
    ensures Exact(Empty, r, depth, S - {obj})
  {
    forall o | o in S - {obj} ensures !o.Intersects(r) {
      EvenSplitCovers(o, r, depth);
    }
  }

  // ---------------------------------------------------------------------
  // What the leaves hold
  // ---------------------------------------------------------------------

  /** In a power-of-two world the leaves under an exact node hold exactly the objects of S meeting its region. */
  lemma {:induction false} StoredIsShare(n: Node, r: Box, depth: nat, S: set<AirObject>)
    requires r.IsRegion() && Dyadic(r, depth) && Sound(n, r, depth) && AllHaveVolume(S)
    requires Exact(n, r, depth, S)
    ensures forall o :: o in Stored(n) <==> o in S && o.Intersects(r)
    decreases n
  {
    match n
    case Empty =>
    case Leaf(data) =>
    case Data(objects) =>
    case Internal(left, right) =>
      var lr, rr := LeftRegion(r, depth), RightRegion(r, depth);
      DyadicSplit(r, depth);
      ChildRegionsInside(r, depth, r.Origin());
      StoredIsShare(left, lr, depth + 1, S);
      StoredIsShare(right, rr, depth + 1, S);
      forall o ensures o in Stored(n) <==> o in S && o.Intersects(r) {
        ChildMeetImpliesParent(o, r, depth);
        if o in S {
          EvenSplitCovers(o, r, depth);
        }
      }
  }
}
