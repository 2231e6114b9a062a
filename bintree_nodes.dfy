/**
 * The nodes of the bintree and the insert and remove operations every node
 * kind implements (BintreeNode.java). Each node owns its children and list
 * alone (only the empty node is shared), so a node is a value here and each
 * operation returns the node that replaces it in its parent.
 */
module BintreeNodes {
  import opened Boxes
  import opened AirObjects
  import opened CommonBox
  import opened SimpleLists

  /**
   * EmptyNode (the shared flyweight), LeafNode with its list, InternalNode with
   * its two children, and DataNode, the alternative leaf kept alongside LeafNode.
   */
  datatype Node =
    | Empty
    | Leaf(data: seq<AirObject>)
    | Internal(left: Node, right: Node)
    | Data(objects: seq<AirObject>)

  /** A leaf splits once it holds more than this many objects. */
  const MaxObjects: nat := 3

  /** Every object in s meets the region r. */
  predicate AllMeet(s: seq<AirObject>, r: Box) {
    forall i :: 0 <= i < |s| ==> s[i].Intersects(r)
  }

  /**
   * The shape every reachable node has: listed objects meet the node's region,
   * and internal nodes sit only in regions with some width of at least 2 (a
   * smaller region never splits, see UnsplittableKeepsLeaf).
   */
  predicate Sound(n: Node, r: Box, depth: nat) {
    match n
    case Empty => true
    case Leaf(data) => AllMeet(data, r)
    case Data(objects) => AllMeet(objects, r)
    case Internal(left, right) =>
      Splittable(r) &&
      Sound(left, LeftRegion(r, depth), depth + 1) && Sound(right, RightRegion(r, depth), depth + 1)
  }

  /** A fresh internal node with two empty children is sound in any region that can be split. */
  lemma EmptyInternalSound(r: Box, depth: nat)
    requires Splittable(r)
    ensures Sound(Internal(Empty, Empty), r, depth)
  {
    assert Sound(Empty, LeftRegion(r, depth), depth + 1) && Sound(Empty, RightRegion(r, depth), depth + 1);
  }

  /** In a region no wider than 1 on every axis all meeting objects share its origin, so the leaf is kept. */
  lemma UnsplittableKeepsLeaf(s: seq<AirObject>, r: Box)
    requires r.IsRegion() && !Splittable(r) && AllMeet(s, r) && |s| > 0
    ensures AllIntersect(s)
  {
    forall i | 0 <= i < |s| ensures s[i].Bounds().Contains(r.Origin()) {
      SmallRegionOriginInside(s[i], r);
    }
    CommonPointKeepsLeaf(s, r.Origin());
  }

  /**
   * BintreeNode.insert: the node that replaces n after inserting obj into the
   * region r at the given depth. EmptyNode.insert builds a new leaf and inserts
   * into it.
   */
  function Insert(n: Node, obj: AirObject, r: Box, depth: nat): (m: Node)
    requires r.IsRegion() && Sound(n, r, depth) && obj.Intersects(r)
    ensures Sound(m, r, depth) && !m.Empty?
    decreases Measure(r, depth), 3, 0
  {
    match n
    case Empty => LeafInsert([], obj, r, depth)
    case Leaf(data) => LeafInsert(data, obj, r, depth)
    case Data(objects) => DataInsert(objects, obj, r, depth)
    case Internal(left, right) => InternalInsert(left, right, obj, r, depth)
  }

  /**
   * LeafNode.insert: append obj; with more than three objects that do not all
   * share a common box, re-insert them all, in list order, into a new internal node.
   */
  function LeafInsert(data: seq<AirObject>, obj: AirObject, r: Box, depth: nat): (m: Node)
    requires r.IsRegion() && AllMeet(data, r) && obj.Intersects(r)
    ensures Sound(m, r, depth) && !m.Empty?
    decreases Measure(r, depth), 2, 0
  {
    var grown := data + [obj];
    if |grown| > MaxObjects && !AllIntersect(grown) then
      (if !Splittable(r) then UnsplittableKeepsLeaf(grown, r); assert false; Empty
       else EmptyInternalSound(r, depth); ReinsertAll(Internal(Empty, Empty), grown, r, depth))
    else Leaf(grown)
  }

  /** DataNode.insert: the same policy, with checkAllIntersect as the split exception. */
  function DataInsert(objects: seq<AirObject>, obj: AirObject, r: Box, depth: nat): (m: Node)
    requires r.IsRegion() && AllMeet(objects, r) && obj.Intersects(r)
    ensures Sound(m, r, depth) && !m.Empty?
    decreases Measure(r, depth), 2, 0
  {
    var grown := objects + [obj];
    assert AllMeet(grown, r);
    if |grown| > MaxObjects && !CheckAllIntersect(grown) then
      (CheckAllIntersectAgrees(grown);
       if !Splittable(r) then UnsplittableKeepsLeaf(grown, r); assert false; Empty
       else EmptyInternalSound(r, depth); ReinsertAll(Internal(Empty, Empty), grown, r, depth))
    else Data(grown)
  }

  /** The loop of LeafNode.insert that re-inserts objs one by one into the internal node n. */
  function ReinsertAll(n: Node, objs: seq<AirObject>, r: Box, depth: nat): (m: Node)
    requires r.IsRegion() && n.Internal? && Sound(n, r, depth) && AllMeet(objs, r)
    ensures m.Internal? && Sound(m, r, depth)
    decreases Measure(r, depth), 1, |objs|
  {
    if objs == [] then n
    else ReinsertAll(InternalInsert(n.left, n.right, objs[0], r, depth), objs[1..], r, depth)
  }

  /**
   * InternalNode.insert: forward obj to each child whose region it meets
   * (both, for an object straddling the split) and keep the returned nodes.
   */
  function InternalInsert(left: Node, right: Node, obj: AirObject, r: Box, depth: nat): (m: Node)
    requires r.IsRegion() && Sound(Internal(left, right), r, depth) && obj.Intersects(r)
    ensures m.Internal? && Sound(m, r, depth)
    decreases Measure(r, depth), 0, 0
  {
    ChildMeasureDecreases(r, depth);
    var lr, rr := LeftRegion(r, depth), RightRegion(r, depth);
    var left' := if obj.Intersects(lr) then Insert(left, obj, lr, depth + 1) else left;
    var right' := if obj.Intersects(rr) then Insert(right, obj, rr, depth + 1) else right;
    Internal(left', right')
  }

  /**
   * BintreeNode.remove: the node that replaces n after removing obj. A leaf
   * drops the first occurrence and becomes Empty when nothing is left; an
   * internal node routes like insert and becomes Empty only when both children
   * are Empty. Leaves are never merged back.
   */
  function Remove(n: Node, obj: AirObject, r: Box, depth: nat): (m: Node)
    ensures Sound(n, r, depth) ==> Sound(m, r, depth)
    ensures n.Empty? ==> m.Empty?
    ensures m.Leaf? ==> n.Leaf? && m.data == RemoveFirst(n.data, obj) && m.data != []
    ensures m.Data? ==> n.Data? && m.objects == RemoveFirst(n.objects, obj) && m.objects != []
  {
    match n
    case Empty => Empty
    case Leaf(data) =>
      var rest := RemoveFirst(data, obj);
      RemoveKeepsMeeting(data, obj, r);
      if |rest| == 0 then Empty else Leaf(rest)
    case Data(objects) =>
      var rest := RemoveFirst(objects, obj);
      RemoveKeepsMeeting(objects, obj, r);
      if |rest| == 0 then Empty else Data(rest)
    case Internal(left, right) =>
      var lr, rr := LeftRegion(r, depth), RightRegion(r, depth);
      var left' := if obj.Intersects(lr) then Remove(left, obj, lr, depth + 1) else left;
      var right' := if obj.Intersects(rr) then Remove(right, obj, rr, depth + 1) else right;
      if left'.Empty? && right'.Empty? then Empty else Internal(left', right')
  }

  lemma RemoveKeepsMeeting(s: seq<AirObject>, obj: AirObject, r: Box)
    ensures AllMeet(s, r) ==> AllMeet(RemoveFirst(s, obj), r)
  {
    var rest := RemoveFirst(s, obj);
    if AllMeet(s, r) {
      forall i | 0 <= i < |rest| ensures rest[i].Intersects(r) {
        assert rest[i] in multiset(rest);
        assert rest[i] in multiset(s);
      }
    }
  }

  /** The tree holds no DataNode: EmptyNode builds LeafNodes, so the trees Bintree grows are of this kind. */
  predicate NoDataNodes(n: Node) {
    match n
    case Data(_) => false
    case Internal(left, right) => NoDataNodes(left) && NoDataNodes(right)
    case _ => true
  }

  /** Inserting into a tree without DataNodes creates none. */
  lemma {:induction false} InsertCreatesNoDataNode(n: Node, obj: AirObject, r: Box, depth: nat)
    requires r.IsRegion() && Sound(n, r, depth) && obj.Intersects(r) && NoDataNodes(n)
    ensures NoDataNodes(Insert(n, obj, r, depth))
    decreases Measure(r, depth), 3, 0
  {
    match n
    case Empty => LeafInsertCreatesNoDataNode([], obj, r, depth);
    case Leaf(data) => LeafInsertCreatesNoDataNode(data, obj, r, depth);
    case Internal(left, right) => InternalInsertCreatesNoDataNode(left, right, obj, r, depth);
  }

  lemma {:induction false} LeafInsertCreatesNoDataNode(data: seq<AirObject>, obj: AirObject, r: Box, depth: nat)
    requires r.IsRegion() && AllMeet(data, r) && obj.Intersects(r)
    ensures NoDataNodes(LeafInsert(data, obj, r, depth))
    decreases Measure(r, depth), 2, 0
  {
    var grown := data + [obj];
    if |grown| > MaxObjects && !AllIntersect(grown) && Splittable(r) {
      ReinsertCreatesNoDataNode(Internal(Empty, Empty), grown, r, depth);
    }
  }

  lemma {:induction false} ReinsertCreatesNoDataNode(n: Node, objs: seq<AirObject>, r: Box, depth: nat)
    requires r.IsRegion() && n.Internal? && Sound(n, r, depth) && AllMeet(objs, r) && NoDataNodes(n)
    ensures NoDataNodes(ReinsertAll(n, objs, r, depth))
    decreases Measure(r, depth), 1, |objs|
  {
    if objs != [] {
      InternalInsertCreatesNoDataNode(n.left, n.right, objs[0], r, depth);
      ReinsertCreatesNoDataNode(InternalInsert(n.left, n.right, objs[0], r, depth), objs[1..], r, depth);
    }
  }

  lemma {:induction false} InternalInsertCreatesNoDataNode(left: Node, right: Node, obj: AirObject, r: Box, depth: nat)
    requires r.IsRegion() && Sound(Internal(left, right), r, depth) && obj.Intersects(r)
    requires NoDataNodes(Internal(left, right))
    ensures NoDataNodes(InternalInsert(left, right, obj, r, depth))
    decreases Measure(r, depth), 0, 0
  {
    ChildMeasureDecreases(r, depth);
    var lr, rr := LeftRegion(r, depth), RightRegion(r, depth);
    if obj.Intersects(lr) {
      InsertCreatesNoDataNode(left, obj, lr, depth + 1);
    }
    if obj.Intersects(rr) {
      InsertCreatesNoDataNode(right, obj, rr, depth + 1);
    }
  }

  /** Removing never creates a DataNode. */
  lemma {:induction false} RemoveCreatesNoDataNode(n: Node, obj: AirObject, r: Box, depth: nat)
    requires NoDataNodes(n)
    ensures NoDataNodes(Remove(n, obj, r, depth))
    decreases n
  {
    match n
    case Internal(left, right) =>
      RemoveCreatesNoDataNode(left, obj, LeftRegion(r, depth), depth + 1);
      RemoveCreatesNoDataNode(right, obj, RightRegion(r, depth), depth + 1);
    case _ =>
  }

  // ---------------------------------------------------------------------
  // The split policy at a glance
  // ---------------------------------------------------------------------

  /** EmptyNode.insert gives a fresh leaf holding exactly the object: one object never splits. */
  lemma EmptyInsertMakesLeaf(obj: AirObject, r: Box, depth: nat)
    requires r.IsRegion() && obj.Intersects(r)
    ensures Insert(Empty, obj, r, depth) == Leaf([obj])
  {
    assert [] + [obj] == [obj];
  }

  /** A leaf that stays within three objects, or whose objects share a box, just appends. */
  lemma LeafInsertAppends(data: seq<AirObject>, obj: AirObject, r: Box, depth: nat)
    requires r.IsRegion() && AllMeet(data, r) && obj.Intersects(r)
    requires |data| < MaxObjects || AllIntersect(data + [obj])
    ensures LeafInsert(data, obj, r, depth) == Leaf(data + [obj])
  {
  }

  /** A fourth object without a box shared by all turns the leaf into an internal node. */
  lemma LeafInsertSplits(data: seq<AirObject>, obj: AirObject, r: Box, depth: nat)
    requires r.IsRegion() && AllMeet(data, r) && obj.Intersects(r)
    requires |data| >= MaxObjects && !AllIntersect(data + [obj])
    ensures LeafInsert(data, obj, r, depth).Internal? && Splittable(r)
  {
    if !Splittable(r) {
      UnsplittableKeepsLeaf(data + [obj], r);
    }
  }

  /** Removing an object a leaf does not hold returns the same leaf. */
  lemma RemoveAbsentKeepsLeaf(data: seq<AirObject>, obj: AirObject, r: Box, depth: nat)
    requires data != [] && obj !in data
    ensures Remove(Leaf(data), obj, r, depth) == Leaf(data)
  {
  }

  /** InternalNode.remove becomes Empty only when both children have become Empty. */
  lemma InternalRemoveCollapses(left: Node, right: Node, obj: AirObject, r: Box, depth: nat)
    ensures var m := Remove(Internal(left, right), obj, r, depth);
      m.Empty? || (m.Internal? && !(m.left.Empty? && m.right.Empty?))
    ensures !left.Empty? && !obj.Intersects(LeftRegion(r, depth)) ==> Remove(Internal(left, right), obj, r, depth).Internal?
    ensures !right.Empty? && !obj.Intersects(RightRegion(r, depth)) ==> Remove(Internal(left, right), obj, r, depth).Internal?
  {
  }
}
