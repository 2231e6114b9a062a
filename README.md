# Air traffic database: a verified model

This project models the core of an air-traffic database in Dafny. The database
stores flying objects: airplanes, balloons, birds, drones and rockets. Each
object has a unique name and an axis-aligned box in a 1024 × 1024 × 1024 world.
It keeps two indexes over the same objects:

- **a skip list keyed by name.** It serves `add`, `delete`, `print(name)`,
  `rangeprint` and `printskiplist`.
- **a bintree.** This is a three-dimensional binary space partition that splits
  its region in half on x, then y, then z, in turn, at each level. It serves
  `printbintree`, `collisions` and `intersect`.
  - A leaf keeps up to three objects.
  - A leaf keeps more than three objects when one box is shared by all of them.
  - Otherwise the leaf becomes an internal node, and its objects are
    re-inserted into the two halves.
  - An internal node whose two children both become empty collapses into the
    shared empty node.

The model follows the code's structure file by file.

- `boxes.dfy`: boxes, points, the world region and the child regions.
- `air_object.dfy`: objects and their intersection tests.
- `names.dfy`: Java's `String.compareTo`, on UTF-16 code units.
- `simple_list.dfy`: the array-backed list, as a class over an array.
- `common_box.dfy`: the "all objects share a box" tests of the two leaf
  kinds, as folds and as loops.
- `bintree_nodes.dfy`: insert and remove of the empty, leaf, internal and
  data nodes, as functions returning the replacement node.
- `node_reports.dfy`: the recursive `print`, `collisions` and `intersect`
  walks, producing structured lines.
- `name_order.dfy`: the bubble sort a leaf applies before printing.
- `tree_contents.dfy`: what the leaves hold.
- `query_dedup.dfy` and `collision_dedup.dfy`: the exactly-once theorems for
  queries and collisions.
- `skip_list.dfy`: the skip list, as a class.
- `bintree.dfy`: the bintree, as a class.
- `world_db.dfy`: the database coupling the two indexes.

### Main results

- **Contents invariant.** The bintree class keeps the tree sound. In a
  power-of-two world, every node holds exactly the live objects that meet its
  region.
- **The database invariant.** The skip list's keys are the objects' names, the
  keys are distinct, and the skip list holds the same objects as the bintree.
  Every operation of the database preserves this.
- **Collisions.** Each leaf reports a pair only when the corner where the two
  boxes start to overlap lies in that leaf. As a result, every colliding pair
  of the database is reported exactly once, with the smaller name first.
- **Intersect.** The code as written reports an object in the leaf holding the
  object's origin. It can miss an object altogether (see Findings). The
  corrected rule reports it in the leaf holding the corner where the object's
  overlap with the query begins. With that rule, every object meeting the query
  is reported exactly once.
- **Skip list.** The multi-level search finds the predecessor position. Insert
  splices in sorted position. Remove undoes insert. Range returns exactly the
  values whose keys lie in the range, in ascending order.

### Design notes

- **Reference identity.** The Java code compares objects by reference. The model
  compares them as values (see "Left out").
- **Forward pointers.** A skip-list node's forward pointer at level `i` is
  derived from the sequence of entries: it is the next entry taller than `i`.
- **The node search.** `FindPredecessor` performs the walk the Java code does,
  from the top level down.
- **Random levels.** `randomLevel` is given its coin flips as a sequence of
  booleans.
- **Where the code and the repository's documentation or tests disagree, the
  model follows the code:**
  - A leaf's object lines are indented at the leaf's own depth, not one level
    deeper.
  - Both children get width `w / 2`, including for odd widths.
  - An internal node collapses only when both children are empty
    (src/InternalNode.java:87-92). It does not merge back into a leaf, although
    the tests testRemoveMergeSimple and testRemoveMergeDuplicates
    (src/InternalNodeTest.java:126-146 and 172-196) expect a `LeafNode` after
    a removal leaves three objects.

## Model

| member | source | states |
|---|---|---|
| Names.CompareZeroIffEqual | src/AirObject.java:119-121 | comparing two names gives 0 exactly when they are equal |
| Names.CompareAntisymmetric | src/AirObject.java:119-121 | swapping the two names negates the comparison |
| Names.CompareTransitive | src/SkipList.java:175-181 | the name order is transitive, which the skip list's sorted order relies on |
| Names.CompareLeqLess | src/SkipList.java:175-181 | at most, then strictly below, gives strictly below |
| Names.CompareLessLeq | src/SkipList.java:175-181 | strictly below, then at most, gives strictly below |
| Names.UnitsShape | src/AirObject.java:119-121 | a character below U+10000 is one UTF-16 unit, itself and never a surrogate; any other is a high surrogate followed by a low surrogate |
| Names.UnitLengthIsEncodingLength | src/AirObject.java:119-121 | a string's length counted as Java counts it is the length of its UTF-16 encoding |
| Names.Utf16Injective | src/AirObject.java:119-121 | distinct strings have distinct UTF-16 encodings |
| Names.CompareUnitsZeroIffEqual | src/AirObject.java:119-121 | comparing two unit sequences gives 0 exactly when they are equal |
| Names.CompareUnitsAntisymmetric | src/AirObject.java:119-121 | swapping two unit sequences negates the comparison |
| Names.CompareUnitsTransitive | src/SkipList.java:175-181 | the unit-sequence order is transitive |
| Names.CompareStrings | src/AirObject.java:119-121 | String.compareTo, character by character: at the first differing character the difference of its first differing unit, else the difference of the unit lengths; its properties are the Compare lemmas above |
| Names.CompareUnitsCommonPrefix | src/AirObject.java:119-121 | a common prefix of units does not change the unit comparison |
| Names.CompareUnitsFirstChar | src/AirObject.java:119-121 | two distinct leading characters decide the unit comparison, and their first differing unit gives the result |
| Names.CompareIsUnitOrder | src/AirObject.java:119-121 | the character-by-character comparison equals the comparison of the two UTF-16 encodings, for all strings |
| Names.SupplementarySortsByUnits | src/AirObject.java:119-121 | U+10000 has length 2 and sorts below U+FFFF, as it does in Java |
| Boxes.LowCorner | src/LeafNode.java:147-153 | the corner built from the larger origin on each axis lies in both boxes when they overlap and have volume |
| Boxes.BoxesOverlapSymmetric | src/InternalNode.java:196-201 | the box overlap test does not depend on argument order |
| Boxes.BoxesOverlapIffCommonPoint | src/InternalNode.java:196-201 | two boxes with volume overlap exactly when some point lies in both |
| Boxes.TouchingBoxesDoNotOverlap | src/InternalNode.java:196-201 | boxes that only touch on a face do not overlap |
| Boxes.ChildRegionsInside | src/InternalNode.java:21-50 | both child regions are regions inside the parent |
| Boxes.EvenSplitPartitions | src/InternalNode.java:21-50 | an even width on the split axis divides the region into two disjoint halves that cover it |
| Boxes.OddSplitLeavesGap | src/InternalNode.java:21-50 | with an odd width, the last slice of the region lies in neither child |
| Boxes.ChildMeasureDecreases | src/InternalNode.java:21-50 | descending into a child of a splittable region shrinks the termination measure, so insertion terminates |
| Boxes.WorldIsDyadic | src/Bintree.java:26-30 | a power-of-two world satisfies the power-of-two-widths invariant |
| Boxes.DyadicSplit | src/InternalNode.java:21-50 | in a power-of-two region that can split, the split width is even and both children keep the invariant |
| Boxes.DyadicUnsplittableIsUnit | src/LeafNode.java:32-41 | a power-of-two region that cannot split is a unit cube |
| Boxes.PowersOfTwoArePositive | src/Bintree.java:26-30 | a power of two is at least 1 |
| Boxes.BoxesOverlap | src/InternalNode.java:196-201 | boxesOverlap: strict overlap on every axis; its meaning is BoxesOverlapIffCommonPoint |
| AirObjects.CommonFieldsDetermineBox | src/AirObject.java:130-135 | the common fields of two objects agree only when their names and boxes agree |
| AirObjects.IntersectsIsBoxesOverlap | src/AirObject.java:171-198 | the object's intersection test is the node overlap test, in either order |
| AirObjects.IntersectsIffCommonPoint | src/AirObject.java:171-198 | an object and a box, both with volume, intersect exactly when they share a point |
| AirObjects.IntersectsObjectSymmetric | src/AirObject.java:153-158 | object-to-object intersection is symmetric |
| AirObjects.TouchingDoesNotIntersect | src/AirObject.java:171-198 | touching on a face is not intersecting |
| AirObjects.IntersectsOwnBox | src/AirObject.java:153-158 | an object with volume intersects itself |
| AirObjects.CompareToByName | src/AirObject.java:119-121 | objects compare as their names do: 0 iff the names are equal, antisymmetric, and decided by the names alone |
| AirObjects.SmallRegionOriginInside | src/LeafNode.java:32-41 | an object meeting a region no wider than 1 on every axis contains the region's origin |
| AirObjects.AirObject.Intersects | src/AirObject.java:171-198 | intersects(box): no axis is separated, touching counting as separated; its meaning is IntersectsIffCommonPoint |
| AirObjects.AirObject.IntersectsObject | src/AirObject.java:153-158 | intersects(other): the box test applied to the other object's box; symmetric by IntersectsObjectSymmetric |
| AirObjects.AirObject.CompareTo | src/AirObject.java:119-121 | compareTo: the comparison of the two names; its properties are CompareToByName |
| NameOrder.InsertByName | src/LeafNode.java:113-122 | inserting by name keeps the list sorted and adds exactly that object |
| NameOrder.SortByName | src/LeafNode.java:113-122 | the reference sort is sorted and a permutation of its input |
| NameOrder.SortedArrangementUnique | src/LeafNode.java:113-122 | two sorted permutations of a list with distinct names are equal |
| NameOrder.BubbleSortByName | src/LeafNode.java:107-122 | the bubble sort on the array's first count items leaves them sorted, permuted, equal to the reference sort when names are distinct, and the rest of the array unchanged |
| NameOrder.SwapNeighbours | src/LeafNode.java:117-119 | the swap exchanges items[j] and items[j + 1] and leaves every other slot as it was |
| NameOrder.BubblePass | src/LeafNode.java:115-121 | one inner pass keeps the multiset and moves the largest remaining item into the sorted suffix |
| NameOrder.DistinctNamesPreserved | src/LeafNode.java:113-122 | a permutation keeps names distinct |
| SimpleLists.RemoveFirst | src/SimpleList.java:85-102 | removing the first occurrence drops one copy of x and changes nothing when x is absent |
| SimpleLists.RemoveFirstAt | src/SimpleList.java:85-102 | removing the first occurrence at position i splices out exactly that position |
| SimpleLists.SimpleList.constructor | src/SimpleList.java:28-31 | a new list is empty with capacity 4 |
| SimpleLists.SimpleList.Size | src/SimpleList.java:38-40 | size is the number of stored objects |
| SimpleLists.SimpleList.Get | src/SimpleList.java:48-54 | get returns the object at an index in [0, size) and throws IndexOutOfBoundsException for any other index |
| SimpleLists.SimpleList.Add | src/SimpleList.java:61-68 | add appends, doubling the array when it is full and keeping it otherwise |
| SimpleLists.SimpleList.Clear | src/SimpleList.java:73-76 | clear leaves an empty list with a fresh array of capacity 4 |
| SimpleLists.SimpleList.Remove | src/SimpleList.java:85-102 | remove drops the first occurrence and returns it, or returns null and changes nothing |
| SimpleLists.SimpleList.RemoveAt | src/SimpleList.java:92-99 | the shift loop closes the gap at position i |
| SimpleLists.SimpleList.Resize | src/SimpleList.java:108-113 | resize doubles the capacity and keeps the contents |
| SimpleLists.FirstIndex | src/SimpleList.java:86-89 | the search stops at the first occurrence, or at size when there is none |
| SimpleLists.ShiftLeft | src/SimpleList.java:92-95 | shifting left removes position i from the first n slots and leaves the slots from n - 1 on as they were |
| CommonBox.OverlapStepMeaning | src/LeafNode.java:62-82 | one step of the running overlap holds exactly the points of both boxes, and has volume when present |
| CommonBox.OverlapFoldMeaning | src/LeafNode.java:51-85 | the folded overlap holds exactly the points common to the starting box and every object |
| CommonBox.AllIntersectIffCommonPoint | src/LeafNode.java:51-85 | allIntersect holds exactly when all objects share a point; it is false on an empty list and true on one object |
| CommonBox.CommonPointKeepsLeaf | src/LeafNode.java:51-85 | objects sharing a point pass allIntersect |
| CommonBox.AllIntersectScan | src/LeafNode.java:51-85 | the loop computes allIntersect |
| CommonBox.FoldsAgree | src/DataNode.java:45-84 | the corner-form fold of DataNode and the width-form fold of LeafNode agree step by step |
| CommonBox.CheckAllIntersectAgrees | src/DataNode.java:45-84 | DataNode's test agrees with LeafNode's on non-empty lists, and differs only on the empty list |
| CommonBox.CheckAllIntersectScan | src/DataNode.java:45-84 | the loop computes checkAllIntersect |
| CommonBox.AllIntersect | src/LeafNode.java:51-85 | allIntersect: false on an empty list, else the running overlap from the first object never becomes empty; its meaning is AllIntersectIffCommonPoint |
| CommonBox.CheckAllIntersect | src/DataNode.java:45-84 | checkAllIntersect: true on at most one object, else the shrinking corner box never becomes empty; related to AllIntersect by CheckAllIntersectAgrees |
| BintreeNodes.UnsplittableKeepsLeaf | src/LeafNode.java:32-41 | in a region that cannot split, the objects meeting it share a box, so the leaf never splits there |
| BintreeNodes.Insert | src/EmptyNode.java:20-27 | insertion dispatches on the node kind and keeps the tree sound and non-empty |
| BintreeNodes.LeafInsert | src/LeafNode.java:27-45 | leaf insertion appends and, with more than three objects and no shared box, splits into an internal node, keeping the tree sound |
| BintreeNodes.DataInsert | src/DataNode.java:88-123 | DataNode insertion keeps the tree sound and non-empty |
| BintreeNodes.ReinsertAll | src/LeafNode.java:35-40 | re-inserting a split leaf's objects yields a sound internal node |
| BintreeNodes.InternalInsert | src/InternalNode.java:18-53 | internal insertion sends the object to each child it meets and stays a sound internal node |
| BintreeNodes.Remove | src/InternalNode.java:57-93 | removal keeps soundness; a resulting leaf holds the old leaf minus the first occurrence and is non-empty; an empty node stays empty |
| BintreeNodes.RemoveKeepsMeeting | src/LeafNode.java:88-95 | removal from a leaf keeps every remaining object meeting the region |
| BintreeNodes.InsertCreatesNoDataNode | src/InternalNode.java:18-53 | inserting into a tree of empty, leaf and internal nodes creates no DataNode |
| BintreeNodes.LeafInsertCreatesNoDataNode | src/LeafNode.java:27-45 | leaf insertion creates no DataNode |
| BintreeNodes.ReinsertCreatesNoDataNode | src/LeafNode.java:35-40 | re-inserting a split leaf's objects creates no DataNode |
| BintreeNodes.InternalInsertCreatesNoDataNode | src/InternalNode.java:18-53 | internal insertion creates no DataNode |
| BintreeNodes.RemoveCreatesNoDataNode | src/InternalNode.java:57-93 | removal creates no DataNode |
| BintreeNodes.EmptyInsertMakesLeaf | src/EmptyNode.java:20-27 | inserting into the empty node gives a leaf holding just that object |
| BintreeNodes.LeafInsertAppends | src/LeafNode.java:27-45 | a leaf within three objects, or whose objects share a box, appends the object and stays a leaf |
| BintreeNodes.LeafInsertSplits | src/LeafNode.java:32-41 | a fourth object without a shared box turns the leaf into an internal node, and only in a splittable region |
| BintreeNodes.RemoveAbsentKeepsLeaf | src/LeafNode.java:88-95 | removing an object a leaf does not hold returns the same leaf |
| BintreeNodes.InternalRemoveCollapses | src/InternalNode.java:86-92 | internal removal gives either the empty node or an internal node with a non-empty child; a child the object does not reach keeps the node internal |
| TreeContents.InsertStoresOnly | src/EmptyNode.java:20-27 | after insertion the leaves hold only the old objects and the inserted one |
| TreeContents.LeafInsertStoresOnly | src/LeafNode.java:27-45 | leaf insertion stores only the leaf's objects and the new one |
| TreeContents.DataInsertStoresOnly | src/DataNode.java:88-123 | DataNode insertion stores only its objects and the new one |
| TreeContents.ReinsertStoresOnly | src/LeafNode.java:35-40 | re-insertion stores only what the node held and the re-inserted objects |
| TreeContents.InternalInsertStoresOnly | src/InternalNode.java:18-53 | internal insertion stores only the children's objects and the new one |
| TreeContents.RemoveStoresOnly | src/InternalNode.java:57-93 | removal never adds an object to the leaves |
| TreeContents.RemoveFirstKeeps | src/SimpleList.java:85-102 | removing from a list leaves only objects it held |
| TreeContents.ChildMeetImpliesParent | src/InternalNode.java:21-50 | an object meeting a child region meets the parent |
| TreeContents.EvenSplitCovers | src/InternalNode.java:21-50 | an object with volume meeting an evenly split region meets one of its children, so insertion never drops it |
| TreeContents.ExactSeesOnlyRegion | src/InternalNode.java:21-50 | whether a node holds exactly the live objects of its region depends only on the objects meeting that region |
| TreeContents.InsertExact | src/Bintree.java:38-43 | inserting an object that is not yet held and meets the region keeps every node of a sound tree holding exactly the objects meeting its region, now including the new one |
| TreeContents.LeafInsertExact | src/LeafNode.java:27-45 | leaf insertion, splits included, keeps the exact-contents invariant |
| TreeContents.DataInsertExact | src/DataNode.java:88-123 | DataNode insertion keeps the exact-contents invariant |
| TreeContents.GrownListExact | src/LeafNode.java:29 | appending a new object that meets the region keeps the leaf list exact |
| TreeContents.SplitExact | src/LeafNode.java:35-40 | splitting an exact leaf yields an exact internal node |
| TreeContents.ReinsertExact | src/LeafNode.java:35-40 | re-inserting distinct new objects into an exact internal node keeps it exact for the grown set |
| TreeContents.InternalInsertExact | src/InternalNode.java:18-53 | internal insertion keeps the exact-contents invariant |
| TreeContents.RemoveFirstDistinct | src/SimpleList.java:85-102 | removing from a list without repeats leaves exactly the other objects |
| TreeContents.CutDistinct | src/SimpleList.java:92-99 | cutting a position out of a list without repeats leaves exactly the other objects |
| TreeContents.RemoveExact | src/Bintree.java:51-55 | in a power-of-two region, removal keeps every node holding exactly the live objects meeting its region, without the removed one |
| TreeContents.StoredIsShare | src/InternalNode.java:18-53 | in a power-of-two region, the leaves hold exactly the live objects meeting the region |
| NodeReports.HeaderCountAppend | src/InternalNode.java:96-119 | node lines of joined reports add up |
| NodeReports.ListedLines | src/LeafNode.java:125-129 | one object line per object, in order, at the given indent |
| NodeReports.MatchLines | src/LeafNode.java:209-213 | one match line per object, in order |
| NodeReports.ObjectLinesHaveNoHeader | src/LeafNode.java:125-129 | object lines are not node lines |
| NodeReports.PrintCountsNodes | src/InternalNode.java:96-119 | the count print returns is the number of nodes, and equals the number of node lines printed |
| NodeReports.LeafPrintSorted | src/LeafNode.java:98-131 | a leaf prints its header and then its objects sorted by name, each object once |
| NodeReports.ObjectsOfListed | src/LeafNode.java:125-129 | the objects of the object lines are the listed objects in order |
| NodeReports.ObjectsOfAppend | src/InternalNode.java:145-194 | the objects of joined reports are the joined objects |
| NodeReports.LeafMatches | src/LeafNode.java:176-195 | a leaf matches exactly the objects meeting the query whose anchor point lies in its region |
| NodeReports.DataMatches | src/DataNode.java:205-235 | a DataNode matches exactly the objects meeting the query |
| NodeReports.IntersectVisitsBounded | src/InternalNode.java:145-194 | intersect visits at least the starting node and at most every node |
| NodeReports.IntersectVisitsAllWhenCovering | src/InternalNode.java:145-194 | a query covering a power-of-two region visits every node below it |
| NodeReports.DyadicHasVolume | src/Bintree.java:26-30 | a power-of-two region has volume |
| NodeReports.IntersectReportsSound | src/LeafNode.java:167-216 | every object intersect shows meets the query and is stored in the tree |
| NodeReports.LeafIntersectObjects | src/LeafNode.java:197-213 | a leaf shows its matches sorted by name |
| NodeReports.DataIntersectObjects | src/DataNode.java:205-235 | a DataNode shows its matches in list order |
| NodeReports.InternalIntersectObjects | src/InternalNode.java:145-194 | an internal node shows what its overlapping children show, left before right, and skips children the query misses |
| NodeReports.Print | src/InternalNode.java:96-119 | print, per node kind (also src/EmptyNode.java:37-54, src/LeafNode.java:98-131, src/DataNode.java:145-167): the lines and the node count; its properties are PrintCountsNodes and LeafPrintSorted |
| NodeReports.LeafPairsFrom | src/LeafNode.java:141-163 | LeafNode.collisions' two loops: each intersecting pair i < j whose overlap corner lies in the leaf, smaller name first |
| NodeReports.DataPairsFrom | src/DataNode.java:186-200 | DataNode.collisions' two loops: each intersecting pair i < j in list order, one level deeper |
| NodeReports.Collisions | src/InternalNode.java:122-142 | collisions, per node kind (also src/EmptyNode.java:57-61, src/LeafNode.java:134-164, src/DataNode.java:171-201): an internal node recurses left then right; its exactly-once property is in CollisionDedup |
| NodeReports.Intersect | src/InternalNode.java:145-194 | intersect, per node kind (also src/EmptyNode.java:64-70, src/LeafNode.java:167-216, src/DataNode.java:205-235): visits only children whose region meets the query; its properties are the Intersect lemmas above |
| QueryDedup.DistinctMultiset | src/LeafNode.java:176-195 | a sequence without repeats (the matches of a leaf, the pairs it reports) counts each element once |
| QueryDedup.DisjointUnionMultiset | src/InternalNode.java:145-194 | the multiset of a disjoint union is the sum |
| QueryDedup.SubsetMultiset | src/InternalNode.java:145-194 | a subset gives a smaller multiset |
| QueryDedup.LeafMatchesDistinct | src/LeafNode.java:176-195 | the matches of a list without repeats have no repeats |
| QueryDedup.IntersectAtMostOnce | src/LeafNode.java:188-190 | with the origin rule as written, intersect shows each live object at most once and only if its anchor lies in the region |
| QueryDedup.SplitShares | src/InternalNode.java:145-194 | an even split divides the objects a region reports between its two children, with no overlap |
| QueryDedup.OverlapStartInRegionMeets | src/LeafNode.java:183-190 | an object whose overlap with the query starts inside a region meets that region |
| QueryDedup.OverlapStartRegionIsVisited | src/InternalNode.java:145-194 | a region holding the overlap start overlaps the query, so the walk reaches it |
| QueryDedup.IntersectFixedExactlyOnce | src/LeafNode.java:188-190 | with the corrected anchor, intersect shows each live object whose overlap start lies in the region exactly once |
| QueryDedup.WorldQueryExactlyOnce | src/Bintree.java:100-113 | in a power-of-two world, a query with volume inside the world shows every live object it meets exactly once |
| QueryDedup.WorldShareIsMeeting | src/Bintree.java:100-113 | for a query inside the world, the objects whose overlap starts inside the world are exactly those meeting the query |
| QueryDedup.ExampleTreeSplits | src/LeafNode.java:32-41 | inserting the four example objects splits the root on x into the two leaves the example needs |
| QueryDedup.LeafShowsIff | src/LeafNode.java:176-195 | a leaf shows an object exactly when it holds it, the object meets the query and its anchor lies in the region |
| QueryDedup.SkippedLeftChild | src/InternalNode.java:145-194 | when the query misses the left child only the right child's objects are shown |
| QueryDedup.ExampleTreeExact | src/Bintree.java:38-43 | the example tree holds exactly its live objects in each node |
| QueryDedup.ExampleQuerySide | src/InternalNode.java:145-194 | the example query misses the left half of the world and meets the right half |
| QueryDedup.ExampleAnchorsOfA | src/LeafNode.java:188-190 | the straddling object's origin is outside the right half but its overlap start is inside |
| QueryDedup.ExampleHidesA | src/LeafNode.java:188-190 | with the origin rule the straddling object is not shown |
| QueryDedup.ExampleShowsA | src/LeafNode.java:188-190 | with the overlap-start rule the straddling object is shown |
| QueryDedup.MissedObjectExample | src/LeafNode.java:188-190 | a tree built by insertion in which an object meeting the query is left out of intersect's output as written, and shown with the corrected rule |
| CollisionDedup.CollideSymmetric | src/LeafNode.java:146-153 | whether a pair collides in a region does not depend on order |
| CollisionDedup.PairsOfAppend | src/InternalNode.java:122-142 | the pairs of joined reports are the joined pairs |
| CollisionDedup.OrderedPair | src/LeafNode.java:155-159 | a collision line holds the pair with the smaller name first |
| CollisionDedup.DistinctJoin | src/LeafNode.java:140-164 | joining sequences without common elements or repeats has no repeats |
| CollisionDedup.PartnerPairs | src/LeafNode.java:142-161 | the inner loop reports, without repeats, exactly the later partners colliding in the region |
| CollisionDedup.LeafPairs | src/LeafNode.java:140-164 | the two loops report, without repeats, exactly the position pairs colliding in the region |
| CollisionDedup.LeafPairsOnce | src/LeafNode.java:140-164 | each pair a leaf is responsible for is reported once |
| CollisionDedup.LeafPairsAreShare | src/LeafNode.java:140-164 | an exact leaf's responsible pairs are the live pairs colliding with overlap start in its region |
| CollisionDedup.SplitPairShares | src/InternalNode.java:122-142 | an even split divides the region's pairs between the children without overlap |
| CollisionDedup.CollisionsExactlyOnce | src/InternalNode.java:122-142 | in a power-of-two region, every live colliding pair whose overlap starts in the region is reported exactly once |
| CollisionDedup.WorldCollisionsExactlyOnce | src/Bintree.java:80-86 | in a power-of-two world, every pair of colliding live objects is reported exactly once |
| CollisionDedup.PartnerLinesOrdered | src/LeafNode.java:142-161 | the inner loop writes the smaller name first |
| CollisionDedup.LeafLinesOrdered | src/LeafNode.java:134-164 | a leaf writes each pair with the smaller name first |
| CollisionDedup.CollisionsSmallerFirst | src/InternalNode.java:122-142 | every collision line of the tree has the smaller name first |
| SkipLists.NextAt | src/SkipList.java:54-104 | the forward pointer at level i is the next node taller than i, skipping only shorter nodes |
| SkipLists.BelowPrefix | src/SkipList.java:175-181 | the nodes strictly below the key form a prefix, ending at the first node not below it |
| SkipLists.IndexOfKey | src/SkipList.java:256-277 | the first position holding the key, or the length when there is none |
| SkipLists.TopHeight | src/SkipList.java:164-167 | the tallest node's height bounds every node and is attained |
| SkipLists.ValuesBetween | src/SkipList.java:324-350 | the range holds at most one value per node |
| SkipLists.NotBelowOnwards | src/SkipList.java:175-181 | in sorted order, once a key is not below the target, no later key is |
| SkipLists.BelowBackwards | src/SkipList.java:175-181 | in sorted order, a key before one below the target is below it too |
| SkipLists.FindPredecessor | src/SkipList.java:175-181 | the top-down walk stops at the last node strictly below the key |
| SkipLists.IndexOfKeyAtPrefix | src/SkipList.java:256-277 | the key is found right after the predecessor or not at all |
| SkipLists.SpliceSorted | src/SkipList.java:187-192 | splicing after the predecessor keeps the keys sorted |
| SkipLists.CutSorted | src/SkipList.java:231-235 | unlinking a node keeps the keys sorted |
| SkipLists.SkipList.constructor | src/SkipList.java:111-117 | a new skip list is empty at level 1 |
| SkipLists.SkipList.Size | src/SkipList.java:133-135 | size is the number of nodes |
| SkipLists.SkipList.Insert | src/SkipList.java:160-196 | insert splices the new node after the last key below it, raises the level to the node's height if taller, and adds one to size |
| SkipLists.SkipList.Find | src/SkipList.java:256-277 | find returns the value of the first node with the key, or null |
| SkipLists.SkipList.Remove | src/SkipList.java:207-247 | remove unlinks the first node with the key and returns its value, then lowers the level to the tallest remaining node but not below 1; an absent key changes nothing and returns null |
| SkipLists.SkipList.ShrinkLevel | src/SkipList.java:241-243 | the level drops to the tallest remaining node's height, not below 1 |
| SkipLists.SkipList.Range | src/SkipList.java:324-350 | range echoes its bounds and lists the values whose keys lie between them, in list order |
| SkipLists.SkipList.Print | src/SkipList.java:285-313 | an empty list prints as empty; otherwise the head depth, every node's height and value in order, and the count |
| SkipLists.BelowPrefixSkipped | src/SkipList.java:324-350 | starting the range walk at the first key not below start loses nothing |
| SkipLists.CollectRange | src/SkipList.java:339-347 | walking from the first key not below start and stopping past end collects exactly the values whose keys lie between the bounds |
| SkipLists.AboveEndIsSkipped | src/SkipList.java:324-350 | once a key passes the end, the rest of the range is empty |
| SkipLists.RandomLevel | src/SkipList.java:143-149 | the level is one more than the leading heads, capped at 10, and between 1 and 10 |
| SkipLists.LeadingHeads | src/SkipList.java:143-149 | the number of leading heads is at most the number of flips |
| SkipLists.LeadingHeadsStep | src/SkipList.java:143-149 | another head extends the run |
| SkipLists.LeadingHeadsStop | src/SkipList.java:143-149 | the run ends at the first tail or the end of the flips |
| SkipLists.InsertThenFind | src/SkipList.java:160-196 | after insert, find's position for the key is where it was spliced in |
| SkipLists.RemoveUndoesInsert | src/SkipList.java:207-247 | removing a key right after inserting it restores the nodes |
| SkipLists.ReversedRangeIsEmpty | src/SkipList.java:324-350 | a range whose start is after its end is empty |
| SkipLists.ValuesBetweenMembers | src/SkipList.java:324-350 | a value is in the range exactly when some node holding it has a key between start and end |
| SkipLists.LevelChain | src/SkipList.java:54-104 | the chain at level i holds only nodes taller than i |
| SkipLists.LevelChainAppend | src/SkipList.java:54-104 | the chain of joined node sequences is the joined chains |
| SkipLists.SpliceLinksLevels | src/SkipList.java:187-192 | splicing links the new node into exactly the levels below its height and leaves higher chains unchanged |
| SkipLists.UnlinkLeavesLevels | src/SkipList.java:231-235 | unlinking removes the node from exactly the chains it was on |
| Bintrees.Bintree.constructor | src/Bintree.java:26-30 | a new bintree is the empty node over an empty set |
| Bintrees.Bintree.Insert | src/Bintree.java:38-43 | insert replaces the root by the inserted tree, keeps the invariant, adds the object to the live set, and adds no other object to the leaves |
| Bintrees.Bintree.Remove | src/Bintree.java:51-55 | remove replaces the root, keeps the invariant, drops the object from the live set, and adds nothing to the leaves |
| Bintrees.Bintree.Print | src/Bintree.java:63-72 | print reports the preorder node lines and a count equal to the number of nodes and of node lines |
| Bintrees.Bintree.Collisions | src/Bintree.java:80-86 | collisions lists the smaller name first, and in a power-of-two world holding objects inside it lists every colliding pair exactly once |
| Bintrees.Bintree.Intersect | src/Bintree.java:100-113 | intersect echoes the query, gives the node walk's lines and its visit count (between 1 and all nodes), shows only stored objects meeting the query, and in a power-of-two world shows each one meeting a query inside it exactly once |
| Bintrees.InsertThenRemoveOnEmpty | src/EmptyNode.java:20-34 | inserting into the empty tree gives a one-object leaf, and removing the object gives the empty node again |
| Bintrees.EmptyTreeReports | src/AirControlTest.java:205-217 | the empty tree prints one E line with count 1, intersect visits one node and shows nothing, and collisions lists nothing |
| WorldDatabase.InWorldMeetsWorld | src/WorldDB.java:121-130 | a box passing the bounds check has volume and meets the world |
| WorldDatabase.InWorld | src/WorldDB.java:121-130 | isValid's bounds checks: origin in [0, 1024), widths in (0, 1024], far corner at most 1024 |
| WorldDatabase.KindIsValid | src/WorldDB.java:132-166 | isValid's per-kind checks: text fields present, counts positive, rates and trajectory not negative |
| WorldDatabase.IsValid | src/WorldDB.java:109-168 | isValid: a non-empty name, a box inside the world and the per-kind checks |
| WorldDatabase.MissingKeyIsMissingName | src/WorldDB.java:29-41 | in a name index, a missing key means no object of that name is held |
| WorldDatabase.SpliceKeepsIndex | src/WorldDB.java:29-41 | adding an object under a new name keeps keys equal to names and distinct, and adds the object to the held set |
| WorldDatabase.CutKeepsIndex | src/WorldDB.java:43-58 | removing an entry keeps the index and drops exactly that object |
| WorldDatabase.DeleteKeepsIndex | src/WorldDB.java:43-58 | delete returns null and changes nothing exactly when no held object has the name; otherwise it returns an object of that name and drops just it from the index and the held set |
| WorldDatabase.StrictlyAscending | src/SkipList.java:285-313 | sorted distinct keys are strictly ascending |
| WorldDatabase.IndexSize | src/SkipList.java:311 | a name index holds as many objects as nodes, so the printed count is the number of objects |
| WorldDatabase.RangeAscending | src/WorldDB.java:81-89 | range results are in strictly ascending name order |
| WorldDatabase.WorldDB.constructor | src/WorldDB.java:16-22 | a new database is valid and empty |
| WorldDatabase.WorldDB.Clear | src/WorldDB.java:24-27 | clear leaves a valid empty database with a new empty skip list at level 1 and a new bintree whose root is the empty node |
| WorldDatabase.WorldDB.Add | src/WorldDB.java:29-41 | add succeeds exactly when the object is valid and its name is new; then it holds the object in both indexes, the skip list gains the node (name, object, height from the coins: leading heads + 1, at most 10) just before the first name not below it, every other node keeping its height, the level becomes the larger of the old level and that height, and the tree is the bintree's insert of it; otherwise the skip list's entries and level and the tree's root are unchanged |
| WorldDatabase.WorldDB.Delete | src/WorldDB.java:43-58 | delete returns nothing exactly when no object has the name, and then the skip list's entries and level and the tree's root are unchanged; otherwise it returns the object of that name, removes it from both indexes, the skip list loses exactly the first node with that name, every other node keeping its height, its level shrinks to the tallest remaining node (at least 1), and the tree is the bintree's removal of it |
| WorldDatabase.WorldDB.Find | src/WorldDB.java:68-79 | print(name) finds an object of that name exactly when one is held |
| WorldDatabase.WorldDB.PrintSkipList | src/WorldDB.java:60-62 | the listing is empty exactly when the database is, and otherwise gives the head depth equal to the list level, one line per node with its height and object, every held object once in ascending name order, and a count equal to the number of objects |
| WorldDatabase.WorldDB.PrintBintree | src/WorldDB.java:64-66 | the bintree report counts its nodes and node lines |
| WorldDatabase.WorldDB.RangePrint | src/WorldDB.java:81-89 | rangeprint refuses exactly a start after the end; otherwise it lists every held object whose name lies between them, in ascending order |
| WorldDatabase.WorldDB.Collisions | src/WorldDB.java:91-93 | collisions lists every colliding pair of held objects exactly once, with the smaller name first |
| WorldDatabase.WorldDB.Intersect | src/WorldDB.java:95-107 | intersect refuses exactly a box outside the world; otherwise it echoes the box, gives exactly the bintree walk's lines and visit count, and shows every held object meeting it exactly once |

## Left out

- Output text: the model produces structured lines (headers, object lines, pairs) rather than strings. The exact wording, `toString` of each kind and line endings are not modelled.
- Randomness: `Random` is replaced by an explicit sequence of coin flips passed to `RandomLevel` and `WorldDB.Add`. The database constructor's `Random` parameter is dropped.
- Skip-list forward arrays: the pointer arrays are derived from the entries (`NextAt`, `LevelChain`) instead of stored, so aliasing between nodes is not modelled.
- Null values: null names, null objects and null text fields of a kind are not representable; a missing kind text field is `None`. `isValid`'s null-name check is the non-empty-name check.
- Integer width: Java `int` overflow is not modelled. Under validation every coordinate and sum stays below 2049, so it cannot occur on the database's paths.
- Rocket trajectory: a `double` in the Java code, modelled as `real`. NaN is not representable; the Java `< 0` test would let it through.
- `DataNode`: modelled for insert, remove and the three reports, but the contents invariant and the exactly-once theorems are stated for trees built from empty, leaf and internal nodes only, which are the only nodes the bintree creates.
- Bintrees.Bintree.Insert: requires the object to meet the world, to have volume and not to be held already, which is what the database's validation and name check guarantee before calling it.
- Bintrees.Bintree.Collisions: exactly-once is stated for power-of-two worlds holding objects inside them; the database's world (1024) is one.
- Bintrees.Bintree.Intersect: exactly-once is stated for power-of-two worlds and queries with volume inside them; it uses the corrected anchor (see Findings).
- WorldDatabase.WorldDB.Delete: returns the removed object rather than its printed text.
- WorldDatabase.WorldDB.Intersect: reports the corrected output (see Findings).
- SimpleLists.SimpleList.Remove: compares objects by value where the Java code compares references (`==`, src/SimpleList.java:89); the database keeps names unique, so two live objects are never equal values.
- SimpleLists.FirstIndex: compares by value where the Java code compares references, for the same reason.
- SimpleLists.ShiftLeft: the `data[size] = null` clean-up after the shift (src/SimpleList.java:98) is not modelled; the vacated slot keeps its old value, which lies beyond the contents.
- SimpleLists.SimpleList.Get: the exception's message text is not modelled, only its class.
- Merging an internal node back into a leaf: src/InternalNodeTest.java:126-146 and 172-196 expect it, but src/InternalNode.java:87-92 only collapses two empty children, so the model does what the code does.

## Findings

| source | as written | input that shows it | evidently intended | confidence | as-written member | corrected member |
|---|---|---|---|---|---|---|
| src/LeafNode.java:188-190 | a leaf reports a matching object only when the object's origin lies in the leaf's region, while an internal node skips children whose region misses the query (src/InternalNode.java:145-194) | world 1024; insert a (500,0,0,100,10,10), b (0,0,0,10,10,10), c (20,0,0,10,10,10), d (1000,0,0,10,10,10); intersect (550,0,0,10,10,10): the root splits on x, the query misses the left half, and a's origin lies there, so a is never printed | every object meeting the query is printed exactly once | not executed | QueryDedup.MissedObjectExample | QueryDedup.IntersectFixedExactlyOnce |
