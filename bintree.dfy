/**
 * The public face of the bintree (Bintree.java): it owns the root node and the
 * world size and starts every recursive call at the world region
 * (0, 0, 0, W, W, W) and depth 0.
 */
module Bintrees {
  import opened Boxes
  import opened AirObjects
  import opened BintreeNodes
  import opened TreeContents
  import opened NodeReports
  import opened QueryDedup
  import opened CollisionDedup

  /** intersect's output: the query echoed in the header, the visit and object lines, and the nodes visited. */
  datatype QueryReport = QueryReport(query: Box, lines: seq<Line>, visited: nat)

  class Bintree {
    var root: Node
    const worldSize: nat
    /** The objects inserted and not yet removed. */
    ghost var objects: set<AirObject>

    /**
     * The root is a well-formed tree for the world region built only from
     * EmptyNode, LeafNode and InternalNode, every inserted object has volume, and
     * in a power-of-two world each node holds exactly the objects meeting its region.
     */
    ghost predicate Valid()
      reads this
    {
      Sound(root, World(worldSize), 0) && NoDataNodes(root) && AllHaveVolume(objects) &&
      (IsPow2(worldSize) ==> Exact(root, World(worldSize), 0, objects))
    }

    /** A new bintree is the shared EmptyNode. */
    constructor (worldSize: nat)
      ensures Valid() && this.worldSize == worldSize && root == Empty && objects == {}
    {
      this.worldSize := worldSize;
      root := Empty;
      objects := {};
    }

    /** insert: the root is replaced by what inserting at the world region returns. */
    method Insert(obj: AirObject)
      requires Valid() && obj.Intersects(World(worldSize)) && obj.Bounds().HasVolume() && obj !in objects
      modifies this
      ensures Valid() && root == BintreeNodes.Insert(old(root), obj, World(worldSize), 0)
      ensures objects == old(objects) + {obj}
      ensures Stored(root) <= old(Stored(root)) + {obj}
    {
      InsertCreatesNoDataNode(root, obj, World(worldSize), 0);
      InsertStoresOnly(root, obj, World(worldSize), 0);
      if IsPow2(worldSize) {
        InsertExact(root, obj, World(worldSize), 0, objects);
      }
      root := BintreeNodes.Insert(root, obj, World(worldSize), 0);
      objects := objects + {obj};
    }

    /** remove: the root is replaced by what removing at the world region returns; an absent object is ignored. */
    method Remove(obj: AirObject)
      requires Valid()
      modifies this
      ensures Valid() && root == BintreeNodes.Remove(old(root), obj, World(worldSize), 0)
      ensures objects == old(objects) - {obj}
      ensures Stored(root) <= old(Stored(root))
    {
      RemoveCreatesNoDataNode(root, obj, World(worldSize), 0);
      RemoveStoresOnly(root, obj, World(worldSize), 0);
      if IsPow2(worldSize) {
        WorldIsDyadic(worldSize);
        RemoveExact(root, obj, World(worldSize), 0, objects);
      }
      root := BintreeNodes.Remove(root, obj, World(worldSize), 0);
      objects := objects - {obj};
    }

    /**
     * print: every node's lines in preorder, followed by the count print
     * returns, which is the number of nodes and of node lines.
     */
    method Print() returns (rep: Report)
      requires Valid()
      ensures rep.lines == NodeReports.Print(root, World(worldSize), 0).lines
      ensures rep.count == NodeCount(root) == HeaderCount(rep.lines)
    {
      rep := NodeReports.Print(root, World(worldSize), 0);
      PrintCountsNodes(root, World(worldSize), 0);
    }

    /**
     * collisions: the lines every leaf emits, left subtree before right (the
     * header is fixed text). Each pair shows the smaller name first, and in a
     * power-of-two world holding objects inside it every colliding pair appears
     * exactly once.
     */
    method Collisions() returns (lines: seq<Line>)
      requires Valid()
      ensures lines == NodeReports.Collisions(root, World(worldSize), 0)
      ensures SmallerFirst(lines)
      ensures IsPow2(worldSize) && InsideWorld(objects, worldSize) ==>
        multiset(PairsOf(lines)) == multiset(CollidingPairs(objects))
    {
      lines := NodeReports.Collisions(root, World(worldSize), 0);
      CollisionsSmallerFirst(root, World(worldSize), 0);
      if IsPow2(worldSize) && InsideWorld(objects, worldSize) {
        WorldCollisionsExactlyOnce(root, worldSize, objects);
      }
    }

    /**
     * intersect: the query echoed, the lines of the nodes visited, and how many
     * there were. Leaves report an object in the leaf holding the corner where
     * its overlap with the query begins, so in a power-of-two world a query
     * inside the world shows every object it meets exactly once.
     */
    method Intersect(q: Box) returns (rep: QueryReport)
      requires Valid()
      ensures rep.query == q
      ensures rep.lines == NodeReports.Intersect(root, q, World(worldSize), 0, AtOverlapStart).lines
      ensures rep.visited == NodeReports.Intersect(root, q, World(worldSize), 0, AtOverlapStart).count
      ensures 1 <= rep.visited <= NodeCount(root)
      ensures forall o :: o in ObjectsOf(rep.lines) ==> o in Stored(root) && o.Intersects(q)
      ensures IsPow2(worldSize) && q.HasVolume() && 0 <= q.x && q.x + q.xw <= worldSize &&
              0 <= q.y && q.y + q.yw <= worldSize && 0 <= q.z && q.z + q.zw <= worldSize ==>
        multiset(ObjectsOf(rep.lines)) == multiset(set o | o in objects && o.Intersects(q))
    {
      var found := NodeReports.Intersect(root, q, World(worldSize), 0, AtOverlapStart);
      IntersectVisitsBounded(root, q, World(worldSize), 0, AtOverlapStart);
      IntersectReportsSound(root, q, World(worldSize), 0, AtOverlapStart);
      if IsPow2(worldSize) {
        if q.HasVolume() && 0 <= q.x && q.x + q.xw <= worldSize &&
           0 <= q.y && q.y + q.yw <= worldSize && 0 <= q.z && q.z + q.zw <= worldSize {
          WorldQueryExactlyOnce(root, worldSize, q, objects);
        }
      }
      rep := QueryReport(q, found.lines, found.count);
    }
  }

  /** Inserting one object into an empty tree and removing it again leaves the root Empty. */
  lemma InsertThenRemoveOnEmpty(obj: AirObject, worldSize: nat)
    requires obj.Intersects(World(worldSize))
    ensures BintreeNodes.Insert(Empty, obj, World(worldSize), 0) == Leaf([obj])
    ensures BintreeNodes.Remove(Leaf([obj]), obj, World(worldSize), 0) == Empty
  {
    EmptyInsertMakesLeaf(obj, World(worldSize), 0);
  }

  /** The empty tree prints one E line and counts one node; a query visits that node and shows nothing. */
  lemma EmptyTreeReports(worldSize: nat, q: Box)
    ensures NodeReports.Print(Empty, World(worldSize), 0) == Report([Line(0, EmptyHeader(World(worldSize), 0))], 1)
    ensures NodeReports.Intersect(Empty, q, World(worldSize), 0, AtOverlapStart) == Report([], 1)
    ensures NodeReports.Collisions(Empty, World(worldSize), 0) == []
  {
  }
}
