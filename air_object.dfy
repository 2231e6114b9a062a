/**
 * The objects of the air-traffic world (AirObject.java and its five subclasses
 * folded into one datatype with a kind tag). Fields are set once at
 * construction and never change, which a datatype expresses directly.
 */
module AirObjects {
  import opened Wrappers
  import opened Names
  import opened Boxes

  /** The per-kind payload of AirPlane, Balloon, Bird, Drone and Rocket. */
  datatype Kind =
    | AirPlane(carrier: Option<string>, flightNum: int, numEngines: int)
    | Balloon(balloonType: Option<string>, ascentRate: int)
    | Bird(birdType: Option<string>, number: int)
    | Drone(brand: Option<string>, numEngines: int)
    | Rocket(ascentRate: int, trajectory: real)

  /** One field of commonToString's output: the name or one of the six integers. */
  datatype Field = Text(s: string) | Number(n: int)

  datatype AirObject = AirObject(name: string, x: int, y: int, z: int,
                                 xwid: int, ywid: int, zwid: int, kind: Kind)
  {
    /** The bounding box [x, x+xwid) × [y, y+ywid) × [z, z+zwid). */
    function Bounds(): Box {
      Box(x, y, z, xwid, ywid, zwid)
    }

    function Origin(): Point {
      Point(x, y, z)
    }

    /** AirObject.intersects(qx, qy, qz, qxwid, qywid, qzwid): no axis may be separated. */
    predicate Intersects(q: Box) {
      var x1, x2 := x, x + xwid;
      var y1, y2 := y, y + ywid;
      var z1, z2 := z, z + zwid;
      var noXOverlap := x1 >= q.x + q.xw || x2 <= q.x;
      var noYOverlap := y1 >= q.y + q.yw || y2 <= q.y;
      var noZOverlap := z1 >= q.z + q.zw || z2 <= q.z;
      !(noXOverlap || noYOverlap || noZOverlap)
    }

    /** AirObject.intersects(other): the box test applied to the other object's box. */
    predicate IntersectsObject(other: AirObject) {
      Intersects(other.Bounds())
    }

    /** AirObject.compareTo: the names' comparison. */
    function CompareTo(other: AirObject): int {
      CompareStrings(name, other.name)
    }

    /** AirObject.commonToString: name, x, y, z, xwid, ywid, zwid, in that order. */
    function CommonFields(): seq<Field> {
      [Text(name), Number(x), Number(y), Number(z), Number(xwid), Number(ywid), Number(zwid)]
    }
  }

  /** The common fields determine an object's name and box. */
  lemma CommonFieldsDetermineBox(a: AirObject, b: AirObject)
    requires a.CommonFields() == b.CommonFields()
    ensures a.name == b.name && a.Bounds() == b.Bounds()
  {
    assert a.CommonFields()[0] == b.CommonFields()[0];
  }

  /** The object-box test is the node-box overlap test with the query box first. */
  lemma IntersectsIsBoxesOverlap(a: AirObject, q: Box)
    ensures a.Intersects(q) == BoxesOverlap(q, a.Bounds()) == BoxesOverlap(a.Bounds(), q)
  {
  }

  /** An object with volume meets a box with volume exactly when some point lies in both. */
  lemma IntersectsIffCommonPoint(a: AirObject, q: Box)
    requires a.Bounds().HasVolume() && q.HasVolume()
    ensures a.Intersects(q) <==> exists p: Point :: a.Bounds().Contains(p) && q.Contains(p)
  {
    IntersectsIsBoxesOverlap(a, q);
    BoxesOverlapIffCommonPoint(a.Bounds(), q);
  }

  /** Intersection of two objects does not depend on which one asks. */
  lemma IntersectsObjectSymmetric(a: AirObject, b: AirObject)
    ensures a.IntersectsObject(b) == b.IntersectsObject(a)
  {
  }

  /** An object whose far face is the query's near face (or the reverse) does not intersect it. */
  lemma TouchingDoesNotIntersect(a: AirObject, q: Box)
    requires a.x + a.xwid == q.x || q.x + q.xw == a.x ||
             a.y + a.ywid == q.y || q.y + q.yw == a.y ||
             a.z + a.zwid == q.z || q.z + q.zw == a.z
    ensures !a.Intersects(q)
  {
  }

  /** An object with positive widths intersects its own box. */
  lemma IntersectsOwnBox(a: AirObject)
    requires a.xwid > 0 && a.ywid > 0 && a.zwid > 0
    ensures a.IntersectsObject(a)
  {
  }

  /** compareTo looks at nothing but the names, and has the sign of their comparison. */
  lemma CompareToByName(a: AirObject, b: AirObject)
    ensures a.CompareTo(b) == 0 <==> a.name == b.name
    ensures a.CompareTo(b) == -b.CompareTo(a)
    ensures forall c: AirObject, d: AirObject :: c.name == a.name && d.name == b.name ==> c.CompareTo(d) == a.CompareTo(b)
  {
    CompareZeroIffEqual(a.name, b.name);
    CompareAntisymmetric(a.name, b.name);
  }

  /** An object that intersects a region whose widths are all at most 1 contains the region's origin. */
  lemma SmallRegionOriginInside(a: AirObject, r: Box)
    requires r.IsRegion() && r.xw <= 1 && r.yw <= 1 && r.zw <= 1
    requires a.Intersects(r)
    ensures a.Bounds().Contains(r.Origin())
  {
  }
}
