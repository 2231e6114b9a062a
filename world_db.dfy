/**
 * The world database (WorldDB.java): a skip list indexing the objects by name
 * and a bintree indexing them by space, over a cubic world of side 1024. Both
 * always hold the same objects, and no two objects share a name.
 */
module WorldDatabase {
  import opened Wrappers
  import opened Names
  import opened Boxes
  import opened AirObjects
  import opened SkipLists
  import opened BintreeNodes
  import opened NodeReports
  import opened Bintrees
  import opened CollisionDedup

  const WorldSize: nat := 1024

  // ---------------------------------------------------------------------
  // Validation
  // ---------------------------------------------------------------------

  /** The box test isValid and intersect share: the origin in the world, positive widths, the far corner in the world. */
  predicate InWorld(b: Box) {
    0 <= b.x < WorldSize && 0 <= b.y < WorldSize && 0 <= b.z < WorldSize &&
    0 < b.xw <= WorldSize && 0 < b.yw <= WorldSize && 0 < b.zw <= WorldSize &&
    b.x + b.xw <= WorldSize && b.y + b.yw <= WorldSize && b.z + b.zw <= WorldSize
  }

  /** The per-kind rules of isValid: text fields present, counts positive, rates not negative. */
  predicate KindIsValid(k: Kind) {
    match k
    case AirPlane(carrier, flightNum, numEngines) => carrier.Some? && flightNum > 0 && numEngines > 0
    case Balloon(balloonType, ascentRate) => balloonType.Some? && ascentRate >= 0
    case Bird(birdType, number) => birdType.Some? && number > 0
    case Drone(brand, numEngines) => brand.Some? && numEngines > 0
    case Rocket(ascentRate, trajectory) => ascentRate >= 0 && trajectory >= 0.0
  }

  /** isValid: a non-empty name, a box inside the world, and the rules of the object's kind. */
  predicate IsValid(a: AirObject) {
    a.name != [] && InWorld(a.Bounds()) && KindIsValid(a.kind)
  }

  /** Every object of S passes IsValid. */
  ghost predicate AllValid(S: set<AirObject>) {
    forall o :: o in S ==> IsValid(o)
  }

  /** A box inside the world has volume and meets the world region. */
  lemma InWorldMeetsWorld(o: AirObject)
    requires InWorld(o.Bounds())
    ensures o.Bounds().HasVolume() && o.Intersects(World(WorldSize))
  {
  }

  // ---------------------------------------------------------------------
  // The skip list as a name index
  // ---------------------------------------------------------------------

  /** Every node is keyed by its object's name. */
  predicate KeysAreNames(s: seq<Entry<AirObject>>) {
    forall k :: 0 <= k < |s| ==> s[k].key == s[k].value.name
  }

  predicate KeysDistinct(s: seq<Entry<AirObject>>) {
    forall i, j :: 0 <= i < j < |s| ==> s[i].key != s[j].key
  }

  /** The objects the skip list holds. */
  function Values(s: seq<Entry<AirObject>>): set<AirObject> {
    set k | 0 <= k < |s| :: s[k].value
  }

  /** In a name index, the key is missing exactly when no object of that name is held. */
  lemma MissingKeyIsMissingName(s: seq<Entry<AirObject>>, name: string)
    requires KeysAreNames(s)
    ensures IndexOfKey(s, name) == |s| <==> forall o :: o in Values(s) ==> o.name != name
    ensures IndexOfKey(s, name) < |s| ==> s[IndexOfKey(s, name)].value in Values(s)
  {
    var c := IndexOfKey(s, name);
    if c == |s| {
      forall o | o in Values(s) ensures o.name != name {
        var k :| 0 <= k < |s| && s[k].value == o;
      }
    }
  }

  /** Splicing in a node with a new name keeps the index and adds its object. */
  lemma SpliceKeepsIndex(s: seq<Entry<AirObject>>, p: int, e: Entry<AirObject>)
    requires KeysAreNames(s) && KeysDistinct(s) && 0 <= p <= |s|
    requires e.key == e.value.name && forall k :: 0 <= k < |s| ==> s[k].key != e.key
    ensures var t := s[..p] + [e] + s[p..];
      KeysAreNames(t) && KeysDistinct(t) && Values(t) == Values(s) + {e.value}
  {
    var t := s[..p] + [e] + s[p..];
    assert forall k :: 0 <= k < |t| ==> t[k] == if k < p then s[k] else if k == p then e else s[k - 1];
    forall o | o in Values(s) + {e.value} ensures o in Values(t) {
      if o == e.value {
        assert t[p].value == o;
      } else {
        var k :| 0 <= k < |s| && s[k].value == o;
        assert t[if k < p then k else k + 1].value == o;
      }
    }
  }

  /** Cutting out a node drops exactly its object, since no other node has its name. */
  lemma CutKeepsIndex(s: seq<Entry<AirObject>>, c: int)
    requires KeysAreNames(s) && KeysDistinct(s) && 0 <= c < |s|
    ensures var t := s[..c] + s[c + 1..];
      KeysAreNames(t) && KeysDistinct(t) && Values(t) == Values(s) - {s[c].value}
  {
    var t := s[..c] + s[c + 1..];
    assert forall k :: 0 <= k < |t| ==> t[k] == s[if k < c then k else k + 1];
    forall o | o in Values(t) ensures o in Values(s) - {s[c].value} {
      var k :| 0 <= k < |t| && t[k].value == o;
      var j := if k < c then k else k + 1;
      assert s[j] == t[k] && j != c;
    }
    forall o | o in Values(s) - {s[c].value} ensures o in Values(t) {
      var k :| 0 <= k < |s| && s[k].value == o;
      assert k != c;
      assert t[if k < c then k else k - 1].value == o;
    }
  }

  /**
   * delete on plain values: the index s and the object set objs before, t and
   * objs' after, r what the skip list's remove returned. The index is kept,
   * and r is None exactly when no object had the name.
   */
  lemma DeleteKeepsIndex(s: seq<Entry<AirObject>>, t: seq<Entry<AirObject>>, objs: set<AirObject>,
                         objs': set<AirObject>, name: string, r: Option<AirObject>)
    requires KeysAreNames(s) && KeysDistinct(s) && Values(s) == objs && AllValid(objs)
    requires var c := IndexOfKey(s, name);
      if c == |s| then r == None && t == s && objs' == objs
      else r == Some(s[c].value) && t == s[..c] + s[c + 1..] && objs' == objs - {s[c].value}
    ensures KeysAreNames(t) && KeysDistinct(t) && Values(t) == objs' && objs' <= objs && AllValid(objs')
    ensures r.None? <==> forall o :: o in objs ==> o.name != name
    ensures r.Some? ==> r.value in objs && r.value.name == name
    ensures objs' == if r.Some? then objs - {r.value} else objs
  {
    var c := IndexOfKey(s, name);
    MissingKeyIsMissingName(s, name);
    if c < |s| {
      CutKeepsIndex(s, c);
    }
  }

  /** A name index holds as many objects as it has nodes, since no two nodes share a name. */
  lemma {:induction false} IndexSize(s: seq<Entry<AirObject>>)
    requires KeysAreNames(s) && KeysDistinct(s)
    ensures |Values(s)| == |s|
  {
    if s != [] {
      var t := s[1..];
      assert forall k :: 0 <= k < |t| ==> t[k] == s[k + 1];
      IndexSize(t);
      assert Values(s) == {s[0].value} + Values(t) by {
        forall o | o in Values(s) ensures o in {s[0].value} + Values(t) {
          var k :| 0 <= k < |s| && s[k].value == o;
          if k > 0 {
            assert t[k - 1].value == o;
          }
        }
      }
      assert s[0].value !in Values(t) by {
        forall k | 0 <= k < |t| ensures t[k].value != s[0].value {
          assert s[k + 1].key != s[0].key;
        }
      }
    }
  }

  /** A sorted index with distinct names lists its objects in strictly ascending name order. */
  lemma StrictlyAscending(s: seq<Entry<AirObject>>)
    requires KeysSorted(s) && KeysDistinct(s)
    ensures forall i, j :: 0 <= i < j < |s| ==> CompareStrings(s[i].key, s[j].key) < 0
  {
    forall i, j | 0 <= i < j < |s| ensures CompareStrings(s[i].key, s[j].key) < 0 {
      CompareZeroIffEqual(s[i].key, s[j].key);
    }
  }

  /** Names strictly ascend along r. */
  predicate NamesAscending(r: seq<AirObject>) {
    forall i, j :: 0 <= i < j < |r| ==> CompareStrings(r[i].name, r[j].name) < 0
  }

  /** A name below every name of an ascending list can be put in front of it. */
  lemma ConsAscending(h: AirObject, rest: seq<AirObject>)
    requires NamesAscending(rest)
    requires forall v :: v in rest ==> CompareStrings(h.name, v.name) < 0
    ensures NamesAscending([h] + rest)
  {
    var r := [h] + rest;
    forall i, j | 0 <= i < j < |r| ensures CompareStrings(r[i].name, r[j].name) < 0 {
      assert r[j] == rest[j - 1];
      if i > 0 {
        assert r[i] == rest[i - 1];
      } else {
        assert rest[j - 1] in rest;
      }
    }
  }

  /** In a sorted name index, the first entry's name is below every name the rest of a range lists. */
  lemma HeadBelowRange(s: seq<Entry<AirObject>>, start: string, end: string)
    requires KeysSorted(s) && KeysDistinct(s) && KeysAreNames(s) && s != []
    ensures forall v: AirObject :: v in ValuesBetween(s[1..], start, end) ==> CompareStrings(s[0].value.name, v.name) < 0
  {
    var t := s[1..];
    StrictlyAscending(s);
    forall v: AirObject | v in ValuesBetween(t, start, end) ensures CompareStrings(s[0].value.name, v.name) < 0 {
      ValuesBetweenMembers(t, start, end, v);
      var k :| 0 <= k < |t| && t[k].value == v && !Below(t[k].key, start) && CompareStrings(t[k].key, end) <= 0;
      assert t[k] == s[k + 1];
    }
  }

  /** A range over a name index lists its objects in strictly ascending name order. */
  lemma {:induction false} RangeAscending(s: seq<Entry<AirObject>>, start: string, end: string)
    requires KeysSorted(s) && KeysDistinct(s) && KeysAreNames(s)
    ensures NamesAscending(ValuesBetween(s, start, end))
  {
    if s != [] {
      var t := s[1..];
      assert KeysSorted(t) && KeysDistinct(t) && KeysAreNames(t) by {
        assert forall k :: 0 <= k < |t| ==> t[k] == s[k + 1];
      }
      RangeAscending(t, start, end);
      if !Below(s[0].key, start) && CompareStrings(s[0].key, end) <= 0 {
        HeadBelowRange(s, start, end);
        ConsAscending(s[0].value, ValuesBetween(t, start, end));
      }
    }
  }

  // ---------------------------------------------------------------------
  // The database
  // ---------------------------------------------------------------------

  class WorldDB {
    var skipList: SkipList<AirObject>
    var bintree: Bintree

    /**
     * The skip list is a name index (keyed by name, no name twice) of exactly
     * the objects the bintree holds, every one of them valid, in the 1024 world.
     */
    ghost predicate Valid()
      reads this, skipList, bintree
    {
      skipList.Valid() && bintree.Valid() && bintree.worldSize == WorldSize &&
      KeysAreNames(skipList.entries) && KeysDistinct(skipList.entries) &&
      Values(skipList.entries) == bintree.objects && AllValid(bintree.objects)
    }

    /** The objects in the database. */
    ghost function Contents(): set<AirObject>
      reads this, bintree
    {
      bintree.objects
    }

    /** A database starts empty (the constructor calls clear). */
    constructor ()
      ensures Valid() && Contents() == {}
    {
      skipList := new SkipList<AirObject>();
      bintree := new Bintree(WorldSize);
    }

    /** clear: a fresh skip list and a fresh bintree. */
    method Clear()
      modifies this
      ensures Valid() && Contents() == {} && fresh(skipList) && fresh(bintree)
      ensures skipList.entries == [] && skipList.level == 1 && bintree.root == Empty
    {
      skipList := new SkipList<AirObject>();
      bintree := new Bintree(WorldSize);
    }

    /**
     * add: false, changing nothing, for an invalid object or a name already
     * present; otherwise the object goes into both structures. The coins feed
     * randomLevel for the new skip list node.
     */
    method Add(a: AirObject, heads: seq<bool>) returns (added: bool)
      requires Valid()
      modifies skipList, bintree
      ensures Valid()
      ensures added <==> IsValid(a) && forall o :: o in old(Contents()) ==> o.name != a.name
      ensures Contents() == if added then old(Contents()) + {a} else old(Contents())
      ensures !added ==> (skipList.entries == old(skipList.entries) && skipList.level == old(skipList.level) &&
        bintree.root == old(bintree.root))
      ensures added ==> bintree.root == BintreeNodes.Insert(old(bintree.root), a, World(WorldSize), 0)
      ensures added ==> (
        var p := BelowPrefix(old(skipList.entries), a.name);
        var h := if LeadingHeads(heads) + 1 < MaxLevel then LeadingHeads(heads) + 1 else MaxLevel;
        skipList.entries == old(skipList.entries)[..p] + [Entry(a.name, a, h)] + old(skipList.entries)[p..] &&
        skipList.level == (if h > old(skipList.level) then h else old(skipList.level)))
    {
      if !IsValid(a) {
        return false;
      }
      var found := skipList.Find(a.name);
      MissingKeyIsMissingName(skipList.entries, a.name);
      if found.Some? {
        return false;
      }
      var lev := RandomLevel(heads);
      var p := BelowPrefix(skipList.entries, a.name);
      SpliceKeepsIndex(skipList.entries, p, Entry(a.name, a, lev));
      skipList.Insert(a.name, a, lev);
      InWorldMeetsWorld(a);
      bintree.Insert(a);
      added := true;
    }

    /**
     * delete: None, changing nothing, when no object has the name; otherwise
     * the object of that name, which leaves both structures.
     */
    method Delete(name: string) returns (r: Option<AirObject>)
      requires Valid()
      modifies skipList, bintree
      ensures Valid()
      ensures r.None? <==> forall o :: o in old(Contents()) ==> o.name != name
      ensures r.Some? ==> r.value in old(Contents()) && r.value.name == name
      ensures Contents() == if r.Some? then old(Contents()) - {r.value} else old(Contents())
      ensures r.None? ==> (skipList.entries == old(skipList.entries) && skipList.level == old(skipList.level) &&
        bintree.root == old(bintree.root))
      ensures r.Some? ==> bintree.root == BintreeNodes.Remove(old(bintree.root), r.value, World(WorldSize), 0)
      ensures r.Some? ==> (
        var c := IndexOfKey(old(skipList.entries), name);
        skipList.entries == old(skipList.entries)[..c] + old(skipList.entries)[c + 1..] &&
        skipList.level == (if TopHeight(skipList.entries) < 1 then 1 else TopHeight(skipList.entries)))
    {
      ghost var s, objs := skipList.entries, bintree.objects;
      r := skipList.Remove(name);
      if r.Some? {
        bintree.Remove(r.value);
      }
      DeleteKeepsIndex(s, skipList.entries, objs, bintree.objects, name, r);
    }

    /** print(name): the object of that name, None when there is none. */
    method Find(name: string) returns (r: Option<AirObject>)
      requires Valid()
      ensures r.Some? ==> r.value in Contents() && r.value.name == name
      ensures r.None? <==> forall o :: o in Contents() ==> o.name != name
    {
      r := skipList.Find(name);
      MissingKeyIsMissingName(skipList.entries, name);
    }

    /** printskiplist: the empty listing for an empty database, else every object once, in ascending name order. */
    method PrintSkipList() returns (rep: Listing<AirObject>)
      requires Valid()
      ensures Contents() == {} <==> rep == EmptyListing
      ensures rep.Listing? ==> (
        (forall o :: o in Contents() <==> exists k :: 0 <= k < |rep.nodes| && rep.nodes[k].value == o) &&
        forall i, j :: 0 <= i < j < |rep.nodes| ==> CompareStrings(rep.nodes[i].value.name, rep.nodes[j].value.name) < 0)
      ensures rep.Listing? ==> (rep.count == |Contents()| && rep.headDepth == skipList.level &&
        |rep.nodes| == |skipList.entries| &&
        forall k :: 0 <= k < |rep.nodes| ==>
          rep.nodes[k] == NodeLine(skipList.entries[k].height, skipList.entries[k].value))
    {
      rep := skipList.Print();
      StrictlyAscending(skipList.entries);
      IndexSize(skipList.entries);
      if skipList.size > 0 {
        assert skipList.entries[0].value in Values(skipList.entries);
      }
    }

    /** printbintree: the tree's lines and the number of nodes printed. */
    method PrintBintree() returns (rep: Report)
      requires Valid()
      ensures rep.lines == NodeReports.Print(bintree.root, World(WorldSize), 0).lines
      ensures rep.count == NodeCount(bintree.root) == HeaderCount(rep.lines)
    {
      rep := bintree.Print();
    }

    /**
     * rangeprint: None when start sorts after end; otherwise every object whose
     * name lies in [start, end], once each, in ascending name order.
     */
    method RangePrint(start: string, end: string) returns (r: Option<RangeReport<AirObject>>)
      requires Valid()
      ensures r.None? <==> CompareStrings(start, end) > 0
      ensures r.Some? ==> (r.value.start == start && r.value.end == end &&
        (forall o :: o in r.value.values <==>
          o in Contents() && CompareStrings(start, o.name) <= 0 && CompareStrings(o.name, end) <= 0) &&
        NamesAscending(r.value.values))
    {
      if CompareStrings(start, end) > 0 {
        return None;
      }
      var rep := skipList.Range(start, end);
      var s := skipList.entries;
      forall o ensures o in rep.values <==>
        o in Contents() && CompareStrings(start, o.name) <= 0 && CompareStrings(o.name, end) <= 0
      {
        ValuesBetweenMembers(s, start, end, o);
        if o in Contents() && CompareStrings(start, o.name) <= 0 && CompareStrings(o.name, end) <= 0 {
          var k :| 0 <= k < |s| && s[k].value == o;
          CompareAntisymmetric(s[k].key, start);
        }
        if o in rep.values {
          var k :| 0 <= k < |s| && s[k].value == o && !Below(s[k].key, start) && CompareStrings(s[k].key, end) <= 0;
          CompareAntisymmetric(s[k].key, start);
        }
      }
      RangeAscending(s, start, end);
      r := Some(rep);
    }

    /** collisions: every pair of objects whose boxes intersect, exactly once, the smaller name first. */
    method Collisions() returns (lines: seq<Line>)
      requires Valid()
      ensures lines == NodeReports.Collisions(bintree.root, World(WorldSize), 0)
      ensures SmallerFirst(lines)
      ensures multiset(PairsOf(lines)) == multiset(CollidingPairs(Contents()))
    {
      assert IsPow2(WorldSize);
      lines := bintree.Collisions();
    }

    /**
     * intersect: None for a query box that is not inside the world; otherwise
     * the bintree's report, which shows every object meeting the box exactly once.
     */
    method Intersect(x: int, y: int, z: int, xwid: int, ywid: int, zwid: int) returns (r: Option<QueryReport>)
      requires Valid()
      ensures r.None? <==> !InWorld(Box(x, y, z, xwid, ywid, zwid))
      ensures r.Some? ==> (r.value.query == Box(x, y, z, xwid, ywid, zwid) &&
        multiset(ObjectsOf(r.value.lines)) ==
          multiset(set o | o in Contents() && o.Intersects(Box(x, y, z, xwid, ywid, zwid))))
      ensures r.Some? ==> (
        var found := NodeReports.Intersect(bintree.root, Box(x, y, z, xwid, ywid, zwid), World(WorldSize), 0, AtOverlapStart);
        r.value.lines == found.lines && r.value.visited == found.count)
    {
      var q := Box(x, y, z, xwid, ywid, zwid);
      if !InWorld(q) {
        return None;
      }
      assert IsPow2(WorldSize);
      var rep := bintree.Intersect(q);
      r := Some(rep);
    }
  }
}
