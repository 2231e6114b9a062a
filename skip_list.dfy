/**
 * SkipList: the name index of the world database, a skip list keyed by
 * strings. The level-0 chain is kept as the sequence of its nodes, each with
 * its key, value and height (the length of its forward array); the node that
 * forward[i] of a node points to is the next node in the chain whose height
 * exceeds i, and the head's forward[i] is the first such node. The searches
 * walk these level pointers from the list's level down to 0, as SkipList.java does.
 */
module SkipLists {
  import opened Wrappers
  import opened Names

  const MaxLevel: nat := 10

  datatype Entry<V> = Entry(key: string, value: V, height: nat)

  /** key a sorts strictly before key b. */
  predicate Below(a: string, b: string) {
    CompareStrings(a, b) < 0
  }

  /** Keys never decrease along the chain (equal keys may sit side by side). */
  predicate KeysSorted<V>(s: seq<Entry<V>>) {
    forall i, j {:trigger CompareStrings(s[i].key, s[j].key)} :: 0 <= i < j < |s| ==> CompareStrings(s[i].key, s[j].key) <= 0
  }

  /**
   * forward[i] of the node at position p (p = -1 is the head): the position of
   * the next node taller than i, or |s| for null.
   */
  function NextAt<V>(s: seq<Entry<V>>, p: int, i: nat): (j: int)
    requires -1 <= p < |s|
    ensures p < j <= |s|
    ensures j < |s| ==> s[j].height > i
    ensures forall k :: p < k < j ==> s[k].height <= i
    decreases |s| - p
  {
    if p + 1 == |s| then |s|
    else if s[p + 1].height > i then p + 1
    else NextAt(s, p + 1, i)
  }

  /** How many leading entries sort strictly before key. */
  function BelowPrefix<V>(s: seq<Entry<V>>, key: string): (p: nat)
    ensures p <= |s|
    ensures forall k :: 0 <= k < p ==> Below(s[k].key, key)
    ensures p < |s| ==> !Below(s[p].key, key)
  {
    if s == [] || !Below(s[0].key, key) then 0 else 1 + BelowPrefix(s[1..], key)
  }

  /** The position of the first entry whose key equals key, or |s| when there is none. */
  function IndexOfKey<V>(s: seq<Entry<V>>, key: string): (c: nat)
    ensures c <= |s|
    ensures c < |s| ==> s[c].key == key
    ensures forall k :: 0 <= k < c ==> s[k].key != key
  {
    if s == [] then 0 else if s[0].key == key then 0 else 1 + IndexOfKey(s[1..], key)
  }

  /** The tallest node's height, 0 for an empty chain. */
  function TopHeight<V>(s: seq<Entry<V>>): (h: nat)
    ensures forall k :: 0 <= k < |s| ==> s[k].height <= h
    ensures s != [] ==> exists k :: 0 <= k < |s| && s[k].height == h
  {
    if s == [] then 0
    else
      var rest := TopHeight(s[1..]);
      if s[0].height >= rest then s[0].height
      else
        assert forall k :: 0 < k < |s| ==> s[k] == s[1..][k - 1];
        rest
  }

  /** The values of the entries whose key lies in [start, end], in chain order. */
  function ValuesBetween<V>(s: seq<Entry<V>>, start: string, end: string): (r: seq<V>)
    ensures |r| <= |s|
  {
    if s == [] then []
    else
      (if !Below(s[0].key, start) && CompareStrings(s[0].key, end) <= 0 then [s[0].value] else [])
      + ValuesBetween(s[1..], start, end)
  }

  // ---------------------------------------------------------------------
  // The search shared by insert, remove, find and range
  // ---------------------------------------------------------------------

  /** In a sorted chain, an entry at or after one that is not below key is not below key either. */
  lemma NotBelowOnwards<V>(s: seq<Entry<V>>, a: int, k: int, key: string)
    requires KeysSorted(s) && 0 <= a <= k < |s| && !Below(s[a].key, key)
    ensures !Below(s[k].key, key)
  {
    if a < k && Below(s[k].key, key) {
      CompareLeqLess(s[a].key, s[k].key, key);
    }
  }

  /** In a sorted chain, an entry before one that is below key is below key too. */
  lemma BelowBackwards<V>(s: seq<Entry<V>>, k: int, p: int, key: string)
    requires KeysSorted(s) && 0 <= k <= p < |s| && Below(s[p].key, key)
    ensures Below(s[k].key, key)
  {
    if k < p {
      CompareLeqLess(s[k].key, s[p].key, key);
    }
  }

  /**
   * The search loop: from the head, on each level from level - 1 down to 0,
   * follow forward pointers while the next key sorts before key. It ends on
   * the last node before key (or the head, -1), which is where the chain's
   * prefix of smaller keys ends.
   */
  method FindPredecessor<V>(s: seq<Entry<V>>, level: nat, key: string) returns (p: int)
    requires KeysSorted(s)
    requires forall k :: 0 <= k < |s| ==> 1 <= s[k].height <= level
    ensures p + 1 == BelowPrefix(s, key)
  {
    p := -1;
    var i := level;
    while i > 0
      invariant 0 <= i <= level && -1 <= p < |s|
      invariant p >= 0 ==> Below(s[p].key, key)
      invariant forall k :: p < k < |s| && s[k].height > i ==> !Below(s[k].key, key)
    {
      i := i - 1;
      var next := NextAt(s, p, i);
      while next < |s| && Below(s[next].key, key)
        invariant -1 <= p < next <= |s| && next == NextAt(s, p, i)
        invariant p >= 0 ==> Below(s[p].key, key)
        invariant forall k :: p < k < |s| && s[k].height > i + 1 ==> !Below(s[k].key, key)
        decreases |s| - p
      {
        p := next;
        next := NextAt(s, p, i);
      }
      forall k | p < k < |s| && s[k].height > i
        ensures !Below(s[k].key, key)
      {
        NotBelowOnwards(s, next, k, key);
      }
    }
    if p + 1 < |s| {
      assert s[p + 1].height > 0;
    }
    forall k | 0 <= k <= p ensures Below(s[k].key, key) {
      BelowBackwards(s, k, p, key);
    }
    BelowPrefixUnique(s, key, p + 1);
  }

  /** A prefix of keys below key, followed by the end or a key not below it, is the prefix BelowPrefix finds. */
  lemma BelowPrefixUnique<V>(s: seq<Entry<V>>, key: string, q: int)
    requires 0 <= q <= |s|
    requires forall k :: 0 <= k < q ==> Below(s[k].key, key)
    requires q < |s| ==> !Below(s[q].key, key)
    ensures q == BelowPrefix(s, key)
  {
  }

  /** In a sorted chain, the first entry with key, if any, is the first entry not below key. */
  lemma IndexOfKeyAtPrefix<V>(s: seq<Entry<V>>, key: string)
    requires KeysSorted(s)
    ensures var b := BelowPrefix(s, key);
      IndexOfKey(s, key) == if b < |s| && s[b].key == key then b else |s|
  {
    var b := BelowPrefix(s, key);
    var c := IndexOfKey(s, key);
    if c < b {
      CompareZeroIffEqual(s[c].key, key);
    } else if b < c && c < |s| {
      CompareZeroIffEqual(s[b].key, key);
    }
  }

  /** Splicing an entry in at the end of the prefix of smaller keys keeps the chain sorted. */
  lemma SpliceSorted<V>(s: seq<Entry<V>>, e: Entry<V>)
    requires KeysSorted(s)
    ensures var p := BelowPrefix(s, e.key);
      KeysSorted(s[..p] + [e] + s[p..])
  {
    var p := BelowPrefix(s, e.key);
    var t := s[..p] + [e] + s[p..];
    forall i, j | 0 <= i < j < |t| ensures CompareStrings(t[i].key, t[j].key) <= 0 {
      if j < p {
        assert t[i] == s[i] && t[j] == s[j];
      } else if i < p && j == p {
        assert t[i] == s[i];
      } else if i < p && j > p {
        assert t[i] == s[i] && t[j] == s[j - 1];
      } else if i == p {
        assert t[j] == s[j - 1];
        NotBelowOnwards(s, p, j - 1, e.key);
        CompareAntisymmetric(s[j - 1].key, e.key);
      } else {
        assert t[i] == s[i - 1] && t[j] == s[j - 1];
      }
    }
  }

  /** Cutting an entry out of a sorted chain keeps it sorted. */
  lemma CutSorted<V>(s: seq<Entry<V>>, c: int)
    requires KeysSorted(s) && 0 <= c < |s|
    ensures KeysSorted(s[..c] + s[c + 1..])
  {
    var t := s[..c] + s[c + 1..];
    forall i, j | 0 <= i < j < |t| ensures CompareStrings(t[i].key, t[j].key) <= 0 {
      var i', j' := if i < c then i else i + 1, if j < c then j else j + 1;
      assert t[i] == s[i'] && t[j] == s[j'];
    }
  }

  // ---------------------------------------------------------------------
  // The list
  // ---------------------------------------------------------------------

  /** The header and the found values of a range query. */
  datatype RangeReport<V> = RangeReport(start: string, end: string, values: seq<V>)

  /** One line of print: a node's depth and its value. */
  datatype NodeLine<V> = NodeLine(depth: nat, value: V)

  /** print's output: the empty message, or the head line, the node lines and the count. */
  datatype Listing<V> = EmptyListing | Listing(headDepth: nat, nodes: seq<NodeLine<V>>, count: nat)

  class SkipList<V> {
    /** The level-0 chain, head excluded. */
    var entries: seq<Entry<V>>
    var level: nat
    var size: nat

    /**
     * Keys ascend along the chain, every node is between 1 and level tall,
     * level never exceeds MaxLevel, and size counts the nodes.
     */
    ghost predicate Valid()
      reads this
    {
      KeysSorted(entries) && 1 <= level <= MaxLevel && size == |entries| && HeightsWithin(entries, level)
    }

    /** An empty list: level 1, no nodes, a head whose forward pointers are all null. */
    constructor ()
      ensures Valid() && entries == [] && level == 1 && size == 0
    {
      entries := [];
      level := 1;
      size := 0;
    }

    function Size(): (n: nat)
      reads this
      requires Valid()
      ensures n == |entries|
    {
      size
    }

    /**
     * insert with newLevel drawn by randomLevel: the list's level becomes the
     * larger of the two, and the new node is spliced in after every smaller
     * key and before every other key, so before any node with an equal key.
     */
    method Insert(key: string, value: V, newLevel: nat)
      requires Valid() && 1 <= newLevel <= MaxLevel
      modifies this
      ensures Valid()
      ensures level == if newLevel > old(level) then newLevel else old(level)
      ensures size == old(size) + 1
      ensures var p := BelowPrefix(old(entries), key);
        entries == old(entries)[..p] + [Entry(key, value, newLevel)] + old(entries)[p..]
    {
      if newLevel > level {
        level := newLevel;
      }
      var pred := FindPredecessor(entries, level, key);
      var e := Entry(key, value, newLevel);
      SpliceSorted(entries, e);
      var p := pred + 1;
      ghost var was := entries;
      entries := entries[..p] + [e] + entries[p..];
      forall k | 0 <= k < |entries| ensures 1 <= entries[k].height <= level {
        if k < p { assert entries[k] == was[k]; }
        else if k > p { assert entries[k] == was[k - 1]; }
      }
      size := size + 1;
    }

    /** find: the value of the first node whose key equals key, None for null. */
    method Find(key: string) returns (r: Option<V>)
      requires Valid()
      ensures var c := IndexOfKey(entries, key);
        r == if c < |entries| then Some(entries[c].value) else None
    {
      var pred := FindPredecessor(entries, level, key);
      IndexOfKeyAtPrefix(entries, key);
      var c := pred + 1;
      if c < |entries| && CompareStrings(entries[c].key, key) == 0 {
        CompareZeroIffEqual(entries[c].key, key);
        return Some(entries[c].value);
      }
      CompareZeroIffEqual(if c < |entries| then entries[c].key else key, key);
      return None;
    }

    /**
     * remove: None, changing nothing, when no node has the key; otherwise the
     * first such node is unlinked, size drops by one, and the level shrinks
     * while the head's top pointer is null, never below 1.
     */
    method Remove(key: string) returns (r: Option<V>)
      requires Valid()
      modifies this
      ensures Valid()
      ensures var c := IndexOfKey(old(entries), key);
        if c == |old(entries)| then
          r == None && entries == old(entries) && level == old(level) && size == old(size)
        else
          r == Some(old(entries)[c].value) && size == old(size) - 1 &&
          entries == old(entries)[..c] + old(entries)[c + 1..] &&
          level == if TopHeight(entries) < 1 then 1 else TopHeight(entries)
    {
      var pred := FindPredecessor(entries, level, key);
      IndexOfKeyAtPrefix(entries, key);
      var c := pred + 1;
      if c == |entries| || CompareStrings(entries[c].key, key) != 0 {
        CompareZeroIffEqual(if c < |entries| then entries[c].key else key, key);
        return None;
      }
      CompareZeroIffEqual(entries[c].key, key);
      var v := entries[c].value;
      CutSorted(entries, c);
      CutKeepsHeights(entries, c, level);
      entries := entries[..c] + entries[c + 1..];
      size := size - 1;
      ShrinkLevel();
      r := Some(v);
    }

    /** The loop at the end of remove: drop the level while the head's top pointer is null. */
    method ShrinkLevel()
      requires Valid()
      modifies this`level
      ensures Valid()
      ensures level == if TopHeight(entries) < 1 then 1 else TopHeight(entries)
    {
      while level > 1 && NextAt(entries, -1, level - 1) == |entries|
        invariant Valid()
        invariant TopHeight(entries) <= level
        decreases level
      {
        level := level - 1;
      }
      if level > 1 {
        var j := NextAt(entries, -1, level - 1);
        assert entries[j].height >= level;
      }
    }

    /** range: the values of all nodes with start <= key <= end, in ascending key order. */
    method Range(start: string, end: string) returns (rep: RangeReport<V>)
      requires Valid()
      ensures rep == RangeReport(start, end, ValuesBetween(entries, start, end))
    {
      var pred := FindPredecessor(entries, level, start);
      var found := CollectRange(entries, pred + 1, start, end);
      rep := RangeReport(start, end, found);
    }

    /** print: the empty message for a list of size 0, else the head, every node in order, and the count. */
    method Print() returns (rep: Listing<V>)
      requires Valid()
      ensures size == 0 ==> rep == EmptyListing
      ensures size > 0 ==> (rep.Listing? && rep.headDepth == level && rep.count == size &&
        |rep.nodes| == |entries| &&
        forall k :: 0 <= k < |entries| ==> rep.nodes[k] == NodeLine(entries[k].height, entries[k].value))
    {
      if size == 0 {
        return EmptyListing;
      }
      var nodes: seq<NodeLine<V>> := [];
      var nodeCount := 0;
      var curr := NextAt(entries, -1, 0);
      while curr < |entries|
        invariant curr == nodeCount == |nodes| <= |entries|
        invariant forall k :: 0 <= k < nodeCount ==> nodes[k] == NodeLine(entries[k].height, entries[k].value)
        decreases |entries| - curr
      {
        nodes := nodes + [NodeLine(entries[curr].height, entries[curr].value)];
        curr := NextAt(entries, curr, 0);
        nodeCount := nodeCount + 1;
      }
      rep := Listing(level, nodes, nodeCount);
    }
  }

  /**
   * The level-0 walk of range: from the first node not below start, collect
   * values while keys do not pass end.
   */
  method CollectRange<V>(s: seq<Entry<V>>, from: int, start: string, end: string) returns (found: seq<V>)
    requires KeysSorted(s) && from == BelowPrefix(s, start)
    ensures found == ValuesBetween(s, start, end)
  {
    ghost var want := ValuesBetween(s, start, end);
    var c := from;
    found := [];
    BelowPrefixSkipped(s, start, end);
    while c < |s| && CompareStrings(s[c].key, end) <= 0
      invariant from <= c <= |s|
      invariant found + ValuesBetween(s[c..], start, end) == want
    {
      CollectStep(s, from, c, start, end, found, want);
      found := found + [s[c].value];
      c := c + 1;
    }
    CollectEnd(s, c, start, end, found, want);
  }

  /** Taking the entry at c keeps what is collected plus what remains equal to the range. */
  lemma CollectStep<V>(s: seq<Entry<V>>, from: int, c: int, start: string, end: string, found: seq<V>, want: seq<V>)
    requires KeysSorted(s) && from == BelowPrefix(s, start) && from <= c < |s|
    requires CompareStrings(s[c].key, end) <= 0
    requires found + ValuesBetween(s[c..], start, end) == want
    ensures (found + [s[c].value]) + ValuesBetween(s[c + 1..], start, end) == want
  {
    var rest := ValuesBetween(s[c + 1..], start, end);
    assert (found + [s[c].value]) + rest == found + ([s[c].value] + rest);
    NotBelowOnwards(s, from, c, start);
    RangeStep(s, c, start, end);
  }

  /** Past the end of the range nothing remains to collect. */
  lemma CollectEnd<V>(s: seq<Entry<V>>, c: int, start: string, end: string, found: seq<V>, want: seq<V>)
    requires KeysSorted(s) && 0 <= c <= |s|
    requires c < |s| ==> CompareStrings(s[c].key, end) > 0
    requires found + ValuesBetween(s[c..], start, end) == want
    ensures found == want
  {
    if c < |s| {
      AboveEndIsSkipped(s, c, start, end);
    } else {
      assert s[c..] == [];
    }
    assert found + [] == found;
  }


  /** An entry inside the range contributes its value ahead of the rest of the range. */
  lemma RangeStep<V>(s: seq<Entry<V>>, c: int, start: string, end: string)
    requires 0 <= c < |s| && !Below(s[c].key, start) && CompareStrings(s[c].key, end) <= 0
    ensures ValuesBetween(s[c..], start, end) == [s[c].value] + ValuesBetween(s[c + 1..], start, end)
  {
    assert s[c..][0] == s[c] && s[c..][1..] == s[c + 1..];
  }

  /** Every entry is at least one level tall and no taller than level. */
  predicate HeightsWithin<V>(s: seq<Entry<V>>, level: int) {
    forall k :: 0 <= k < |s| ==> 1 <= s[k].height <= level
  }

  /** Cutting one entry out keeps every remaining height between 1 and the level. */
  lemma CutKeepsHeights<V>(s: seq<Entry<V>>, c: int, level: int)
    requires 0 <= c < |s| && HeightsWithin(s, level)
    ensures HeightsWithin(s[..c] + s[c + 1..], level)
  {
    var t := s[..c] + s[c + 1..];
    forall k | 0 <= k < |t| ensures 1 <= t[k].height <= level {
      if k < c { assert t[k] == s[k]; }
      else { assert t[k] == s[k + 1]; }
    }
  }

  /** The entries before the end of the prefix of smaller keys contribute nothing to a range from start. */
  lemma BelowPrefixSkipped<V>(s: seq<Entry<V>>, start: string, end: string)
    ensures ValuesBetween(s[BelowPrefix(s, start)..], start, end) == ValuesBetween(s, start, end)
  {
    if s != [] && Below(s[0].key, start) {
      BelowPrefixSkipped(s[1..], start, end);
      assert s[1..][BelowPrefix(s[1..], start)..] == s[BelowPrefix(s, start)..];
    }
  }

  /** In a sorted chain, nothing from an entry above end onwards lies in the range. */
  lemma {:induction false} AboveEndIsSkipped<V>(s: seq<Entry<V>>, c: int, start: string, end: string)
    requires KeysSorted(s) && 0 <= c < |s| && CompareStrings(s[c].key, end) > 0
    ensures ValuesBetween(s[c..], start, end) == []
    decreases |s| - c
  {
    if c + 1 < |s| {
      if CompareStrings(s[c + 1].key, end) <= 0 {
        CompareTransitive(s[c].key, s[c + 1].key, end);
      }
      AboveEndIsSkipped(s, c + 1, start, end);
    }
    assert s[c..][1..] == s[c + 1..];
  }

  /**
   * randomLevel: start at 1 and go up one level for each successive coin that
   * comes up heads (nextDouble() < 0.5), stopping at MaxLevel.
   */
  method RandomLevel(heads: seq<bool>) returns (lev: nat)
    ensures 1 <= lev <= MaxLevel
    ensures lev == if LeadingHeads(heads) + 1 < MaxLevel then LeadingHeads(heads) + 1 else MaxLevel
  {
    lev := 1;
    while lev < MaxLevel && lev - 1 < |heads| && heads[lev - 1]
      invariant 1 <= lev <= MaxLevel && lev - 1 <= LeadingHeads(heads)
    {
      LeadingHeadsStep(heads, lev - 1);
      lev := lev + 1;
    }
    if lev < MaxLevel {
      LeadingHeadsStop(heads, lev - 1);
    }
  }

  /** How many coins at the front of the sequence come up heads. */
  function LeadingHeads(heads: seq<bool>): (n: nat)
    ensures n <= |heads|
  {
    if heads == [] || !heads[0] then 0 else 1 + LeadingHeads(heads[1..])
  }

  lemma {:induction false} LeadingHeadsStep(heads: seq<bool>, i: nat)
    requires i <= LeadingHeads(heads) && i < |heads| && heads[i]
    ensures i + 1 <= LeadingHeads(heads)
  {
    if i > 0 {
      LeadingHeadsStep(heads[1..], i - 1);
    }
  }

  lemma {:induction false} LeadingHeadsStop(heads: seq<bool>, i: nat)
    requires i <= LeadingHeads(heads) && (i == |heads| || !heads[i])
    ensures i == LeadingHeads(heads)
  {
    if i > 0 {
      LeadingHeadsStop(heads[1..], i - 1);
    }
  }


  /** After insert, find of the same key sees the new node: it sits before every older node with that key. */
  lemma InsertThenFind<V>(s: seq<Entry<V>>, e: Entry<V>)
    requires KeysSorted(s)
    ensures var p := BelowPrefix(s, e.key);
      IndexOfKey(s[..p] + [e] + s[p..], e.key) == p
  {
    var p := BelowPrefix(s, e.key);
    var t := s[..p] + [e] + s[p..];
    var c := IndexOfKey(t, e.key);
    assert t[p] == e;
    if c < p {
      assert t[c] == s[c];
      CompareZeroIffEqual(s[c].key, e.key);
    }
  }

  /** Removing the key just inserted gives back the chain as it was before the insert. */
  lemma RemoveUndoesInsert<V>(s: seq<Entry<V>>, e: Entry<V>)
    requires KeysSorted(s)
    ensures var p := BelowPrefix(s, e.key);
      var t := s[..p] + [e] + s[p..];
      var c := IndexOfKey(t, e.key);
      c < |t| && t[..c] + t[c + 1..] == s
  {
    var p := BelowPrefix(s, e.key);
    var t := s[..p] + [e] + s[p..];
    assert t[..p] == s[..p] && t[p + 1..] == s[p..];
    assert s[..p] + s[p..] == s;
    InsertThenFind(s, e);
  }

  /** A range whose start sorts after its end finds nothing. */
  lemma {:induction false} ReversedRangeIsEmpty<V>(s: seq<Entry<V>>, start: string, end: string)
    requires CompareStrings(start, end) > 0
    ensures ValuesBetween(s, start, end) == []
  {
    if s != [] {
      if !Below(s[0].key, start) && CompareStrings(s[0].key, end) <= 0 {
        CompareAntisymmetric(s[0].key, start);
        CompareTransitive(start, s[0].key, end);
      }
      ReversedRangeIsEmpty(s[1..], start, end);
    }
  }

  /** A range finds a value exactly when some node with that value has its key between start and end. */
  lemma {:induction false} ValuesBetweenMembers<V>(s: seq<Entry<V>>, start: string, end: string, v: V)
    ensures v in ValuesBetween(s, start, end) <==>
      exists k :: 0 <= k < |s| && s[k].value == v && !Below(s[k].key, start) && CompareStrings(s[k].key, end) <= 0
  {
    if s != [] {
      ValuesBetweenMembers(s[1..], start, end, v);
      if exists k :: 0 <= k < |s[1..]| && s[1..][k].value == v && !Below(s[1..][k].key, start) && CompareStrings(s[1..][k].key, end) <= 0 {
        var k :| 0 <= k < |s[1..]| && s[1..][k].value == v && !Below(s[1..][k].key, start) && CompareStrings(s[1..][k].key, end) <= 0;
        assert s[k + 1] == s[1..][k];
      }
      if exists k :: 0 <= k < |s| && s[k].value == v && !Below(s[k].key, start) && CompareStrings(s[k].key, end) <= 0 {
        var k :| 0 <= k < |s| && s[k].value == v && !Below(s[k].key, start) && CompareStrings(s[k].key, end) <= 0;
        if k > 0 {
          assert s[1..][k - 1] == s[k];
        }
      }
    }
  }

  /** The nodes linked on level i, in order: those taller than i. */
  function LevelChain<V>(s: seq<Entry<V>>, i: nat): (c: seq<Entry<V>>)
    ensures |c| <= |s| && forall k :: 0 <= k < |c| ==> c[k].height > i
  {
    if s == [] then []
    else (if s[0].height > i then [s[0]] else []) + LevelChain(s[1..], i)
  }

  lemma {:induction false} LevelChainAppend<V>(a: seq<Entry<V>>, b: seq<Entry<V>>, i: nat)
    ensures LevelChain(a + b, i) == LevelChain(a, i) + LevelChain(b, i)
  {
    if a == [] {
      assert a + b == b;
    } else {
      assert (a + b)[0] == a[0] && (a + b)[1..] == a[1..] + b;
      LevelChainAppend(a[1..], b, i);
    }
  }

  /**
   * The splice loop of insert: on each level below its height the new node is
   * linked between the same neighbours it sits between on level 0; on the
   * levels above, the chains do not change.
   */
  lemma SpliceLinksLevels<V>(s: seq<Entry<V>>, p: int, e: Entry<V>, i: nat)
    requires 0 <= p <= |s|
    ensures LevelChain(s[..p] + [e] + s[p..], i) ==
      LevelChain(s[..p], i) + (if e.height > i then [e] else []) + LevelChain(s[p..], i)
    ensures e.height <= i ==> LevelChain(s[..p] + [e] + s[p..], i) == LevelChain(s, i)
  {
    var a, z := s[..p], s[p..];
    assert a + z == s;
    var t := a + [e] + z;
    assert t[..p] == a && t[p] == e && t[p + 1..] == z;
    UnlinkLeavesLevels(t, p, i);
    LevelChainAppend(a, z, i);
  }

  /** A single entry is on level i exactly when it is taller than i. */
  lemma LevelChainOne<V>(e: Entry<V>, i: nat)
    ensures LevelChain([e], i) == if e.height > i then [e] else []
  {
    assert [e][1..] == [];
  }

  /** The unlink loop of remove: the node leaves every level it was on, and nothing else moves. */
  lemma UnlinkLeavesLevels<V>(s: seq<Entry<V>>, c: int, i: nat)
    requires 0 <= c < |s|
    ensures LevelChain(s[..c] + s[c + 1..], i) ==
      LevelChain(s[..c], i) + LevelChain(s[c + 1..], i)
    ensures LevelChain(s, i) ==
      LevelChain(s[..c], i) + (if s[c].height > i then [s[c]] else []) + LevelChain(s[c + 1..], i)
  {
    var a, m, z := s[..c], [s[c]], s[c + 1..];
    LevelChainAppend(a, z, i);
    assert s == a + m + z;
    LevelChainAppend(a + m, z, i);
    LevelChainAppend(a, m, i);
    LevelChainOne(s[c], i);
  }
}
