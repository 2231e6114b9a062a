/**
 * Ordering objects by name: the sorted order in which LeafNode prints and
 * reports objects, and the in-place bubble sort it uses to get there.
 */
module NameOrder {
  import opened Names
  import opened AirObjects

  /** Ascending by name: no later object has a smaller name. */
  predicate SortedByName(s: seq<AirObject>) {
    forall i, j :: 0 <= i < j < |s| ==> CompareStrings(s[i].name, s[j].name) <= 0
  }

  /** No two positions hold objects of the same name. */
  predicate DistinctNames(s: seq<AirObject>) {
    forall i, j :: 0 <= i < j < |s| ==> s[i].name != s[j].name
  }

  /** Places o before the first object whose name is not smaller than o's. */
  function InsertByName(o: AirObject, s: seq<AirObject>): (r: seq<AirObject>)
    requires SortedByName(s)
    ensures SortedByName(r) && multiset(r) == multiset(s) + multiset{o}
  {
    if s == [] then [o]
    else if CompareStrings(o.name, s[0].name) <= 0 then
      InsertAtFront(o, s);
      [o] + s
    else
      var rest := InsertByName(o, s[1..]);
      InsertAfterHead(o, s, rest);
      [s[0]] + rest
  }

  /** An object not above the head of a sorted sequence may go in front of it. */
  lemma InsertAtFront(o: AirObject, s: seq<AirObject>)
    requires SortedByName(s) && s != [] && CompareStrings(o.name, s[0].name) <= 0
    ensures SortedByName([o] + s)
  {
    forall j | 0 <= j < |s| ensures CompareStrings(o.name, s[j].name) <= 0 {
      if j > 0 {
        CompareTransitive(o.name, s[0].name, s[j].name);
      }
    }
    var r := [o] + s;
    forall i, j | 0 <= i < j < |r| ensures CompareStrings(r[i].name, r[j].name) <= 0 {
      assert r[j] == s[j - 1];
      if i > 0 {
        assert r[i] == s[i - 1];
      }
    }
  }

  /** An object above the head of a sorted sequence goes into its tail, behind the head. */
  lemma InsertAfterHead(o: AirObject, s: seq<AirObject>, rest: seq<AirObject>)
    requires SortedByName(s) && s != [] && CompareStrings(o.name, s[0].name) > 0
    requires SortedByName(rest) && multiset(rest) == multiset(s[1..]) + multiset{o}
    ensures SortedByName([s[0]] + rest) && multiset([s[0]] + rest) == multiset(s) + multiset{o}
  {
    assert s == [s[0]] + s[1..];
    CompareAntisymmetric(o.name, s[0].name);
    LowerBoundKept(s[0].name, rest, s[1..], o);
    var r := [s[0]] + rest;
    forall i, j | 0 <= i < j < |r| ensures CompareStrings(r[i].name, r[j].name) <= 0 {
      assert r[j] == rest[j - 1];
      if i > 0 {
        assert r[i] == rest[i - 1];
      }
    }
  }

  /** A name at or below every object of t and o is at or below every object of a permutation of t + [o]. */
  lemma LowerBoundKept(name: string, r: seq<AirObject>, t: seq<AirObject>, o: AirObject)
    requires multiset(r) == multiset(t) + multiset{o}
    requires forall k :: 0 <= k < |t| ==> CompareStrings(name, t[k].name) <= 0
    requires CompareStrings(name, o.name) <= 0
    ensures forall j :: 0 <= j < |r| ==> CompareStrings(name, r[j].name) <= 0
  {
    forall j | 0 <= j < |r| ensures CompareStrings(name, r[j].name) <= 0 {
      assert r[j] in multiset(r);
      if r[j] != o {
        assert r[j] in multiset(t);
        var k :| 0 <= k < |t| && t[k] == r[j];
      }
    }
  }

  /**
   * The objects in ascending name order, by insertion. Only sortedness and the
   * permutation are proved; the order among objects of equal name is not stated.
   * With distinct names, as the database keeps them, SortedArrangementUnique
   * makes this the only sorted arrangement.
   */
  function SortByName(s: seq<AirObject>): (r: seq<AirObject>)
    ensures SortedByName(r) && multiset(r) == multiset(s)
  {
    if s == [] then []
    else
      assert s == [s[0]] + s[1..];
      InsertByName(s[0], SortByName(s[1..]))
  }

  /** With distinct names there is only one name-sorted arrangement of a collection. */
  lemma {:induction false} SortedArrangementUnique(a: seq<AirObject>, b: seq<AirObject>)
    requires SortedByName(a) && SortedByName(b) && multiset(a) == multiset(b)
    requires DistinctNames(a)
    ensures a == b
    decreases |a|
  {
    if a != [] {
      SortedHeadsEqual(a, b);
      TailsAgree(a, b);
      SortedArrangementUnique(a[1..], b[1..]);
    }
  }

  /** Dropping a common first element keeps both arrangements sorted and of one collection. */
  lemma TailsAgree(a: seq<AirObject>, b: seq<AirObject>)
    requires SortedByName(a) && SortedByName(b) && multiset(a) == multiset(b)
    requires DistinctNames(a) && a != [] && b != [] && a[0] == b[0]
    ensures SortedByName(a[1..]) && SortedByName(b[1..]) && DistinctNames(a[1..])
    ensures multiset(a[1..]) == multiset(b[1..])
  {
    assert a == [a[0]] + a[1..];
    assert b == [b[0]] + b[1..];
    assert multiset(a) == multiset{a[0]} + multiset(a[1..]);
    assert multiset(b) == multiset{a[0]} + multiset(b[1..]);
    assert multiset(a[1..]) == multiset(a) - multiset{a[0]};
    SortedTail(a);
    SortedTail(b);
    DistinctNamesTail(a);
  }

  /** The tail of a name-sorted sequence is name-sorted. */
  lemma SortedTail(s: seq<AirObject>)
    requires SortedByName(s) && s != []
    ensures SortedByName(s[1..])
  {
    assert forall k :: 0 <= k < |s| - 1 ==> s[1..][k] == s[k + 1];
  }

  /** The tail of a sequence with distinct names has distinct names. */
  lemma DistinctNamesTail(s: seq<AirObject>)
    requires DistinctNames(s) && s != []
    ensures DistinctNames(s[1..])
  {
    assert forall k :: 0 <= k < |s| - 1 ==> s[1..][k] == s[k + 1];
  }

  /** Two name-sorted arrangements of one collection of distinct names start alike. */
  lemma SortedHeadsEqual(a: seq<AirObject>, b: seq<AirObject>)
    requires SortedByName(a) && SortedByName(b) && multiset(a) == multiset(b)
    requires DistinctNames(a) && a != []
    ensures b != [] && a[0] == b[0]
  {
    assert a[0] in multiset(b);
    var i :| 0 <= i < |b| && b[i] == a[0];
    assert b[0] in multiset(a);
    var j :| 0 <= j < |a| && a[j] == b[0];
    CompareZeroIffEqual(a[0].name, a[0].name);
    assert CompareStrings(a[0].name, b[0].name) <= 0;
    assert CompareStrings(b[0].name, a[0].name) <= 0;
    CompareAntisymmetric(a[0].name, b[0].name);
    CompareZeroIffEqual(a[0].name, b[0].name);
  }

  /**
   * The bubble sort of LeafNode.print and LeafNode.intersect: passes over the
   * array swap neighbours whose names are out of order, each pass carrying the
   * largest remaining name to the end of the unsorted prefix.
   */
  method BubbleSortByName(items: array<AirObject>, count: int)
    requires 0 <= count <= items.Length
    modifies items
    ensures SortedByName(items[..count]) && multiset(items[..count]) == multiset(old(items[..count]))
    ensures DistinctNames(old(items[..count])) ==> items[..count] == SortByName(old(items[..count]))
    ensures items[count..] == old(items[count..])
  {
    var i := 0;
    while i < count - 1
      invariant 0 <= i <= if count == 0 then 0 else count - 1
      invariant multiset(items[..count]) == multiset(old(items[..count]))
      invariant SuffixSortedAbove(items[..count], count - i)
      invariant items[count..] == old(items[count..])
    {
      BubblePass(items, count - i, count);
      i := i + 1;
    }
    assert SuffixSortedAbove(items[..count], 1);
    if DistinctNames(old(items[..count])) {
      DistinctNamesPreserved(old(items[..count]), items[..count]);
      SortedArrangementUnique(items[..count], SortByName(old(items[..count])));
    }
  }

  /** One pass over items[..m]: afterwards items[m - 1] holds a largest name of the prefix. */
  method BubblePass(items: array<AirObject>, m: int, count: int)
    requires 2 <= m <= count <= items.Length && SuffixSortedAbove(items[..count], m)
    modifies items
    ensures multiset(items[..count]) == multiset(old(items[..count]))
    ensures SuffixSortedAbove(items[..count], m - 1)
    ensures items[count..] == old(items[count..])
  {
    var j := 0;
    CompareZeroIffEqual(items[0].name, items[0].name);
    assert PrefixMaxAt(items[..count], 0);
    while j < m - 1
      invariant 0 <= j <= m - 1
      invariant multiset(items[..count]) == multiset(old(items[..count]))
      invariant SuffixSortedAbove(items[..count], m)
      invariant PrefixMaxAt(items[..count], j)
      invariant items[count..] == old(items[count..])
    {
      if items[j].CompareTo(items[j + 1]) > 0 {
        ghost var before := items[..count];
        SwapNeighbours(items, j, count);
        SwapStep(before, items[..count], j, m);
      } else {
        KeepStep(items[..count], j);
      }
      j := j + 1;
    }
    PassComplete(items[..count], m);
  }

  /** Exchanges items[j] and items[j + 1]; nothing else moves. */
  method SwapNeighbours(items: array<AirObject>, j: int, count: int)
    requires 0 <= j < j + 1 < count <= items.Length
    modifies items
    ensures items[..count] == old(items[..count])[j := old(items[j + 1])][j + 1 := old(items[j])]
    ensures items[count..] == old(items[count..])
  {
    items[j], items[j + 1] := items[j + 1], items[j];
  }

  /** A largest name at m - 1 extends the sorted suffix by one position. */
  lemma PassComplete(s: seq<AirObject>, m: int)
    requires 1 <= m <= |s| && SuffixSortedAbove(s, m)
    requires PrefixMaxAt(s, m - 1)
    ensures SuffixSortedAbove(s, m - 1)
  {
  }

  /** Leaving an in-order neighbouring pair: the larger name moves on to j + 1. */
  lemma KeepStep(s: seq<AirObject>, j: int)
    requires 0 <= j < j + 1 < |s|
    requires PrefixMaxAt(s, j) && CompareStrings(s[j].name, s[j + 1].name) <= 0
    ensures PrefixMaxAt(s, j + 1)
  {
    forall k | 0 <= k <= j + 1
      ensures CompareStrings(s[k].name, s[j + 1].name) <= 0
    {
      if k <= j {
        CompareTransitive(s[k].name, s[j].name, s[j + 1].name);
      } else {
        CompareZeroIffEqual(s[k].name, s[k].name);
      }
    }
  }

  /** Swapping an out-of-order neighbouring pair inside the unsorted prefix. */
  lemma SwapStep(before: seq<AirObject>, after: seq<AirObject>, j: int, m: int)
    requires 0 <= j < j + 1 < m <= |before|
    requires after == before[j := before[j + 1]][j + 1 := before[j]]
    requires SuffixSortedAbove(before, m)
    requires PrefixMaxAt(before, j) && CompareStrings(before[j].name, before[j + 1].name) > 0
    ensures multiset(after) == multiset(before)
    ensures SuffixSortedAbove(after, m) && PrefixMaxAt(after, j + 1)
  {
    CompareAntisymmetric(before[j].name, before[j + 1].name);
    forall k | 0 <= k <= j + 1
      ensures CompareStrings(after[k].name, after[j + 1].name) <= 0
    {
      if k == j + 1 {
        CompareZeroIffEqual(after[k].name, after[k].name);
      }
    }
  }

  /** No name in s[..j + 1] is larger than the one at j. */
  predicate PrefixMaxAt(s: seq<AirObject>, j: int)
    requires 0 <= j < |s|
  {
    forall k :: 0 <= k <= j ==> CompareStrings(s[k].name, s[j].name) <= 0
  }

  /**
   * From position m on the sequence is sorted, and nothing before m has a larger
   * name than anything from m on.
   */
  predicate SuffixSortedAbove(s: seq<AirObject>, m: int) {
    (forall i, j :: 0 <= m <= i < j < |s| ==> CompareStrings(s[i].name, s[j].name) <= 0) &&
    (forall i, j :: 0 <= i < m <= j < |s| ==> CompareStrings(s[i].name, s[j].name) <= 0)
  }

  lemma DistinctNamesPreserved(a: seq<AirObject>, b: seq<AirObject>)
    requires DistinctNames(a) && multiset(a) == multiset(b)
    ensures DistinctNames(b)
  {
    forall i, j | 0 <= i < j < |b| ensures b[i].name != b[j].name {
      if b[i].name == b[j].name {
        assert b[i] in multiset(a) && b[j] in multiset(a);
        var p :| 0 <= p < |a| && a[p] == b[i];
        var q :| 0 <= q < |a| && a[q] == b[j];
        assert p == q;
        OccursTwice(b, i, j);
        OccursOnce(a, p);
        assert false;
      }
    }
  }

  lemma OccursTwice(s: seq<AirObject>, i: int, j: int)
    requires 0 <= i < j < |s| && s[i] == s[j]
    ensures multiset(s)[s[i]] >= 2
  {
    assert s == s[..i] + [s[i]] + s[i+1..j] + [s[j]] + s[j+1..];
  }

  lemma OccursOnce(s: seq<AirObject>, p: int)
    requires DistinctNames(s) && 0 <= p < |s|
    ensures multiset(s)[s[p]] == 1
  {
    assert s == s[..p] + [s[p]] + s[p+1..];
    assert s[p] !in s[..p];
    assert s[p] !in s[p+1..];
  }
}
