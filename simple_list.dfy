/**
 * SimpleList: the growable array of air objects that leaves keep their
 * objects in. Capacity starts at four and doubles when the array is full;
 * removal finds the first occurrence and shifts the tail left.
 */
module SimpleLists {
  import opened Wrappers
  import opened AirObjects

  const DefaultCapacity: nat := 4

  /** The exception get throws for an index outside the list. */
  const IndexOutOfBounds: string := "IndexOutOfBoundsException"

  /** Capacities the list can have: the default, doubled any number of times. */
  predicate IsCapacity(c: int)
    decreases c
  {
    c == DefaultCapacity || (c > DefaultCapacity && c % 2 == 0 && IsCapacity(c / 2))
  }

  /** s without its first occurrence of x; s itself when x does not occur. */
  function RemoveFirst<T(==)>(s: seq<T>, x: T): (r: seq<T>)
    ensures x !in s ==> r == s
    ensures multiset(r) == multiset(s) - multiset{x}
  {
    if s == [] then []
    else
      assert s == [s[0]] + s[1..];
      if s[0] == x then s[1..] else [s[0]] + RemoveFirst(s[1..], x)
  }

  /** When the first x sits at index i, removal cuts out exactly position i. */
  lemma {:induction false} RemoveFirstAt<T>(s: seq<T>, x: T, i: int)
    requires 0 <= i < |s| && s[i] == x && x !in s[..i]
    ensures RemoveFirst(s, x) == s[..i] + s[i + 1..]
  {
    if i == 0 {
      assert s[..0] + s[1..] == s[1..];
    } else {
      var t := s[1..];
      var p := s[..i];
      assert p == [s[0]] + t[..i - 1];
      assert s[0] != x by { assert s[0] == p[0]; }
      assert x !in t[..i - 1] by { assert t[..i - 1] == p[1..]; }
      RemoveFirstAt(t, x, i - 1);
      assert RemoveFirst(s, x) == [s[0]] + RemoveFirst(t, x);
      assert t[i..] == s[i + 1..];
    }
  }

  class SimpleList {
    var data: array<AirObject>
    var size: nat

    /** At most a full array is in use, and the array has a capacity the list can reach. */
    ghost predicate Valid()
      reads this
    {
      size <= data.Length && IsCapacity(data.Length)
    }

    /** The objects in the list, in order. */
    ghost function Contents(): (s: seq<AirObject>)
      reads this, data
      requires Valid()
    {
      data[..size]
    }

    constructor ()
      ensures Valid() && fresh(data) && data.Length == DefaultCapacity && Contents() == []
    {
      data := new AirObject[DefaultCapacity];
      size := 0;
    }

    function Size(): (n: nat)
      reads this, data
      requires Valid()
      ensures n == |Contents()|
    {
      size
    }

    /** The object at index; an index outside [0, size) throws IndexOutOfBoundsException. */
    method Get(index: int) returns (r: Outcome<AirObject>)
      requires Valid()
      ensures 0 <= index < |Contents()| ==> r == Returned(Contents()[index])
      ensures !(0 <= index < |Contents()|) ==> r == Thrown(IndexOutOfBounds)
    {
      if index < 0 || index >= size {
        return Thrown(IndexOutOfBounds);
      }
      return Returned(data[index]);
    }

    method Add(obj: AirObject)
      requires Valid()
      modifies this, data
      ensures Valid() && Contents() == old(Contents()) + [obj]
      ensures old(size) == old(data.Length) ==> fresh(data) && data.Length == 2 * old(data.Length)
      ensures old(size) < old(data.Length) ==> data == old(data)
    {
      if size == data.Length {
        Resize();
      }
      data[size] := obj;
      size := size + 1;
    }

    method Clear()
      modifies this
      ensures Valid() && fresh(data) && data.Length == DefaultCapacity && Contents() == []
    {
      data := new AirObject[DefaultCapacity];
      size := 0;
    }

    /**
     * Removes the first occurrence of obj, shifting the objects after it one
     * place left. Returns the removed object, or None when obj is absent.
     */
    method Remove(obj: AirObject) returns (removed: Option<AirObject>)
      requires Valid()
      modifies this`size, data
      ensures Valid() && data == old(data)
      ensures removed == if obj in old(Contents()) then Some(obj) else None
      ensures Contents() == RemoveFirst(old(Contents()), obj)
    {
      ghost var was := Contents();
      var n := size;
      var i := FirstIndex(data, n, obj);
      if i < n {
        RemoveAt(i);
        RemoveFirstAt(was, obj, i);
        removed := Some(obj);
      } else {
        assert was == data[..i];
        removed := None;
      }
    }

    /** Drops the object at index i, shifting the later ones one place left. */
    method RemoveAt(i: int)
      requires Valid() && 0 <= i < size
      modifies this`size, data
      ensures Valid() && Contents() == old(Contents()[..i] + Contents()[i + 1..])
    {
      var n := size;
      ShiftLeft(data, i, n);
      size := n - 1;
    }

    /** Doubles the capacity, keeping the objects. */
    method Resize()
      requires Valid()
      modifies this
      ensures Valid() && fresh(data) && data.Length == 2 * old(data.Length)
      ensures size == old(size) && Contents() == old(Contents())
    {
      var grown := new AirObject[2 * data.Length];
      forall k | 0 <= k < size {
        grown[k] := data[k];
      }
      assert IsCapacity(grown.Length / 2);
      data := grown;
    }
  }

  /** Index of the first x among a[..n], or n when x is not there. */
  method FirstIndex<T(==)>(a: array<T>, n: int, x: T) returns (i: int)
    requires 0 <= n <= a.Length
    ensures 0 <= i <= n && x !in a[..i]
    ensures i < n ==> a[i] == x
  {
    i := 0;
    while i < n
      invariant 0 <= i <= n && x !in a[..i]
    {
      if a[i] == x {
        return;
      }
      i := i + 1;
    }
  }

  /** Moves a[i + 1..n] one place left, as System.arraycopy does in SimpleList.remove. */
  method ShiftLeft<T>(a: array<T>, i: int, n: int)
    requires 0 <= i < n <= a.Length
    modifies a
    ensures a[..n - 1] == old(a[..i]) + old(a[i + 1..n])
    ensures a[n - 1..] == old(a[n - 1..])
  {
    ghost var was := a[..];
    var k := i;
    while k < n - 1
      invariant i <= k <= n - 1
      invariant forall j :: 0 <= j < i ==> a[j] == was[j]
      invariant forall j :: i <= j < k ==> a[j] == was[j + 1]
      invariant forall j :: k <= j < a.Length ==> a[j] == was[j]
    {
      a[k] := a[k + 1];
      k := k + 1;
    }
    assert a[..n - 1] == was[..i] + was[i + 1..n];
    assert a[n - 1..] == was[n - 1..];
  }
}
