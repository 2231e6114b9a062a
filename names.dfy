/**
 * Lexicographic comparison of names, as java.lang.String.compareTo computes it.
 * A Java string is a sequence of UTF-16 code units, so a character above U+FFFF
 * counts as two units (a surrogate pair). At the first index where the unit
 * sequences differ, the result is the difference of the two units. When one is
 * a prefix of the other, it is the difference of the lengths in units.
 * AirObject.compareTo and the skip list's key order both use this comparison.
 */
module Names {

  /** The first UTF-16 unit of a character: itself, or its high surrogate. */
  function High(c: char): int {
    if c as int < 0x1_0000 then c as int else 0xD800 + (c as int - 0x1_0000) / 0x400
  }

  /** The low surrogate of a character above U+FFFF. */
  function Low(c: char): int {
    0xDC00 + (c as int - 0x1_0000) % 0x400
  }

  /** The UTF-16 code units of one character: itself, or a high and a low surrogate. */
  function Units(c: char): seq<int> {
    if c as int < 0x1_0000 then [c as int] else [High(c), Low(c)]
  }

  /**
   * A character below U+10000 is one unit, itself, which is never a surrogate;
   * any other is a high surrogate followed by a low surrogate.
   */
  lemma UnitsShape(c: char)
    ensures 1 <= |Units(c)| <= 2
    ensures |Units(c)| == 1 <==> c as int < 0x1_0000
    ensures |Units(c)| == 1 ==> Units(c)[0] == c as int && !(0xD800 <= Units(c)[0] < 0xE000)
    ensures |Units(c)| == 2 ==> 0xD800 <= Units(c)[0] < 0xDC00 && 0xDC00 <= Units(c)[1] < 0xE000
  {
  }

  /** The UTF-16 encoding of a string: the units of each character in turn. */
  function Utf16(s: string): (u: seq<int>)
    ensures |u| >= |s|
  {
    if s == [] then [] else UnitsShape(s[0]); Units(s[0]) + Utf16(s[1..])
  }

  /** String.compareTo on UTF-16 code units: the reference definition of the order. */
  function CompareUnits(a: seq<int>, b: seq<int>): int
    decreases |a|
  {
    if |a| == 0 || |b| == 0 then |a| - |b|
    else if a[0] != b[0] then a[0] - b[0]
    else CompareUnits(a[1..], b[1..])
  }

  /** String.length: the number of UTF-16 units. */
  function UnitLength(s: string): nat {
    if s == [] then 0 else (if s[0] as int < 0x1_0000 then 1 else 2) + UnitLength(s[1..])
  }

  /**
   * Two characters compared by their units: the first differing unit decides.
   * Distinct characters always differ within their units, since a lone unit is
   * never a surrogate and the high surrogate fixes the pair's length.
   */
  function CharDiff(c: char, d: char): int {
    if c == d then 0
    else if High(c) != High(d) then High(c) - High(d)
    else Low(c) - Low(d)
  }

  /** String.compareTo, character by character; CompareIsUnitOrder ties it to CompareUnits. */
  function CompareStrings(a: string, b: string): int {
    if a == [] || b == [] then UnitLength(a) - UnitLength(b)
    else if a[0] != b[0] then CharDiff(a[0], b[0])
    else CompareStrings(a[1..], b[1..])
  }

  /** A character's units determine the character. */
  lemma UnitsInjective(c: char, d: char)
    requires Units(c) == Units(d)
    ensures c == d
  {
    if c as int >= 0x1_0000 {
      var v, w := c as int - 0x1_0000, d as int - 0x1_0000;
      assert v == (v / 0x400) * 0x400 + v % 0x400;
      assert w == (w / 0x400) * 0x400 + w % 0x400;
    }
  }

  /** Distinct strings have distinct encodings. */
  lemma {:induction false} Utf16Injective(a: string, b: string)
    requires Utf16(a) == Utf16(b)
    ensures a == b
    decreases |a|
  {
    if a != [] && b != [] {
      var ua, ub := Units(a[0]), Units(b[0]);
      var u := Utf16(a);
      assert u == ua + Utf16(a[1..]) && u == ub + Utf16(b[1..]);
      assert u[0] == ua[0] == ub[0];
      assert |ua| == |ub|;
      assert ua == u[..|ua|] == ub;
      UnitsInjective(a[0], b[0]);
      assert Utf16(a[1..]) == u[|ua|..] == Utf16(b[1..]);
      Utf16Injective(a[1..], b[1..]);
      assert a == [a[0]] + a[1..] && b == [b[0]] + b[1..];
    }
  }

  /** On units, the comparison is zero exactly for equal sequences. */
  lemma {:induction false} CompareUnitsZeroIffEqual(a: seq<int>, b: seq<int>)
    ensures CompareUnits(a, b) == 0 <==> a == b
    decreases |a|
  {
    if |a| != 0 && |b| != 0 && a[0] == b[0] {
      CompareUnitsZeroIffEqual(a[1..], b[1..]);
      if a[1..] == b[1..] {
        assert a == [a[0]] + a[1..] && b == [b[0]] + b[1..];
      }
    }
  }

  /** On units, swapping the arguments negates the result. */
  lemma {:induction false} CompareUnitsAntisymmetric(a: seq<int>, b: seq<int>)
    ensures CompareUnits(a, b) == -CompareUnits(b, a)
    decreases |a|
  {
    if |a| != 0 && |b| != 0 && a[0] == b[0] {
      CompareUnitsAntisymmetric(a[1..], b[1..]);
    }
  }

  /** On units, "at most" is transitive. */
  lemma {:induction false} CompareUnitsTransitive(a: seq<int>, b: seq<int>, c: seq<int>)
    requires CompareUnits(a, b) <= 0 && CompareUnits(b, c) <= 0
    ensures CompareUnits(a, c) <= 0
    decreases |a|
  {
    if |a| != 0 && |b| != 0 && |c| != 0 && a[0] == b[0] && b[0] == c[0] {
      CompareUnitsTransitive(a[1..], b[1..], c[1..]);
    }
  }

  /** The unit length of a string is the length of its encoding. */
  lemma {:induction false} UnitLengthIsEncodingLength(s: string)
    ensures UnitLength(s) == |Utf16(s)|
    decreases |s|
  {
    if s != [] {
      UnitLengthIsEncodingLength(s[1..]);
    }
  }

  /** A common prefix of units does not change the comparison. */
  lemma {:induction false} CompareUnitsCommonPrefix(p: seq<int>, x: seq<int>, y: seq<int>)
    ensures CompareUnits(p + x, p + y) == CompareUnits(x, y)
    decreases |p|
  {
    if p != [] {
      assert (p + x)[1..] == p[1..] + x && (p + y)[1..] == p[1..] + y;
      CompareUnitsCommonPrefix(p[1..], x, y);
    } else {
      assert p + x == x && p + y == y;
    }
  }

  /** Two distinct leading characters decide the comparison of the encodings. */
  lemma CompareUnitsFirstChar(c: char, d: char, x: seq<int>, y: seq<int>)
    requires c != d
    ensures CompareUnits(Units(c) + x, Units(d) + y) == CharDiff(c, d)
  {
    var u, v := Units(c), Units(d);
    var a, b := u + x, v + y;
    assert a[0] == u[0] && b[0] == v[0];
    if u[0] == v[0] {
      if u == v {
        UnitsInjective(c, d);
      }
      assert a[1..][0] == u[1] && b[1..][0] == v[1];
    }
  }

  /** The character-by-character comparison is the comparison of the UTF-16 encodings. */
  lemma {:induction false} CompareIsUnitOrder(a: string, b: string)
    ensures CompareStrings(a, b) == CompareUnits(Utf16(a), Utf16(b))
    decreases |a|
  {
    if a == [] || b == [] {
      UnitLengthIsEncodingLength(a);
      UnitLengthIsEncodingLength(b);
    } else if a[0] != b[0] {
      CompareUnitsFirstChar(a[0], b[0], Utf16(a[1..]), Utf16(b[1..]));
    } else {
      CompareUnitsCommonPrefix(Units(a[0]), Utf16(a[1..]), Utf16(b[1..]));
      CompareIsUnitOrder(a[1..], b[1..]);
    }
  }

  /** The comparison is zero exactly for equal strings. */
  lemma CompareZeroIffEqual(a: string, b: string)
    ensures CompareStrings(a, b) == 0 <==> a == b
  {
    CompareIsUnitOrder(a, b);
    CompareUnitsZeroIffEqual(Utf16(a), Utf16(b));
    if Utf16(a) == Utf16(b) {
      Utf16Injective(a, b);
    }
  }

  /** Swapping the arguments negates the result. */
  lemma CompareAntisymmetric(a: string, b: string)
    ensures CompareStrings(a, b) == -CompareStrings(b, a)
  {
    CompareIsUnitOrder(a, b);
    CompareIsUnitOrder(b, a);
    CompareUnitsAntisymmetric(Utf16(a), Utf16(b));
  }

  /** "At most" is transitive. */
  lemma CompareTransitive(a: string, b: string, c: string)
    requires CompareStrings(a, b) <= 0 && CompareStrings(b, c) <= 0
    ensures CompareStrings(a, c) <= 0
  {
    CompareIsUnitOrder(a, b);
    CompareIsUnitOrder(b, c);
    CompareIsUnitOrder(a, c);
    CompareUnitsTransitive(Utf16(a), Utf16(b), Utf16(c));
  }

  /**
   * Java orders by code unit, not by code point: U+FFFF sorts after U+10000,
   * whose high surrogate 0xD800 is below 0xFFFF, and U+10000 has length 2.
   */
  lemma SupplementarySortsByUnits()
    ensures UnitLength("\U{10000}") == 2
    ensures CompareStrings("\U{FFFF}", "\U{10000}") == 0xFFFF - 0xD800
  {
    assert Units('\U{10000}') == [0xD800, 0xDC00];
  }

  /** "At most" followed by "strictly less" is "strictly less". */
  lemma CompareLeqLess(a: string, b: string, c: string)
    requires CompareStrings(a, b) <= 0 && CompareStrings(b, c) < 0
    ensures CompareStrings(a, c) < 0
  {
    CompareTransitive(a, b, c);
    if CompareStrings(a, c) == 0 {
      CompareZeroIffEqual(a, c);
      CompareAntisymmetric(b, c);
      CompareZeroIffEqual(a, b);
    }
  }

  /** "Strictly less" followed by "at most" is "strictly less". */
  lemma CompareLessLeq(a: string, b: string, c: string)
    requires CompareStrings(a, b) < 0 && CompareStrings(b, c) <= 0
    ensures CompareStrings(a, c) < 0
  {
    CompareTransitive(a, b, c);
    if CompareStrings(a, c) == 0 {
      CompareZeroIffEqual(a, c);
      CompareAntisymmetric(a, b);
      CompareZeroIffEqual(b, c);
    }
  }
}
