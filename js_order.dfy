/**
 * JavaScript's default string order (the `<` on strings, and the order that
 * `Array.prototype.sort` uses when no comparator is given) and a reference
 * sort under it.
 *
 * JavaScript compares strings by their UTF-16 code units. Here a string is a
 * sequence of Unicode scalar values, so a character is compared by its first
 * UTF-16 code unit and, for two supplementary characters with the same high
 * surrogate, by its code point (which orders their low surrogates). No
 * character's encoding is a proper prefix of another's, so this is exactly
 * code-unit order.
 */
module JsOrder {

  /** The first UTF-16 code unit of `c`: `c` itself in the Basic Multilingual Plane, else its high surrogate. */
  function LeadUnit(c: char): int {
    if c as int < 0x1_0000 then c as int else 0xD800 + (c as int - 0x1_0000) / 0x400
  }

  /** `a` sorts before `b` when their UTF-16 encodings are compared unit by unit. */
  predicate CharBefore(a: char, b: char) {
    LeadUnit(a) < LeadUnit(b) || (LeadUnit(a) == LeadUnit(b) && a < b)
  }

  /** The string `a < b` of JavaScript: lexicographic, a proper prefix first. */
  predicate Less(a: string, b: string)
    decreases |a|
  {
    if |a| == 0 then |b| > 0
    else if |b| == 0 then false
    else if a[0] == b[0] then Less(a[1..], b[1..])
    else CharBefore(a[0], b[0])
  }

  // ---------------------------------------------------------------------
  // Less is the order of UTF-16 code units

  /** The UTF-16 encoding of one character: one code unit, or a high and a low surrogate. */
  function Units(c: char): (u: seq<int>)
    ensures |u| > 0 && u[0] == LeadUnit(c)
  {
    if c as int < 0x1_0000 then [c as int]
    else [0xD800 + (c as int - 0x1_0000) / 0x400, 0xDC00 + (c as int - 0x1_0000) % 0x400]
  }

  /** The UTF-16 encoding of a string, the sequence of code units JavaScript compares. */
  function Utf16(s: string): (u: seq<int>)
    ensures |u| == 0 <==> |s| == 0
  {
    if s == [] then [] else Units(s[0]) + Utf16(s[1..])
  }

  /** Lexicographic order on code units, a proper prefix first. */
  predicate UnitsLess(u: seq<int>, v: seq<int>)
    decreases |u|
  {
    if |u| == 0 then |v| > 0
    else if |v| == 0 then false
    else if u[0] == v[0] then UnitsLess(u[1..], v[1..])
    else u[0] < v[0]
  }

  lemma {:induction false} UnitsLessCommonPrefix(p: seq<int>, x: seq<int>, y: seq<int>)
    ensures UnitsLess(p + x, p + y) == UnitsLess(x, y)
  {
    if |p| > 0 {
      assert (p + x)[0] == p[0] == (p + y)[0];
      assert (p + x)[1..] == p[1..] + x;
      assert (p + y)[1..] == p[1..] + y;
      UnitsLessCommonPrefix(p[1..], x, y);
    } else {
      assert p + x == x && p + y == y;
    }
  }

  /** Two different characters are ordered by their encodings, whatever follows them. */
  lemma CharUnitsOrder(c: char, d: char, x: seq<int>, y: seq<int>)
    requires c != d
    ensures UnitsLess(Units(c) + x, Units(d) + y) == CharBefore(c, d)
  {
    var u, v := Units(c) + x, Units(d) + y;
    assert u[0] == LeadUnit(c) && v[0] == LeadUnit(d);
    if LeadUnit(c) == LeadUnit(d) {
      // Only two supplementary characters with the same high surrogate share a lead unit.
      assert c as int >= 0x1_0000 && d as int >= 0x1_0000;
      var qc, rc := (c as int - 0x1_0000) / 0x400, (c as int - 0x1_0000) % 0x400;
      var qd, rd := (d as int - 0x1_0000) / 0x400, (d as int - 0x1_0000) % 0x400;
      assert c as int == 0x1_0000 + 0x400 * qc + rc && d as int == 0x1_0000 + 0x400 * qd + rd;
      assert qc == qd && rc != rd;
      assert u[1..] == [0xDC00 + rc] + x && v[1..] == [0xDC00 + rd] + y;
      assert UnitsLess(u, v) == UnitsLess(u[1..], v[1..]);
      assert (c < d) == (rc < rd);
    }
  }

  /** `Less` is exactly the comparison of the UTF-16 encodings, code unit by code unit. */
  lemma {:induction false} LessIsCodeUnitOrder(a: string, b: string)
    ensures Less(a, b) <==> UnitsLess(Utf16(a), Utf16(b))
    decreases |a|
  {
    if |a| > 0 && |b| > 0 {
      assert Utf16(a) == Units(a[0]) + Utf16(a[1..]);
      assert Utf16(b) == Units(b[0]) + Utf16(b[1..]);
      if a[0] == b[0] {
        UnitsLessCommonPrefix(Units(a[0]), Utf16(a[1..]), Utf16(b[1..]));
        LessIsCodeUnitOrder(a[1..], b[1..]);
      } else {
        CharUnitsOrder(a[0], b[0], Utf16(a[1..]), Utf16(b[1..]));
      }
    }
  }

  // ---------------------------------------------------------------------
  // Less is a strict total order

  lemma {:induction false} LessIrreflexive(a: string)
    ensures !Less(a, a)
  {
    if |a| > 0 {
      LessIrreflexive(a[1..]);
    }
  }

  lemma {:induction false} LessTransitive(a: string, b: string, c: string)
    requires Less(a, b) && Less(b, c)
    ensures Less(a, c)
    decreases |a|
  {
    if |a| > 0 && a[0] == b[0] && b[0] == c[0] {
      LessTransitive(a[1..], b[1..], c[1..]);
    }
  }

  lemma {:induction false} LessTrichotomy(a: string, b: string)
    ensures a == b || Less(a, b) || Less(b, a)
    ensures a != b ==> !(Less(a, b) && Less(b, a))
    decreases |a|
  {
    if Less(a, b) {
      LessAsymmetric(a, b);
    }
    if |a| > 0 && |b| > 0 && a[0] == b[0] {
      LessTrichotomy(a[1..], b[1..]);
      if a[1..] == b[1..] {
        assert a == [a[0]] + a[1..] && b == [b[0]] + b[1..];
      }
    }
  }

  lemma LessAsymmetric(a: string, b: string)
    requires Less(a, b)
    ensures !Less(b, a)
  {
    if Less(b, a) {
      LessTransitive(a, b, a);
      LessIrreflexive(a);
    }
  }

  /** Appending to a common prefix does not change the order. */
  lemma {:induction false} LessCommonPrefix(p: string, x: string, y: string)
    ensures Less(p + x, p + y) == Less(x, y)
  {
    if |p| > 0 {
      assert (p + x)[1..] == p[1..] + x;
      assert (p + y)[1..] == p[1..] + y;
      LessCommonPrefix(p[1..], x, y);
    } else {
      assert p + x == x && p + y == y;
    }
  }

  // ---------------------------------------------------------------------
  // Sorting

  /** Non-descending under `Less`. */
  predicate Sorted(s: seq<string>) {
    forall i, j :: 0 <= i < j < |s| ==> !Less(s[j], s[i])
  }

  /** `x` inserted before the first element that does not sort below it. */
  function Insert(x: string, s: seq<string>): (r: seq<string>)
    ensures multiset(r) == multiset(s) + multiset{x}
  {
    if s == [] then [x]
    else if Less(s[0], x) then
      assert s == [s[0]] + s[1..];
      [s[0]] + Insert(x, s[1..])
    else [x] + s
  }

  /** Insertion sort under `Less`: a reference for the engine's `sort()`. */
  function SortStrings(s: seq<string>): (r: seq<string>)
    ensures multiset(r) == multiset(s)
  {
    if s == [] then []
    else
      assert s == [s[0]] + s[1..];
      Insert(s[0], SortStrings(s[1..]))
  }

  /** A sorted sequence stays sorted under a new head that nothing in it sorts below. */
  lemma SortedCons(h: string, t: seq<string>)
    requires Sorted(t)
    requires forall y :: y in t ==> !Less(y, h)
    ensures Sorted([h] + t)
  {
    var r := [h] + t;
    forall i, j | 0 <= i < j < |r| ensures !Less(r[j], r[i]) {
      if i > 0 {
        assert r[i] == t[i - 1] && r[j] == t[j - 1];
      } else {
        assert r[j] in t;
      }
    }
  }

  lemma {:induction false} InsertSorted(x: string, s: seq<string>)
    requires Sorted(s)
    ensures Sorted(Insert(x, s))
  {
    if s == [] {
    } else if Less(s[0], x) {
      InsertSorted(x, s[1..]);
      var tail := Insert(x, s[1..]);
      forall y | y in tail ensures !Less(y, s[0]) {
        assert y in multiset(tail);
        if y == x {
          LessAsymmetric(s[0], x);
        } else {
          assert y in multiset(s[1..]);
          var k :| 0 <= k < |s[1..]| && s[1..][k] == y;
          assert s[k + 1] == y;
        }
      }
      SortedCons(s[0], tail);
    } else {
      // s[0] does not sort below x, and nothing in s sorts below s[0].
      forall y | y in s ensures !Less(y, x) {
        var k :| 0 <= k < |s| && s[k] == y;
        if Less(y, x) && k > 0 {
          assert !Less(s[k], s[0]);
          LessTrichotomy(s[0], x);
          if s[0] != x {
            LessTransitive(y, x, s[0]);
          }
        }
      }
      SortedCons(x, s);
    }
  }

  lemma {:induction false} SortStringsSorted(s: seq<string>)
    ensures Sorted(SortStrings(s))
  {
    if s != [] {
      SortStringsSorted(s[1..]);
      InsertSorted(s[0], SortStrings(s[1..]));
    }
  }

  /** Two sorted arrangements of the same multiset start with the same string. */
  lemma SortedSameHead(a: seq<string>, b: seq<string>)
    requires Sorted(a) && Sorted(b) && |a| > 0
    requires multiset(a) == multiset(b)
    ensures |b| > 0 && a[0] == b[0]
  {
    assert a[0] in multiset(b);
    assert |b| > 0;
    assert b[0] in multiset(a);
    var k :| 0 <= k < |b| && b[k] == a[0];
    var m :| 0 <= m < |a| && a[m] == b[0];
    assert !Less(a[0], b[0]) by {
      if k > 0 { assert !Less(b[k], b[0]); }
      else { LessIrreflexive(a[0]); }
    }
    assert !Less(b[0], a[0]) by {
      if m > 0 { assert !Less(a[m], a[0]); }
      else { LessIrreflexive(b[0]); }
    }
    LessTrichotomy(a[0], b[0]);
  }

  lemma SameTailMultiset(a: seq<string>, b: seq<string>)
    requires |a| > 0 && |b| > 0 && a[0] == b[0]
    requires multiset(a) == multiset(b)
    ensures multiset(a[1..]) == multiset(b[1..])
  {
    assert a == [a[0]] + a[1..] && b == [b[0]] + b[1..];
    assert multiset(a[1..]) == multiset(a) - multiset{a[0]};
    assert multiset(b[1..]) == multiset(b) - multiset{b[0]};
  }

  /**
   * A sorted arrangement of a multiset of strings is unique: whatever
   * algorithm the engine uses, its `sort()` result is `SortStrings`.
   */
  lemma {:induction false} SortedUnique(a: seq<string>, b: seq<string>)
    requires Sorted(a) && Sorted(b)
    requires multiset(a) == multiset(b)
    ensures a == b
    decreases |a|
  {
    if a == [] {
      assert |multiset(b)| == 0;
    } else {
      SortedSameHead(a, b);
      SameTailMultiset(a, b);
      assert Sorted(a[1..]) && Sorted(b[1..]);
      SortedUnique(a[1..], b[1..]);
      assert a == [a[0]] + a[1..] && b == [b[0]] + b[1..];
    }
  }
}
