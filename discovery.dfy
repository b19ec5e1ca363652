/**
 * Segment discovery: of the output directory's entries, keep the names that
 * start with `part_` and end with `.m4a`, sorted by JavaScript's default
 * string order. The directory listing is given as a sequence of names.
 */
module Discovery {
  import opened JsText
  import opened JsOrder

  const SegmentPrefix: string := "part_"
  const SegmentSuffix: string := ".m4a"

  predicate IsSegmentFile(name: string) {
    StartsWith(name, SegmentPrefix) && EndsWith(name, SegmentSuffix)
  }

  /** No name occurs twice, as in a directory listing. */
  predicate NoDuplicates(s: seq<string>) {
    forall i, j :: 0 <= i < j < |s| ==> s[i] != s[j]
  }

  /** The names of the listing that start with `part_` and end with `.m4a`, in listing order. */
  function FilterSegments(names: seq<string>): (r: seq<string>)
    ensures forall x :: multiset(r)[x] == if IsSegmentFile(x) then multiset(names)[x] else 0
  {
    if names == [] then []
    else
      assert names == [names[0]] + names[1..];
      (if IsSegmentFile(names[0]) then [names[0]] else []) + FilterSegments(names[1..])
  }

  /** The segment files of a directory listing, in the order they are archived. */
  function Discover(listing: seq<string>): (files: seq<string>)
    ensures Sorted(files)
    ensures multiset(files) == multiset(FilterSegments(listing))
  {
    SortStringsSorted(FilterSegments(listing));
    SortStrings(FilterSegments(listing))
  }

  // ---------------------------------------------------------------------
  // What discovery returns

  /**
   * Discovery returns the listing's segment files, each as often as the
   * listing holds it and nothing else, in ascending order.
   */
  lemma DiscoverContents(listing: seq<string>)
    ensures Sorted(Discover(listing))
    ensures forall x :: multiset(Discover(listing))[x] == if IsSegmentFile(x) then multiset(listing)[x] else 0
    ensures forall x :: x in Discover(listing) <==> x in listing && IsSegmentFile(x)
  {
    SortStringsSorted(FilterSegments(listing));
    var files := Discover(listing);
    forall x ensures x in files <==> x in listing && IsSegmentFile(x) {
      assert x in files <==> multiset(files)[x] > 0;
      assert x in listing <==> multiset(listing)[x] > 0;
    }
  }

  /** Discovery finds nothing exactly when no name in the listing is a segment file. */
  lemma DiscoverEmptyIff(listing: seq<string>)
    ensures |Discover(listing)| == 0 <==> forall f :: f in listing ==> !IsSegmentFile(f)
  {
    DiscoverContents(listing);
    var files := Discover(listing);
    if |files| > 0 {
      assert files[0] in files;
    }
  }

  /** The order does not depend on the sorting algorithm: any sorted arrangement of the segment files is this one. */
  lemma DiscoverCanonical(listing: seq<string>, r: seq<string>)
    requires Sorted(r)
    requires multiset(r) == multiset(FilterSegments(listing))
    ensures r == Discover(listing)
  {
    SortStringsSorted(FilterSegments(listing));
    SortedUnique(r, Discover(listing));
  }

  lemma {:induction false} NoDuplicatesCounts(s: seq<string>, x: string)
    requires NoDuplicates(s)
    ensures multiset(s)[x] <= 1
  {
    if s != [] {
      assert s == [s[0]] + s[1..];
      assert NoDuplicates(s[1..]) by {
        forall i, j | 0 <= i < j < |s[1..]| ensures s[1..][i] != s[1..][j] {
          assert s[1..][i] == s[i + 1] && s[1..][j] == s[j + 1];
        }
      }
      NoDuplicatesCounts(s[1..], x);
      if s[0] == x {
        assert x !in s[1..] by {
          forall k | 0 <= k < |s[1..]| ensures s[1..][k] != x {
            assert s[1..][k] == s[k + 1];
          }
        }
      }
    }
  }

  lemma RepeatCounts(s: seq<string>, i: int, j: int)
    requires 0 <= i < j < |s| && s[i] == s[j]
    ensures multiset(s)[s[i]] >= 2
  {
    assert s == s[..j] + s[j..];
    assert s[i] in s[..j];
    assert s[j..] == [s[j]] + s[j + 1..];
  }

  /** A listing of segment files only passes the filter unchanged. */
  lemma {:induction false} FilterKeepsSegments(names: seq<string>)
    requires forall f :: f in names ==> IsSegmentFile(f)
    ensures FilterSegments(names) == names
  {
    if names != [] {
      assert names == [names[0]] + names[1..];
      FilterKeepsSegments(names[1..]);
    }
  }

  lemma SortedPair(x: string, y: string)
    requires Less(x, y)
    ensures Sorted([x, y])
  {
    LessAsymmetric(x, y);
  }

  /** In whichever order they are listed, the first two segments are discovered as `part_000.m4a` then `part_001.m4a`. */
  lemma TwoSegmentsExample(listing: seq<string>)
    requires listing == [SegmentName(1), SegmentName(0)] || listing == [SegmentName(0), SegmentName(1)]
    ensures Discover(listing) == [SegmentName(0), SegmentName(1)]
  {
    var expected := [SegmentName(0), SegmentName(1)];
    SegmentNameIsSegmentFile(0);
    SegmentNameIsSegmentFile(1);
    FilterKeepsSegments(listing);
    assert multiset(expected) == multiset(listing);
    OrdinalOrder(0, 1);
    SortedPair(SegmentName(0), SegmentName(1));
    DiscoverCanonical(listing, expected);
  }

  /** From a listing without repeated names, discovery returns strictly ascending names. */
  lemma DiscoverStrictlyAscending(listing: seq<string>)
    requires NoDuplicates(listing)
    ensures forall i, j :: 0 <= i < j < |Discover(listing)| ==> Less(Discover(listing)[i], Discover(listing)[j])
  {
    var files := Discover(listing);
    DiscoverContents(listing);
    forall i, j | 0 <= i < j < |files| ensures Less(files[i], files[j]) {
      if files[i] == files[j] {
        RepeatCounts(files, i, j);
        NoDuplicatesCounts(listing, files[i]);
      }
      LessTrichotomy(files[i], files[j]);
    }
  }

  // ---------------------------------------------------------------------
  // Ordinals

  /** ffmpeg's `%03d`: at least three digits, zero-padded on the left. */
  function Pad3(n: nat): string {
    if n < 10 then "00" + NatDigits(n)
    else if n < 100 then "0" + NatDigits(n)
    else NatDigits(n)
  }

  /** The file ffmpeg writes for segment `n` under the pattern `part_%03d.m4a`. */
  function SegmentName(n: nat): string {
    SegmentPrefix + Pad3(n) + SegmentSuffix
  }

  lemma SegmentNameIsSegmentFile(n: nat)
    ensures IsSegmentFile(SegmentName(n))
  {
    var name := SegmentName(n);
    assert name[..|SegmentPrefix|] == SegmentPrefix;
    assert name[|name| - |SegmentSuffix|..] == SegmentSuffix;
  }

  /** Below 1000 the padded ordinal is exactly its three decimal digits. */
  lemma Pad3Digits(n: nat)
    requires n < 1000
    ensures Pad3(n) == [DigitChar(n / 100), DigitChar(n / 10 % 10), DigitChar(n % 10)]
  {
    var h, t, u := n / 100, n / 10 % 10, n % 10;
    if n < 10 {
      assert h == 0 && t == 0 && u == n;
      assert NatDigits(n) == [DigitChar(u)];
    } else if n < 100 {
      assert h == 0 && n / 10 == t;
      assert NatDigits(n) == NatDigits(t) + [DigitChar(u)];
      assert NatDigits(t) == [DigitChar(t)];
    } else {
      assert n / 10 / 10 == h && n / 10 % 10 == t && n / 10 >= 10 && h < 10;
      assert NatDigits(n) == NatDigits(n / 10) + [DigitChar(u)];
      assert NatDigits(n / 10) == NatDigits(h) + [DigitChar(t)];
      assert NatDigits(h) == [DigitChar(h)];
    }
  }

  lemma DigitOrder(x: nat, y: nat)
    requires x < 10 && y < 10
    ensures CharBefore(DigitChar(x), DigitChar(y)) <==> x < y
    ensures DigitChar(x) == DigitChar(y) <==> x == y
  {
  }

  /** Three characters followed by a common tail compare by the first character that differs. */
  lemma ThreeCharOrder(x1: char, x2: char, x3: char, y1: char, y2: char, y3: char, tail: string)
    requires x1 != y1 || x2 != y2 || x3 != y3
    ensures Less([x1, x2, x3] + tail, [y1, y2, y3] + tail) <==>
      if x1 != y1 then CharBefore(x1, y1)
      else if x2 != y2 then CharBefore(x2, y2)
      else CharBefore(x3, y3)
  {
    var x3, y3 := [x3] + tail, [y3] + tail;
    var x2, y2 := [x2] + x3, [y2] + y3;
    var x, y := [x1] + x2, [y1] + y2;
    assert [x1, x2[0], x3[0]] + tail == x && [y1, y2[0], y3[0]] + tail == y;
    assert x[1..] == x2 && y[1..] == y2 && x2[1..] == x3 && y2[1..] == y3;
    assert Less(x, y) == if x1 != y1 then CharBefore(x1, y1) else Less(x2, y2);
    assert Less(x2, y2) == if x2[0] != y2[0] then CharBefore(x2[0], y2[0]) else Less(x3, y3);
    assert Less(x3, y3) == if x3[0] != y3[0] then CharBefore(x3[0], y3[0]) else Less(tail, tail);
  }

  /** A number below 1000 is its hundreds, tens and units digits. */
  lemma ThreeDigitDecompose(a: nat)
    requires a < 1000
    ensures a == 100 * (a / 100) + 10 * (a / 10 % 10) + a % 10
    ensures a / 100 < 10 && a / 10 % 10 < 10 && a % 10 < 10
  {
    assert a == 10 * (a / 10) + a % 10;
    assert a / 10 == 10 * (a / 10 / 10) + a / 10 % 10;
    assert a / 10 / 10 == a / 100;
  }

  lemma DigitTriplesCompare(a1: nat, a2: nat, a3: nat, b1: nat, b2: nat, b3: nat)
    requires a2 < 10 && a3 < 10 && b2 < 10 && b3 < 10
    requires a1 != b1 || a2 != b2 || a3 != b3
    ensures 100 * a1 + 10 * a2 + a3 < 100 * b1 + 10 * b2 + b3 <==>
      if a1 != b1 then a1 < b1 else if a2 != b2 then a2 < b2 else a3 < b3
  {
  }

  /** Below 1000, numeric order is the order of the hundreds, tens and units digits, compared left to right. */
  lemma ThreeDigitArithmetic(a: nat, b: nat)
    requires a < 1000 && b < 1000 && a != b
    ensures a < b <==>
      if a / 100 != b / 100 then a / 100 < b / 100
      else if a / 10 % 10 != b / 10 % 10 then a / 10 % 10 < b / 10 % 10
      else a % 10 < b % 10
  {
    ThreeDigitDecompose(a);
    ThreeDigitDecompose(b);
    DigitTriplesCompare(a / 100, a / 10 % 10, a % 10, b / 100, b / 10 % 10, b % 10);
  }

  lemma ThreeDigitOrder(a: nat, b: nat, tail: string)
    requires a < 1000 && b < 1000
    ensures Less(Pad3(a) + tail, Pad3(b) + tail) <==> a < b
  {
    if a == b {
      LessIrreflexive(Pad3(a) + tail);
    } else {
      Pad3Digits(a);
      Pad3Digits(b);
      DigitOrder(a / 100, b / 100);
      DigitOrder(a / 10 % 10, b / 10 % 10);
      DigitOrder(a % 10, b % 10);
      ThreeDigitArithmetic(a, b);
      ThreeCharOrder(DigitChar(a / 100), DigitChar(a / 10 % 10), DigitChar(a % 10),
                     DigitChar(b / 100), DigitChar(b / 10 % 10), DigitChar(b % 10), tail);
    }
  }

  /**
   * The fixed-width names make string order ordinal order: for ordinals
   * below 1000 one name sorts before another exactly when its ordinal is smaller.
   */
  lemma OrdinalOrder(a: nat, b: nat)
    requires a < 1000 && b < 1000
    ensures Less(SegmentName(a), SegmentName(b)) <==> a < b
  {
    assert SegmentName(a) == SegmentPrefix + (Pad3(a) + SegmentSuffix);
    assert SegmentName(b) == SegmentPrefix + (Pad3(b) + SegmentSuffix);
    LessCommonPrefix(SegmentPrefix, Pad3(a) + SegmentSuffix, Pad3(b) + SegmentSuffix);
    ThreeDigitOrder(a, b, SegmentSuffix);
  }

  /** The guarantee ends at 1000: `part_1000.m4a` sorts before `part_101.m4a`. */
  lemma OrdinalOrderEndsAt1000()
    ensures Less(SegmentName(1000), SegmentName(101))
  {
    assert NatDigits(1) == "1";
    assert NatDigits(10) == "10";
    assert NatDigits(100) == "100";
    assert NatDigits(1000) == "1000";
    assert NatDigits(101) == "101";
    var tail := "1000.m4a";
    var tail' := "101.m4a";
    assert SegmentName(1000) == SegmentPrefix + tail;
    assert SegmentName(101) == SegmentPrefix + tail';
    LessCommonPrefix(SegmentPrefix, tail, tail');
    assert tail[1..][1..] == "00.m4a" && tail'[1..][1..] == "1.m4a";
  }

  /**
   * Discovered segment files come out in ascending ordinal order, as long as
   * the ordinals stay below 1000.
   */
  lemma DiscoverInOrdinalOrder(listing: seq<string>, i: int, j: int, a: nat, b: nat)
    requires NoDuplicates(listing)
    requires 0 <= i < j < |Discover(listing)|
    requires a < 1000 && b < 1000
    requires Discover(listing)[i] == SegmentName(a) && Discover(listing)[j] == SegmentName(b)
    ensures a < b
  {
    DiscoverStrictlyAscending(listing);
    OrdinalOrder(a, b);
  }
}
