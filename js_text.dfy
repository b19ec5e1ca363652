/**
 * The parts of JavaScript's string and number semantics that the handler
 * relies on: `parseInt(s, 10)`, `String(n)` of an integer or NaN,
 * `startsWith`, `endsWith`, and Node's `path.join` of a directory and a
 * plain file name.
 */
module JsText {
  import opened Wrappers

  /** ECMAScript StrWhiteSpaceChar: the WhiteSpace and LineTerminator code points. */
  predicate IsWhitespace(c: char) {
    c == '\t' || c == '\n' || c == '\U{000B}' || c == '\U{000C}' || c == '\r' || c == ' '
    || c == '\U{00A0}' || c == '\U{1680}' || ('\U{2000}' <= c <= '\U{200A}')
    || c == '\U{2028}' || c == '\U{2029}' || c == '\U{202F}' || c == '\U{205F}'
    || c == '\U{3000}' || c == '\U{FEFF}'
  }

  predicate IsDigit(c: char) {
    '0' <= c <= '9'
  }

  predicate AllDigits(d: string) {
    forall i :: 0 <= i < |d| ==> IsDigit(d[i])
  }

  function DigitValue(c: char): (v: nat)
    requires IsDigit(c)
    ensures v < 10
  {
    c as int - '0' as int
  }

  function DigitChar(v: nat): (c: char)
    requires v < 10
    ensures IsDigit(c) && DigitValue(c) == v
  {
    ('0' as int + v) as char
  }

  /** Length of the longest prefix of `s` made of whitespace. */
  function WhitespaceRun(s: string): (n: nat)
    ensures n <= |s|
    ensures forall i :: 0 <= i < n ==> IsWhitespace(s[i])
    ensures n < |s| ==> !IsWhitespace(s[n])
  {
    if |s| > 0 && IsWhitespace(s[0]) then 1 + WhitespaceRun(s[1..]) else 0
  }

  /** Length of the longest prefix of `s` made of decimal digits. */
  function DigitRun(s: string): (n: nat)
    ensures n <= |s|
    ensures AllDigits(s[..n])
    ensures n < |s| ==> !IsDigit(s[n])
  {
    if |s| > 0 && IsDigit(s[0]) then
      var k := DigitRun(s[1..]);
      assert s[..1 + k] == [s[0]] + s[1..][..k];
      1 + k
    else 0
  }

  /** The value of a run of decimal digits, most significant digit first. */
  function DigitsValue(d: string): nat
    requires AllDigits(d)
  {
    if |d| == 0 then 0 else 10 * DigitsValue(d[..|d| - 1]) + DigitValue(d[|d| - 1])
  }

  /** `t` with one leading `+` or `-` removed, if it has one. */
  function DropSign(t: string): string {
    if |t| > 0 && (t[0] == '+' || t[0] == '-') then t[1..] else t
  }

  /** The number that a sign and a digit run spell, after the whitespace is skipped. */
  function ParseSigned(t: string): Option<int> {
    var u := DropSign(t);
    var k := DigitRun(u);
    if k == 0 then None
    else
      var magnitude: int := DigitsValue(u[..k]);
      Some(if t[0] == '-' then -magnitude else magnitude)
  }

  /**
   * `parseInt(s, 10)`: skip leading whitespace, take an optional sign, then
   * the longest run of decimal digits; with no digit there the result is NaN
   * (`None`). Whatever follows the digits is ignored.
   */
  function ParseInt(s: string): (r: Option<int>)
    ensures r.Some? <==> var u := DropSign(s[WhitespaceRun(s)..]); |u| > 0 && IsDigit(u[0])
  {
    ParseSigned(s[WhitespaceRun(s)..])
  }

  /** The shortest decimal spelling of `n`, as JavaScript prints a non-negative integer. */
  function NatDigits(n: nat): (d: string)
    ensures |d| > 0 && AllDigits(d)
    ensures DigitsValue(d) == n
    ensures d[0] == '0' ==> n == 0
  {
    if n < 10 then [DigitChar(n)]
    else
      var d := NatDigits(n / 10) + [DigitChar(n % 10)];
      assert d[..|d| - 1] == NatDigits(n / 10);
      d
  }

  /** `String(n)` for an integer `n` (magnitudes below 10^21, where no exponent is printed). */
  function IntToString(n: int): string {
    if n < 0 then "-" + NatDigits(-n) else NatDigits(n)
  }

  /** `String(x)` for a number that is an integer or NaN. */
  function NumberToString(x: Option<int>): (t: string)
    ensures x.None? <==> t == "NaN"
    ensures x.Some? ==> |t| > 0 && (t[0] == '-' <==> x.value < 0)
  {
    match x
    case None => "NaN"
    case Some(n) =>
      var t := IntToString(n);
      assert t == if n < 0 then "-" + NatDigits(-n) else NatDigits(n);
      assert n >= 0 ==> IsDigit(NatDigits(n)[0]);
      assert t[0] == '-' || IsDigit(t[0]);
      assert t != "NaN" by {
        assert "NaN"[0] == 'N';
      }
      t
  }

  predicate StartsWith(s: string, prefix: string) {
    |prefix| <= |s| && s[..|prefix|] == prefix
  }

  predicate EndsWith(s: string, suffix: string) {
    |suffix| <= |s| && s[|s| - |suffix|..] == suffix
  }

  /**
   * Node's `path.join(dir, name)` for a directory that is already normalized
   * and a single file name holding no `/`, `.` or `..` segment.
   */
  function JoinPath(dir: string, name: string): (p: string)
    ensures EndsWith(p, name)
    ensures dir != "" ==> StartsWith(p, dir) && EndsWith(p, "/" + name)
  {
    if dir == "" then name
    else if dir[|dir| - 1] == '/' then
      assert (dir + name)[|dir| - 1..] == "/" + name;
      dir + name
    else
      assert (dir + "/" + name)[|dir|..] == "/" + name;
      dir + "/" + name
  }

  /**
   * Exactly one `/` separates the directory from the name: the joined path is
   * as long as both, plus one unless the directory already ends with `/`.
   * With the contract of `JoinPath` this pins the path down completely.
   */
  lemma JoinPathLength(dir: string, name: string)
    requires dir != ""
    ensures |JoinPath(dir, name)| == |dir| + |name| + (if dir[|dir| - 1] == '/' then 0 else 1)
  {
  }

  /** A directory not ending in `/` and a name are joined by a single `/`. */
  lemma JoinPathSingleSeparator(dir: string, name: string)
    requires dir != "" && dir[|dir| - 1] != '/'
    ensures JoinPath(dir, name) == dir + "/" + name
  {
    var p := JoinPath(dir, name);
    JoinPathLength(dir, name);
    assert p[..|dir|] == dir;
    assert p[|p| - |name| - 1..] == "/" + name;
    assert p == p[..|dir|] + p[|p| - |name| - 1..];
  }

  // ---------------------------------------------------------------------
  // Properties of parseInt and String

  lemma {:induction false} WhitespaceRunSkips(ws: string, rest: string)
    requires forall i :: 0 <= i < |ws| ==> IsWhitespace(ws[i])
    requires rest == [] || !IsWhitespace(rest[0])
    ensures WhitespaceRun(ws + rest) == |ws|
  {
    if |ws| > 0 {
      assert (ws + rest)[1..] == ws[1..] + rest;
      WhitespaceRunSkips(ws[1..], rest);
    } else {
      assert ws + rest == rest;
    }
  }

  lemma {:induction false} DigitRunStops(digits: string, rest: string)
    requires AllDigits(digits)
    requires rest == [] || !IsDigit(rest[0])
    ensures DigitRun(digits + rest) == |digits|
  {
    if |digits| > 0 {
      assert (digits + rest)[1..] == digits[1..] + rest;
      DigitRunStops(digits[1..], rest);
    } else {
      assert digits + rest == rest;
    }
  }

  lemma UnsignedDigits(t: string, digits: string, rest: string)
    requires |digits| > 0 && AllDigits(digits)
    requires rest == [] || !IsDigit(rest[0])
    requires t == digits + rest
    ensures ParseSigned(t) == Some(DigitsValue(digits))
  {
    assert IsDigit(t[0]);
    assert DropSign(t) == t;
    DigitRunStops(digits, rest);
    assert t[..|digits|] == digits;
  }

  lemma SignedDigits(t: string, sign: char, digits: string, rest: string)
    requires sign == '+' || sign == '-'
    requires |digits| > 0 && AllDigits(digits)
    requires rest == [] || !IsDigit(rest[0])
    requires t == [sign] + (digits + rest)
    ensures ParseSigned(t).Some?
    ensures ParseSigned(t).value == if sign == '-' then -(DigitsValue(digits) as int) else DigitsValue(digits)
  {
    var body := digits + rest;
    assert t[1..] == body;
    assert DropSign(t) == body;
    DigitRunStops(digits, rest);
    assert body[..|digits|] == digits;
  }

  /**
   * `parseInt` read part by part: whitespace, an optional sign, a non-empty
   * digit run and a tail that does not continue the run give the signed value
   * of the run.
   */
  lemma ParseIntOfParts(s: string, ws: string, sign: string, digits: string, rest: string)
    requires forall i :: 0 <= i < |ws| ==> IsWhitespace(ws[i])
    requires sign == "" || sign == "+" || sign == "-"
    requires |digits| > 0 && AllDigits(digits)
    requires rest == [] || !IsDigit(rest[0])
    requires s == ws + (sign + (digits + rest))
    ensures ParseInt(s).Some?
    ensures ParseInt(s).value == if sign == "-" then -(DigitsValue(digits) as int) else DigitsValue(digits)
  {
    var after := sign + (digits + rest);
    assert IsDigit(digits[0]);
    WhitespaceRunSkips(ws, after);
    assert s[WhitespaceRun(s)..] == after;
    if sign == "" {
      assert after == digits + rest;
      UnsignedDigits(after, digits, rest);
    } else {
      assert after == [sign[0]] + (digits + rest);
      SignedDigits(after, sign[0], digits, rest);
    }
  }

  /** `parseInt` gives NaN when neither whitespace, a sign nor a digit starts the text. */
  lemma ParseIntNaN(s: string)
    requires |s| > 0 && !IsWhitespace(s[0]) && !IsDigit(s[0]) && s[0] != '+' && s[0] != '-'
    ensures ParseInt(s) == None
  {
    assert WhitespaceRun(s) == 0;
    assert s[0..] == s;
  }

  /**
   * `parseInt` gives NaN whenever no digit follows the whitespace and the
   * optional sign: `""`, `"  abc"`, `"-abc"`, `"+"`, `"- 5"` and so on.
   * Together with `ParseIntOfParts` this covers every input.
   */
  lemma ParseIntNoDigits(s: string, ws: string, sign: string, rest: string)
    requires forall i :: 0 <= i < |ws| ==> IsWhitespace(ws[i])
    requires sign == "" || sign == "+" || sign == "-"
    requires rest == [] || !IsDigit(rest[0])
    requires sign == "" ==> rest == [] || (!IsWhitespace(rest[0]) && rest[0] != '+' && rest[0] != '-')
    requires s == ws + (sign + rest)
    ensures ParseInt(s) == None
  {
    var after := sign + rest;
    WhitespaceRunSkips(ws, after);
    assert s[WhitespaceRun(s)..] == after;
    if sign != "" {
      assert after[1..] == rest;
    } else {
      assert after == rest;
    }
  }

  /** `parseInt` reads back what `String` printed, whatever non-digit text follows it. */
  lemma ParseIntOfIntToString(n: int, rest: string)
    requires rest == [] || !IsDigit(rest[0])
    ensures ParseInt(IntToString(n) + rest) == Some(n)
  {
    if n < 0 {
      ParseIntOfNegative(n, IntToString(n) + rest, rest);
    } else {
      ParseIntOfNatural(n, IntToString(n) + rest, rest);
    }
  }

  lemma ParseIntOfNegative(n: int, s: string, rest: string)
    requires n < 0 && (rest == [] || !IsDigit(rest[0]))
    requires s == IntToString(n) + rest
    ensures ParseInt(s) == Some(n)
  {
    assert s == "" + ("-" + (NatDigits(-n) + rest));
    ParseIntOfParts(s, "", "-", NatDigits(-n), rest);
    var r := ParseInt(s);
    assert r.Some? && r.value == n;
  }

  lemma ParseIntOfNatural(n: int, s: string, rest: string)
    requires n >= 0 && (rest == [] || !IsDigit(rest[0]))
    requires s == IntToString(n) + rest
    ensures ParseInt(s) == Some(n)
  {
    assert s == "" + ("" + (NatDigits(n) + rest));
    ParseIntOfParts(s, "", "", NatDigits(n), rest);
    var r := ParseInt(s);
    assert r.Some? && r.value == n;
  }

  /** `parseInt(String(x), 10)` gives `x` back, NaN included. */
  lemma ParseIntOfNumberToString(x: Option<int>)
    ensures ParseInt(NumberToString(x)) == x
  {
    match x
    case None => ParseIntNaN("NaN");
    case Some(n) =>
      ParseIntOfIntToString(n, "");
      assert IntToString(n) + "" == IntToString(n);
  }

  /** Two integers print differently: `String` is injective on integers. */
  lemma IntToStringInjective(m: int, n: int)
    requires IntToString(m) == IntToString(n)
    ensures m == n
  {
    ParseIntOfIntToString(m, "");
    ParseIntOfIntToString(n, "");
    assert IntToString(m) + "" == IntToString(m);
    assert IntToString(n) + "" == IntToString(n);
  }
}
