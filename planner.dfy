/**
 * The segment-duration planner of the `/split` handler: the query parameter
 * `segmentSeconds` (absent or empty meaning "900") is read with
 * `parseInt(…, 10)` and clamped with `Math.max(60, Math.min(3600, …))`.
 * NaN (`None`) passes through both `Math.min` and `Math.max` unchanged.
 */
module SegmentPlanner {
  import opened Wrappers
  import opened JsText

  const DefaultText: string := "900"
  const MinSeconds: int := 60
  const MaxSeconds: int := 3600

  /** `raw || "900"`: a missing parameter and the (falsy) empty string both become the default text. */
  function EffectiveText(raw: Option<string>): (text: string)
    ensures text != ""
    ensures raw.Some? && raw.value != "" ==> text == raw.value
    ensures raw.None? || raw.value == "" ==> text == DefaultText
  {
    match raw
    case None => DefaultText
    case Some(text) => if text == "" then DefaultText else text
  }

  /** `Math.max(60, Math.min(3600, x))` on an integer or NaN. */
  function Clamp(x: Option<int>): (r: Option<int>)
    ensures r.None? <==> x.None?
    ensures r.Some? ==> MinSeconds <= r.value <= MaxSeconds
    ensures r.Some? && MinSeconds <= x.value <= MaxSeconds ==> r.value == x.value
  {
    match x
    case None => None
    case Some(v) =>
      var upper := if v < MaxSeconds then v else MaxSeconds;
      Some(if upper > MinSeconds then upper else MinSeconds)
  }

  /** The duration, in seconds, passed to the segmenter; `None` is NaN. */
  function SegmentSeconds(raw: Option<string>): (r: Option<int>)
    ensures r.Some? ==> MinSeconds <= r.value <= MaxSeconds
  {
    Clamp(ParseInt(EffectiveText(raw)))
  }

  // ---------------------------------------------------------------------
  // Properties

  /** A parsed integer is clamped: below 60 gives 60, above 3600 gives 3600, anything else is kept. */
  lemma ClampedWhenNumeric(raw: Option<string>, v: int)
    requires ParseInt(EffectiveText(raw)) == Some(v)
    ensures SegmentSeconds(raw).Some?
    ensures v < MinSeconds ==> SegmentSeconds(raw).value == MinSeconds
    ensures v > MaxSeconds ==> SegmentSeconds(raw).value == MaxSeconds
    ensures MinSeconds <= v <= MaxSeconds ==> SegmentSeconds(raw).value == v
  {
  }

  /** The result is NaN exactly when the effective text does not parse. */
  lemma NaNExactlyWhenUnparsable(raw: Option<string>)
    ensures SegmentSeconds(raw).None? <==> ParseInt(EffectiveText(raw)).None?
  {
  }

  /** An absent or empty parameter yields 900. */
  lemma DefaultWhenAbsentOrEmpty(raw: Option<string>)
    requires raw == None || raw == Some("")
    ensures SegmentSeconds(raw) == Some(900)
  {
    assert EffectiveText(raw) == DefaultText;
    assert DefaultText == "" + ("" + (NatDigits(900) + "")) by {
      assert NatDigits(9) == "9";
      assert NatDigits(90) == "90";
      assert NatDigits(900) == "900";
    }
    ParseIntOfParts(DefaultText, "", "", NatDigits(900), "");
    var p := ParseInt(DefaultText);
    assert p.Some? && p.value == 900;
    assert p == Some(900);
  }

  /** Any duration the planner can produce, written back as text, is planned to itself. */
  lemma PlannedDurationIsFixedPoint(n: int)
    requires MinSeconds <= n <= MaxSeconds
    ensures SegmentSeconds(Some(IntToString(n))) == Some(n)
  {
    assert IntToString(n) != "";
    ParseIntOfIntToString(n, "");
    assert IntToString(n) + "" == IntToString(n);
  }

  /** Text that parseInt reads as NaN stays NaN: the planner does not substitute 900 for it. */
  lemma NonNumericStaysNaN(text: string)
    requires |text| > 0 && !IsWhitespace(text[0]) && !IsDigit(text[0]) && text[0] != '+' && text[0] != '-'
    ensures SegmentSeconds(Some(text)) == None
  {
    ParseIntNaN(text);
  }

  /** A digit prefix is read and the rest ignored: "120abc" plans 120 seconds. */
  lemma DigitPrefixExample()
    ensures SegmentSeconds(Some("120abc")) == Some(120)
  {
    assert "120abc" == "" + ("" + (NatDigits(120) + "abc")) by {
      assert NatDigits(1) == "1";
      assert NatDigits(12) == "12";
      assert NatDigits(120) == "120";
    }
    ParseIntOfParts("120abc", "", "", NatDigits(120), "abc");
    var p := ParseInt("120abc");
    assert p.Some? && p.value == 120;
  }

  /** A negative value parses as negative and clamps up: "-5" plans 60 seconds. */
  lemma NegativeExample()
    ensures SegmentSeconds(Some("-5")) == Some(60)
  {
    assert "-5" == "" + ("-" + (NatDigits(5) + ""));
    ParseIntOfParts("-5", "", "-", NatDigits(5), "");
    var p := ParseInt("-5");
    assert p.Some? && p.value == -5;
  }

  /** A value below the minimum clamps up: "10" plans 60 seconds, not 10. */
  lemma BelowMinimumExample()
    ensures SegmentSeconds(Some("10")) == Some(60)
  {
    assert IntToString(10) + "" == "10" by {
      assert NatDigits(1) == "1";
    }
    ParseIntOfIntToString(10, "");
  }

  /** Text without digits is NaN: "abc" plans NaN. */
  lemma NaNExample()
    ensures SegmentSeconds(Some("abc")) == None
  {
    ParseIntNaN("abc");
  }
}
