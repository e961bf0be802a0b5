/**
 * The coordinates form: each of `x` and `y` must match `^-?\d+(\.\d+)?$`, `x` read
 * with `parseFloat` may not exceed 665, `y` may not be below -28, and both are
 * required. The set of rules a field breaks is modelled, not which message is shown.
 */
module CoordinatesForm {
  import opened Common
  import opened Text
  import opened Decimal
  import opened JsNumber

  /** The parts of a text the pattern accepts: an optional `-`, digits, and an optional `.digits`. */
  datatype DecimalText = DecimalText(negative: bool, whole: string, fraction: Option<string>)

  predicate WellFormed(d: DecimalText)
  {
    d.whole != [] && AllDigits(d.whole) &&
    (d.fraction.Some? ==> d.fraction.value != [] && AllDigits(d.fraction.value))
  }

  /** The text without its sign. */
  function UnsignedText(d: DecimalText): string
  {
    match d.fraction
    case None => d.whole
    case Some(f) => d.whole + "." + f
  }

  /** The text the parts spell. */
  function Render(d: DecimalText): string
  {
    (if d.negative then "-" else "") + UnsignedText(d)
  }

  /** `/^-?\d+(\.\d+)?$/.test(s)`, returning the parts it matched. */
  function Match(s: string): (r: Option<DecimalText>)
    ensures r.Some? ==> WellFormed(r.value)
  {
    var negative := |s| > 0 && s[0] == '-';
    var u := if negative then s[1..] else s;
    match IndexOf(u, '.')
    case None =>
      if u != [] && AllDigits(u) then Some(DecimalText(negative, u, None)) else None
    case Some(i) =>
      var whole, fraction := u[..i], u[i + 1..];
      if whole != [] && AllDigits(whole) && fraction != [] && AllDigits(fraction) then
        Some(DecimalText(negative, whole, Some(fraction)))
      else None
  }

  /** What the pattern accepts, it reads as parts that spell the text again. */
  lemma MatchSpells(s: string)
    requires Matches(s)
    ensures Render(Match(s).value) == s
  {
    var d := Match(s).value;
    var u := if d.negative then s[1..] else s;
    assert s == (if d.negative then "-" else "") + u;
    if d.fraction.Some? {
      AroundIndex(u, IndexOf(u, '.').value);
    }
  }

  predicate Matches(s: string)
  {
    Match(s).Some?
  }

  /** The pattern accepts every text spelled by well-formed parts, and reads the parts back. */
  lemma MatchRender(d: DecimalText)
    requires WellFormed(d)
    ensures Match(Render(d)) == Some(d)
  {
    var s := Render(d);
    var u := UnsignedText(d);
    assert s[0] == '-' <==> d.negative by {
      assert IsDigit(d.whole[0]);
      assert !d.negative ==> s[0] == d.whole[0];
    }
    assert (if d.negative then s[1..] else s) == u;
    DigitsHaveNo(d.whole, '.');
    match d.fraction
    case None =>
    case Some(f) =>
      assert u[|d.whole|] == '.' && u[..|d.whole|] == d.whole;
      IndexOfFirst(u, '.', |d.whole|);
      assert u[|d.whole| + 1..] == f;
  }

  /** The pattern's language is exactly the texts of well-formed parts. */
  lemma MatchesIff(s: string)
    ensures Matches(s) <==> exists d :: WellFormed(d) && Render(d) == s
  {
    if Matches(s) {
      MatchSpells(s);
    }
    if d :| WellFormed(d) && Render(d) == s {
      MatchRender(d);
    }
  }

  /** The magnitude the digits denote. */
  function Magnitude(d: DecimalText): (v: real)
    requires WellFormed(d)
    ensures v >= 0.0
  {
    DigitsValue(d.whole) as real +
    match d.fraction
    case None => 0.0
    case Some(f) => DigitsValue(f) as real / Pow10(|f|) as real
  }

  /** The exact value the text denotes. */
  function Value(d: DecimalText): real
    requires WellFormed(d)
  {
    if d.negative then -Magnitude(d) else Magnitude(d)
  }

  lemma MantissaOfText(d: DecimalText, u: string)
    requires WellFormed(d) && u == UnsignedText(d)
    ensures MantissaValue(u) == Some(Magnitude(d))
  {
    DigitsHaveNo(d.whole, '.');
    match d.fraction
    case None =>
    case Some(f) =>
      assert u[|d.whole|] == '.' && u[..|d.whole|] == d.whole;
      IndexOfFirst(u, '.', |d.whole|);
      assert u[|d.whole| + 1..] == f;
  }

  lemma UnsignedOfText(d: DecimalText, u: string)
    requires WellFormed(d) && u == UnsignedText(d)
    ensures UnsignedDecimal(u) == Some(Finite(Magnitude(d)))
  {
    assert u[0] == d.whole[0] && IsDigit(u[0]);
    assert u != "Infinity";
    DigitsHaveNo(d.whole, 'e');
    DigitsHaveNo(d.whole, 'E');
    if d.fraction.Some? {
      DigitsHaveNo(d.fraction.value, 'e');
      DigitsHaveNo(d.fraction.value, 'E');
    }
    assert IndexOfExponentMark(u).None?;
    MantissaOfText(d, u);
  }

  lemma DecimalOfText(d: DecimalText, s: string)
    requires WellFormed(d) && s == Render(d)
    ensures DecimalLiteral(s) == Some(Finite(Value(d)))
  {
    var u := UnsignedText(d);
    UnsignedOfText(d, u);
    if d.negative {
      NegatedLiteral(s, u);
    } else {
      assert s == u && u[0] == d.whole[0];
      UnsignedAsLiteral(u);
    }
  }

  /** `parseFloat` reads a text the pattern accepts as exactly the value it denotes. */
  lemma ParseFloatOfMatch(s: string)
    requires Matches(s)
    ensures ParseFloat(s) == Finite(Value(Match(s).value))
  {
    var d := Match(s).value;
    MatchSpells(s);
    DecimalOfText(d, s);
    assert !IsSpace(s[0]) by {
      assert d.negative ==> s[0] == '-';
      assert !d.negative ==> s[0] == d.whole[0] && IsDigit(s[0]);
    }
    ParseFloatOfLiteral(s);
  }

  datatype Axis = X | Y

  /** The rules of the schema: the pattern, the bound test, and `required`. */
  datatype Rule = Pattern | Bound | Required

  const MaxX: real := 665.0
  const MinY: real := -28.0

  /** `parseFloat(value) <= 665` for x and `parseFloat(value) >= -28` for y; NaN passes neither. */
  predicate WithinBound(axis: Axis, n: Num)
  {
    match axis
    case X => (n.Finite? && n.value <= MaxX) || n.NegInfinity?
    case Y => (n.Finite? && n.value >= MinY) || n.PosInfinity?
  }

  /** The bound on an exact value. */
  predicate InRange(axis: Axis, v: real)
  {
    match axis
    case X => v <= MaxX
    case Y => v >= MinY
  }

  /**
   * The value Yup sees: Formik's `prepareDataForValidation` turns an empty string into
   * `undefined` before validating.
   */
  function Prepared(value: Option<string>): (r: Option<string>)
    ensures r.None? <==> value.None? || value == Some([])
    ensures r.Some? ==> r == value
  {
    match value
    case Some(s) => if s == [] then None else value
    case None => None
  }

  /**
   * The rules a field value breaks. An absent or empty value reaches Yup as `undefined`,
   * which the pattern and the bound test let through and `required` refuses; any other
   * text passes `required` and is checked against the pattern and the bound.
   */
  function FieldFailures(axis: Axis, value: Option<string>): (r: set<Rule>)
    ensures Required in r <==> value.None? || value == Some([])
    ensures Required in r ==> r == {Required}
    ensures value.Some? && Matches(value.value) ==> Pattern !in r
  {
    match Prepared(value)
    case None => {Required}
    case Some(s) =>
      (if Matches(s) then {} else {Pattern}) +
      (if WithinBound(axis, ParseFloat(s)) then {} else {Bound})
  }

  /** A present field is accepted exactly when it matches and its value is within its bound. */
  lemma FieldAccepted(axis: Axis, s: string)
    ensures FieldFailures(axis, Some(s)) == {} <==> Matches(s) && InRange(axis, Value(Match(s).value))
  {
    if s == [] {
      EmptyFieldFails(axis);
    } else if Matches(s) {
      ParseFloatOfMatch(s);
      assert Prepared(Some(s)) == Some(s);
    } else {
      assert Prepared(Some(s)) == Some(s);
      assert Pattern in FieldFailures(axis, Some(s));
    }
  }

  /** A matching text breaks at most the bound rule, and breaks it exactly when its value is out of range. */
  lemma BoundOnMatch(axis: Axis, s: string)
    requires Matches(s)
    ensures FieldFailures(axis, Some(s)) == if InRange(axis, Value(Match(s).value)) then {} else {Bound}
  {
    ParseFloatOfMatch(s);
    assert s != [];
    assert Prepared(Some(s)) == Some(s);
  }

  /** X has no lower bound: every matching negative text passes. */
  lemma NegativeXAccepted(d: DecimalText)
    requires WellFormed(d) && d.negative
    ensures FieldFailures(X, Some(Render(d))) == {}
  {
    MatchRender(d);
    FieldAccepted(X, Render(d));
  }

  /** Y has no upper bound: every matching non-negative text passes. */
  lemma NonNegativeYAccepted(d: DecimalText)
    requires WellFormed(d) && !d.negative
    ensures FieldFailures(Y, Some(Render(d))) == {}
  {
    MatchRender(d);
    FieldAccepted(Y, Render(d));
  }

  /**
   * An empty field reaches Yup as `undefined`: it breaks only `required`, although on its
   * own the empty text would also fail the pattern and parse to NaN.
   */
  lemma EmptyFieldFails(axis: Axis)
    ensures FieldFailures(axis, Some([])) == {Required}
    ensures !Matches([]) && ParseFloat([]) == NaN
  {
    var e: string := [];
    assert Match(e).None?;
    assert TrimStart(e) == [];
  }

  /** The payload: `parseFloat` of each field. */
  datatype Payload = Payload(x: Num, y: Num)

  datatype Failures = Failures(x: set<Rule>, y: set<Rule>)

  /** Formik submits only when neither field breaks a rule. */
  function Submit(x: Option<string>, y: Option<string>): (r: Result<Payload, Failures>)
    ensures r.Ok? ==> x.Some? && y.Some? && Matches(x.value) && Matches(y.value)
    ensures r.Err? ==> r.error.x != {} || r.error.y != {}
  {
    var fx, fy := FieldFailures(X, x), FieldFailures(Y, y);
    if fx == {} && fy == {} then Ok(Payload(ParseFloat(x.value), ParseFloat(y.value)))
    else Err(Failures(fx, fy))
  }

  /** A missing field rejects the form with the `required` rule. */
  lemma MissingFieldRejected(x: Option<string>, y: Option<string>)
    requires x.None? || y.None?
    ensures Submit(x, y).Err?
    ensures x.None? ==> Submit(x, y).error.x == {Required}
    ensures y.None? ==> Submit(x, y).error.y == {Required}
  {
  }

  /**
   * The form is submitted exactly when both fields match and are in range, and the
   * payload holds their exact values.
   */
  lemma SubmitVerdict(x: string, y: string)
    ensures Submit(Some(x), Some(y)).Ok? <==>
      Matches(x) && Matches(y) &&
      InRange(X, Value(Match(x).value)) && InRange(Y, Value(Match(y).value))
    ensures Submit(Some(x), Some(y)).Ok? ==>
      Submit(Some(x), Some(y)).value ==
        Payload(Finite(Value(Match(x).value)), Finite(Value(Match(y).value)))
  {
    FieldAccepted(X, x);
    FieldAccepted(Y, y);
    if Matches(x) && Matches(y) {
      ParseFloatOfMatch(x);
      ParseFloatOfMatch(y);
    }
  }

  // ---------------------------------------------------------------------------
  // The boundaries and sample texts.
  // ---------------------------------------------------------------------------

  /** "665" is accepted for x: the bound is inclusive. */
  lemma XBoundaryAccepted(s: string)
    requires s == "665"
    ensures FieldFailures(X, Some(s)) == {}
  {
    assert NatToString(665) == s;
    var d := DecimalText(false, s, None);
    assert Value(d) == MaxX;
    assert Render(d) == s;
    MatchRender(d);
    BoundOnMatch(X, s);
  }

  /** "665.1" is refused for x by the bound rule alone. */
  lemma XAboveBoundaryRejected(s: string, w: string, f: string)
    requires w == "665" && f == "1" && s == w + "." + f
    ensures FieldFailures(X, Some(s)) == {Bound}
  {
    assert NatToString(665) == w && NatToString(1) == f;
    var d := DecimalText(false, w, Some(f));
    assert Value(d) > MaxX;
    assert Render(d) == s;
    MatchRender(d);
    BoundOnMatch(X, s);
  }

  /** "-28" is accepted for y: the bound is inclusive. */
  lemma YBoundaryAccepted(s: string, w: string)
    requires w == "28" && s == "-" + w
    ensures FieldFailures(Y, Some(s)) == {}
  {
    assert NatToString(28) == w;
    var d := DecimalText(true, w, None);
    assert Value(d) == MinY;
    assert Render(d) == s;
    MatchRender(d);
    BoundOnMatch(Y, s);
  }

  /** "-28.1" is refused for y by the bound rule alone. */
  lemma YBelowBoundaryRejected(s: string, w: string, f: string)
    requires w == "28" && f == "1" && s == "-" + w + "." + f
    ensures FieldFailures(Y, Some(s)) == {Bound}
  {
    assert NatToString(28) == w && NatToString(1) == f;
    var d := DecimalText(true, w, Some(f));
    assert Value(d) < MinY;
    assert Render(d) == s;
    MatchRender(d);
    BoundOnMatch(Y, s);
  }

  /** "12" matches the pattern. */
  lemma IntegerTextMatches(s: string)
    requires s == "12"
    ensures Matches(s)
  {
    var d := DecimalText(false, s, None);
    assert Render(d) == s;
    MatchRender(d);
  }

  /** "-3.50" matches the pattern: trailing zeros are allowed. */
  lemma SignedDecimalTextMatches(s: string, w: string, f: string)
    requires w == "3" && f == "50" && s == "-" + w + "." + f
    ensures Matches(s)
  {
    var d := DecimalText(true, w, Some(f));
    assert Render(d) == s;
    MatchRender(d);
  }

  /** "1." does not match: a point needs digits after it. */
  lemma TrailingPointFails(s: string)
    requires s == "1."
    ensures !Matches(s)
  {
    IndexOfFirst(s, '.', 1);
    assert s[2..] == [];
  }

  /** ".5" does not match: a point needs digits before it. */
  lemma LeadingPointFails(s: string)
    requires s == ".5"
    ensures !Matches(s)
  {
    IndexOfFirst(s, '.', 0);
  }

  /** "+1", "1e2" and " 1" do not match: only `-`, digits and one point are allowed. */
  lemma ForeignCharacterFails()
    ensures !Matches("+1") && !Matches("1e2") && !Matches(" 1")
  {
    ForeignCharacterAt("+1", 0);
    ForeignCharacterAt("1e2", 1);
    ForeignCharacterAt(" 1", 0);
  }

  /** A text without `-` or `.` that holds a non-digit does not match. */
  lemma ForeignCharacterAt(s: string, k: nat)
    requires '.' !in s && '-' !in s && k < |s| && !IsDigit(s[k])
    ensures !Matches(s)
  {
  }
}
