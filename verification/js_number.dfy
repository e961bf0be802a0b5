/**
 * JavaScript's string-to-number conversions as the forms use them: `Number(s)`
 * (the whole trimmed text must be a StringNumericLiteral of ECMAScript section 7.1.4.1)
 * and `parseFloat(s)` (the longest prefix that is a StrDecimalLiteral, section 19.2.4).
 * Values are exact reals; rounding to the nearest double is not modelled.
 */
module JsNumber {
  import opened Common
  import opened Text
  import opened Decimal

  /** A JavaScript number, with finite values kept exact. */
  datatype Num = NaN | Finite(value: real) | PosInfinity | NegInfinity

  /** `n < 0` (false for NaN). */
  predicate IsNegative(n: Num)
  {
    (n.Finite? && n.value < 0.0) || n.NegInfinity?
  }

  /**
   * The part before the exponent: `digits`, `digits.`, `digits.digits` or `.digits`.
   */
  function MantissaValue(m: string): (r: Option<real>)
    ensures r.Some? ==> r.value >= 0.0
    ensures r.Some? ==> m != [] && m != "."
  {
    match IndexOf(m, '.')
    case None =>
      if m != [] && AllDigits(m) then Some(DigitsValue(m) as real) else None
    case Some(i) =>
      var whole, frac := m[..i], m[i + 1..];
      if (whole != [] || frac != []) && AllDigits(whole) && AllDigits(frac) then
        assert m != "." by { assert whole == [] ==> |m| >= 2; }
        Some(DigitsValue(whole) as real + DigitsValue(frac) as real / Pow10(|frac|) as real)
      else None
  }

  /** The exponent after `e`/`E`: an optional sign and at least one digit. */
  function ExponentValue(e: string): (r: Option<int>)
    ensures r.Some? ==> e != []
  {
    if |e| >= 1 && (e[0] == '+' || e[0] == '-') then
      var d := e[1..];
      var magnitude: int := if d != [] && AllDigits(d) then DigitsValue(d) else 0;
      if d != [] && AllDigits(d) then Some(if e[0] == '-' then -magnitude else magnitude) else None
    else if e != [] && AllDigits(e) then Some(DigitsValue(e))
    else None
  }

  /** The first `e` or `E`. */
  function IndexOfExponentMark(s: string): (r: Option<nat>)
    ensures r.None? <==> 'e' !in s && 'E' !in s
    ensures r.Some? ==> r.value < |s| && (s[r.value] == 'e' || s[r.value] == 'E')
  {
    if |s| == 0 then None
    else if s[0] == 'e' || s[0] == 'E' then Some(0)
    else match IndexOfExponentMark(s[1..])
      case None => None
      case Some(i) => Some(i + 1)
  }

  /** `v` times ten to the power `e`. */
  function Scale(v: real, e: int): (r: real)
    requires v >= 0.0
    ensures r >= 0.0
    ensures r == 0.0 <==> v == 0.0
  {
    var p := RealPow10(e);
    assert v > 0.0 ==> v * p > 0.0;
    v * p
  }

  /** StrUnsignedDecimalLiteral: `Infinity`, or a mantissa with an optional exponent. */
  function UnsignedDecimal(u: string): (r: Option<Num>)
    ensures r.Some? ==> r.value == PosInfinity || (r.value.Finite? && r.value.value >= 0.0)
    ensures r.Some? ==> u != []
  {
    if u == "Infinity" then Some(PosInfinity)
    else match IndexOfExponentMark(u)
      case None =>
        (match MantissaValue(u)
         case None => None
         case Some(v) => Some(Finite(v)))
      case Some(k) =>
        (match (MantissaValue(u[..k]), ExponentValue(u[k + 1..]))
         case (Some(v), Some(e)) => Some(Finite(Scale(v, e)))
         case _ => None)
  }

  function Negate(n: Num): Num
  {
    match n
    case NaN => NaN
    case Finite(v) => Finite(-v)
    case PosInfinity => NegInfinity
    case NegInfinity => PosInfinity
  }

  /** StrDecimalLiteral: an optional `+` or `-`, then an unsigned literal. */
  function DecimalLiteral(t: string): (r: Option<Num>)
    ensures r.Some? ==> !r.value.NaN? && t != []
  {
    if |t| > 0 && t[0] == '+' then UnsignedDecimal(t[1..])
    else if |t| > 0 && t[0] == '-' then
      match UnsignedDecimal(t[1..])
      case None => None
      case Some(v) => Some(Negate(v))
    else UnsignedDecimal(t)
  }

  /** The value of one digit in base 2, 8 or 16 (hexadecimal letters in either case). */
  function DigitInBase(c: char, base: nat): (r: Option<nat>)
    ensures r.Some? ==> r.value < base
  {
    var d :=
      if '0' <= c <= '9' then c as int - '0' as int
      else if 'a' <= c <= 'f' then c as int - 'a' as int + 10
      else if 'A' <= c <= 'F' then c as int - 'A' as int + 10
      else 99;
    if d < base then Some(d) else None
  }

  /** The value of a non-empty digit string in `base`, or `None` if a character is not a digit of it. */
  function BaseDigitsValue(s: string, base: nat): (r: Option<nat>)
    ensures r.Some? ==> s != []
  {
    if |s| == 0 then None
    else
      var last := DigitInBase(s[|s| - 1], base);
      if last.None? then None
      else if |s| == 1 then last
      else match BaseDigitsValue(s[..|s| - 1], base)
        case None => None
        case Some(v) => Some(v * base + last.value)
  }

  /** NonDecimalIntegerLiteral: `0x`/`0X`, `0o`/`0O` or `0b`/`0B`, then digits of that base; no sign. */
  function NonDecimal(t: string): (r: Option<nat>)
    ensures r.Some? ==> |t| >= 3 && t[0] == '0' && t[1] in "xXoObB"
  {
    if |t| >= 3 && t[0] == '0' then
      var base :=
        if t[1] == 'x' || t[1] == 'X' then 16
        else if t[1] == 'o' || t[1] == 'O' then 8
        else if t[1] == 'b' || t[1] == 'B' then 2
        else 0;
      if base == 0 then None else BaseDigitsValue(t[2..], base)
    else None
  }

  /** `Number(s)`: whitespace around the literal is ignored and blank text is 0. */
  function ToNumber(s: string): (n: Num)
    ensures Trim(s) == [] ==> n == Finite(0.0)
    ensures n.NaN? <==> Trim(s) != [] && NonDecimal(Trim(s)).None? && DecimalLiteral(Trim(s)).None?
  {
    var t := Trim(s);
    if t == [] then Finite(0.0)
    else match NonDecimal(t)
      case Some(v) => Finite(v as real)
      case None =>
        match DecimalLiteral(t)
        case Some(v) => v
        case None => NaN
  }

  predicate IsDecimalLiteral(t: string)
  {
    DecimalLiteral(t).Some?
  }

  /** The length of the longest non-empty prefix of `t[..k]` that `accepts` holds of. */
  function LongestPrefix(t: string, k: nat, accepts: string -> bool): (r: Option<nat>)
    requires k <= |t|
    ensures r.Some? ==> 1 <= r.value <= k && accepts(t[..r.value])
  {
    if k == 0 then None
    else if accepts(t[..k]) then Some(k)
    else LongestPrefix(t, k - 1, accepts)
  }

  /** No longer prefix is accepted; and when there is no answer, no non-empty prefix is. */
  lemma {:induction false} LongestPrefixIsLongest(t: string, k: nat, accepts: string -> bool)
    requires k <= |t|
    ensures var r := LongestPrefix(t, k, accepts);
            r.Some? ==> forall j :: r.value < j <= k ==> !accepts(t[..j])
    ensures LongestPrefix(t, k, accepts).None? ==> forall j :: 0 < j <= k ==> !accepts(t[..j])
  {
    if k > 0 && !accepts(t[..k]) {
      LongestPrefixIsLongest(t, k - 1, accepts);
    }
  }

  /** `parseFloat(s)`: skip leading whitespace, then read the longest decimal prefix, or NaN. */
  function ParseFloat(s: string): (n: Num)
    ensures n.NaN? <==> forall k :: 0 < k <= |TrimStart(s)| ==> !IsDecimalLiteral(TrimStart(s)[..k])
  {
    var t := TrimStart(s);
    LongestPrefixIsLongest(t, |t|, IsDecimalLiteral);
    match LongestPrefix(t, |t|, IsDecimalLiteral)
    case None => NaN
    case Some(k) => DecimalLiteral(t[..k]).value
  }

  // ---------------------------------------------------------------------------
  // Facts the forms rely on.
  // ---------------------------------------------------------------------------

  /** A whole decimal literal without leading whitespace is read entirely by `parseFloat`. */
  lemma ParseFloatOfLiteral(s: string)
    requires s != [] && !IsSpace(s[0]) && IsDecimalLiteral(s)
    ensures ParseFloat(s) == DecimalLiteral(s).value
  {
    assert TrimStart(s) == s;
    assert s[..|s|] == s;
  }

  /** A text starting with a digit has no sign to strip. */
  lemma UnsignedAsLiteral(u: string)
    requires u != [] && IsDigit(u[0])
    ensures DecimalLiteral(u) == UnsignedDecimal(u)
  {
  }

  /** A `-` negates the unsigned literal after it. */
  lemma NegatedLiteral(s: string, u: string)
    requires s == "-" + u
    ensures DecimalLiteral(s) == match UnsignedDecimal(u) case None => None case Some(v) => Some(Negate(v))
  {
    assert s[0] == '-' && s[1..] == u;
  }

  lemma DigitsHaveNo(s: string, c: char)
    requires AllDigits(s) && !IsDigit(c)
    ensures c !in s
  {
  }

  /** A digit string is an unsigned decimal literal with its decimal value. */
  lemma UnsignedDigits(s: string)
    requires s != [] && AllDigits(s)
    ensures UnsignedDecimal(s) == Some(Finite(DigitsValue(s) as real))
  {
    DigitsHaveNo(s, 'e');
    DigitsHaveNo(s, 'E');
    DigitsHaveNo(s, '.');
    assert s != "Infinity" by { assert IsDigit(s[0]); }
  }

  /** A digit string reads as its decimal value. */
  lemma ToNumberDigits(s: string)
    requires s != [] && AllDigits(s)
    ensures ToNumber(s) == Finite(DigitsValue(s) as real)
  {
    TrimNoSpace(s);
    DecimalDigits(s);
    DigitsNotNonDecimal(s);
  }

  lemma DecimalDigits(s: string)
    requires s != [] && AllDigits(s)
    ensures DecimalLiteral(s) == Some(Finite(DigitsValue(s) as real))
  {
    UnsignedDigits(s);
    assert IsDigit(s[0]);
  }

  /** A digit string has no `0x`, `0o` or `0b` prefix. */
  lemma DigitsNotNonDecimal(s: string)
    requires AllDigits(s)
    ensures NonDecimal(s).None?
  {
    if |s| >= 3 {
      assert IsDigit(s[1]);
    }
  }

  /** Round trip with printing: `Number(String(n))` is `n` for every natural number. */
  lemma ToNumberNatToString(n: nat)
    ensures ToNumber(NatToString(n)) == Finite(n as real)
  {
    ToNumberDigits(NatToString(n));
  }

  /** `-` followed by digits reads as minus their value (so `-0` reads as zero). */
  lemma ToNumberMinusDigits(d: string)
    requires d != [] && AllDigits(d)
    ensures ToNumber("-" + d) == Finite(-(DigitsValue(d) as real))
    ensures IsNegative(ToNumber("-" + d)) <==> exists i :: 0 <= i < |d| && d[i] != '0'
  {
    var s := "-" + d;
    MinusDigitsLiteral(s, d);
    DigitsValuePositive(d);
  }

  lemma MinusDigitsLiteral(s: string, d: string)
    requires d != [] && AllDigits(d) && s == "-" + d
    ensures ToNumber(s) == Finite(-(DigitsValue(d) as real))
  {
    assert s[1..] == d && s[0] == '-';
    assert s[|s| - 1] == d[|d| - 1];
    TrimNoSpace(s);
    assert NonDecimal(s).None?;
    UnsignedDigits(d);
    assert DecimalLiteral(s) == Some(Negate(Finite(DigitsValue(d) as real)));
  }
}
