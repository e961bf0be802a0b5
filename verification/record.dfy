/**
 * A flat record as the search screen sees it: a JSON-like value whose fields are
 * strings, integers, booleans, nested objects or missing (`null`/`undefined`).
 */
module Record {
  import opened Common
  import Decimal

  datatype Value =
    | Str(text: string)
    | Int(number: int)
    | Bool(flag: bool)
    | Obj(fields: map<string, Value>)
    | Absent

  /** `acc?.[key]`: index an object by one key; anything else yields `Absent`. */
  function Step(v: Value, key: string): (r: Value)
    ensures v.Obj? && key in v.fields ==> r == v.fields[key]
    ensures !(v.Obj? && key in v.fields) ==> r == Absent
  {
    match v
    case Obj(m) => if key in m then m[key] else Absent
    case _ => Absent
  }

  /** `path.reduce((acc, key) => acc?.[key], v)`: follow the keys left to right. */
  function Lookup(v: Value, path: seq<string>): (r: Value)
    ensures v == Absent ==> r == Absent
    ensures r != Absent && |path| > 0 ==> v.Obj? && path[0] in v.fields
    decreases |path|
  {
    if |path| == 0 then v else Lookup(Step(v, path[0]), path[1..])
  }

  /** Following a path in two halves is following it at once. */
  lemma {:induction false} LookupAppend(v: Value, p: seq<string>, q: seq<string>)
    ensures Lookup(v, p + q) == Lookup(Lookup(v, p), q)
    decreases |p|
  {
    if |p| == 0 {
      assert p + q == q;
    } else {
      assert (p + q)[0] == p[0];
      assert (p + q)[1..] == p[1..] + q;
      LookupAppend(Step(v, p[0]), p[1..], q);
    }
  }

  /** Once the walk reaches a missing value it stays missing: `?.` short-circuits. */
  lemma {:induction false} LookupAbsent(path: seq<string>)
    ensures Lookup(Absent, path) == Absent
    decreases |path|
  {
    if |path| > 0 {
      LookupAbsent(path[1..]);
    }
  }

  /** A missing key anywhere along the path makes the whole lookup missing. */
  lemma LookupMissingKey(v: Value, p: seq<string>, key: string, q: seq<string>)
    requires var w := Lookup(v, p); !(w.Obj? && key in w.fields)
    ensures Lookup(v, p + [key] + q) == Absent
  {
    assert p + [key] + q == p + ([key] + q);
    LookupAppend(v, p, [key] + q);
    assert ([key] + q)[0] == key && ([key] + q)[1..] == q;
    LookupAbsent(q);
  }

  /**
   * `v?.toString()`: the text the filter matches against, or `None` for a
   * missing value. Integers print in decimal, booleans as `true`/`false`, and
   * every object as `[object Object]`.
   */
  function Show(v: Value): (r: Option<string>)
    ensures r.None? <==> v.Absent?
    ensures v.Str? ==> r == Some(v.text)
    ensures v.Obj? ==> r == Some("[object Object]")
    ensures v.Bool? ==> r == Some(if v.flag then "true" else "false")
    ensures v.Int? && v.number >= 0 ==> r.Some? && Decimal.Canonical(r.value) && Decimal.DigitsValue(r.value) == v.number
    ensures v.Int? && v.number < 0 ==>
      r.Some? && |r.value| >= 2 && r.value[0] == '-' &&
      Decimal.Canonical(r.value[1..]) && Decimal.DigitsValue(r.value[1..]) == -v.number
  {
    match v
    case Str(s) => Some(s)
    case Int(i) =>
      var s := Decimal.IntToString(i);
      assert i < 0 ==> s[1..] == Decimal.NatToString(-i);
      Some(s)
    case Bool(b) => Some(if b then "true" else "false")
    case Obj(_) => Some("[object Object]")
    case Absent => None
  }

  /** An integer's text is the one canonical decimal spelling of its value, after a `-` when negative. */
  lemma ShowInt(i: int, s: string)
    requires Show(Int(i)) == Some(s)
    ensures i >= 0 ==> s == Decimal.NatToString(i)
    ensures i < 0 ==> s == "-" + Decimal.NatToString(-i)
  {
    if i >= 0 {
      Decimal.CanonicalIsNatToString(s);
    } else {
      Decimal.CanonicalIsNatToString(s[1..]);
      assert s == [s[0]] + s[1..];
    }
  }
}
