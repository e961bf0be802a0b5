/**
 * The structured search of the flat-search screen: a query such as
 * `house.year:2010/isNew:true` is cut into conditions at `/`, every condition is
 * `field:value`, and a flat survives when every condition's field, looked up as a
 * dotted path and printed, contains the value case-insensitively.
 */
module FlatSearch {
  import opened Common
  import opened Text
  import opened Record

  /** The trimmed, non-empty `/`-separated segments of the query, in order. */
  function Conditions(query: string): seq<string>
  {
    Pieces(query, '/')
  }

  /** One parsed condition: the dotted field path and the text to look for. */
  datatype Condition = Condition(field: string, needle: string)

  /**
   * `const [field, value] = segment.split(':')` guarded by `if (field && value)`:
   * the field is the text before the first `:`, the value the text between the
   * first and the second `:`, and both must be non-empty.
   */
  function ParseCondition(segment: string): (r: Option<Condition>)
    ensures r.Some? ==> r.value.field != [] && r.value.needle != []
    ensures r.Some? ==> ':' !in r.value.field && ':' !in r.value.needle
    ensures r.Some? ==> StartsWith(segment, r.value.field + ":" + r.value.needle)
    ensures r.Some? ==> var n := |r.value.field + ":" + r.value.needle|; n == |segment| || segment[n] == ':'
    ensures r.Some? <==> ':' in segment && HasFieldAndValue(segment, IndexOf(segment, ':').value)
  {
    var parts := Split(segment, ':');
    ParseShape(segment);
    if |parts| >= 2 && parts[0] != [] && parts[1] != [] then
      SegmentShape(segment, parts);
      Some(Condition(parts[0], parts[1]))
    else
      None
  }

  /** With the first `:` at `i`: something before it, and something other than `:` after it. */
  predicate HasFieldAndValue(segment: string, i: nat)
  {
    0 < i && i + 1 < |segment| && segment[i + 1] != ':'
  }

  lemma SegmentShape(segment: string, parts: seq<string>)
    requires parts == Split(segment, ':') && |parts| >= 2
    ensures StartsWith(segment, parts[0] + ":" + parts[1])
    ensures var n := |parts[0] + ":" + parts[1]|; n == |segment| || segment[n] == ':'
  {
    var i := IndexOf(segment, ':').value;
    var tail := segment[i + 1..];
    SplitAt(segment, ':', i);
    SplitFirst(tail, ':');
    var j := match IndexOf(tail, ':') case None => |tail| case Some(j) => j;
    assert parts[0] == segment[..i];
    assert parts[1] == tail[..j];
    assert j == |tail| || tail[j] == ':';
    ColonJoin(segment, i, j, parts[0], parts[1]);
  }

  /** The field, the first `:` and the value are a prefix ending at the end or at the next `:`. */
  lemma ColonJoin(s: string, i: nat, j: nat, field: string, needle: string)
    requires i < |s| && s[i] == ':' && i + 1 + j <= |s|
    requires field == s[..i] && needle == s[i + 1..][..j]
    requires j == |s[i + 1..]| || s[i + 1..][j] == ':'
    ensures StartsWith(s, field + ":" + needle)
    ensures var n := |field + ":" + needle|; n == |s| || s[n] == ':'
  {
    assert field + ":" + needle == s[..i + 1 + j];
  }

  /** The first piece of a split is empty exactly when the text is empty or starts with the separator. */
  lemma FirstPieceEmpty(s: string, sep: char)
    ensures Split(s, sep)[0] == [] <==> s == [] || s[0] == sep
  {
  }

  lemma ParseShape(segment: string)
    ensures var parts := Split(segment, ':');
      (|parts| >= 2 && parts[0] != [] && parts[1] != []) <==>
      (':' in segment && HasFieldAndValue(segment, IndexOf(segment, ':').value))
  {
    if ':' in segment {
      var i := IndexOf(segment, ':').value;
      var tail := segment[i + 1..];
      SplitAt(segment, ':', i);
      FirstPieceEmpty(tail, ':');
      assert Split(segment, ':')[1] == Split(tail, ':')[0];
      assert tail == [] <==> i + 1 == |segment|;
      assert tail != [] ==> tail[0] == segment[i + 1];
    } else {
      SplitNoSep(segment, ':');
    }
  }

  /** The value at a dotted field path such as `house.year`. */
  function FieldValue(flat: Value, field: string): (r: Value)
    ensures '.' !in field ==> r == Step(flat, field)
  {
    var path := Split(field, '.');
    if '.' !in field then
      SplitNoSep(field, '.');
      assert path == [field] && path[1..] == [];
      assert Lookup(flat, path) == Lookup(Step(flat, field), []);
      Lookup(flat, path)
    else Lookup(flat, path)
  }

  /**
   * The `every` callback: a condition holds of a flat when it parses and the
   * field is present and its lowercased text includes the lowercased value.
   */
  predicate Holds(flat: Value, segment: string)
    ensures Holds(flat, segment) ==>
      ParseCondition(segment).Some? && FieldValue(flat, ParseCondition(segment).value.field) != Absent
  {
    match ParseCondition(segment)
    case None => false
    case Some(c) =>
      match Show(FieldValue(flat, c.field))
      case None => false
      case Some(text) => Includes(Lower(text), Lower(c.needle))
  }

  predicate AllHold(flat: Value, conditions: seq<string>)
  {
    forall i :: 0 <= i < |conditions| ==> Holds(flat, conditions[i])
  }

  /** `flats.filter(flat => conditions.every(...))`. */
  function Keep(flats: seq<Value>, conditions: seq<string>): (r: seq<Value>)
    ensures |r| <= |flats|
    ensures forall x :: x in r <==> x in flats && AllHold(x, conditions)
  {
    if |flats| == 0 then []
    else (if AllHold(flats[0], conditions) then [flats[0]] else []) + Keep(flats[1..], conditions)
  }

  /** `filterFlats(flats, query)`. */
  function Filter(flats: seq<Value>, query: string): (r: seq<Value>)
    ensures |r| <= |flats|
    ensures forall x :: x in r <==> x in flats && AllHold(x, Conditions(query))
  {
    Keep(flats, Conditions(query))
  }

  // ---------------------------------------------------------------------------
  // Order: the result is a subsequence, and filtering is a homomorphism.
  // ---------------------------------------------------------------------------

  /** `a` can be obtained from `b` by deleting elements, keeping the order. */
  ghost predicate IsSubsequence(a: seq<Value>, b: seq<Value>)
    decreases |b|
  {
    if |a| == 0 then true
    else if |b| == 0 then false
    else (a[0] == b[0] && IsSubsequence(a[1..], b[1..])) || IsSubsequence(a, b[1..])
  }

  lemma {:induction false} KeepIsSubsequence(flats: seq<Value>, conditions: seq<string>)
    ensures IsSubsequence(Keep(flats, conditions), flats)
    decreases |flats|
  {
    if |flats| > 0 {
      KeepIsSubsequence(flats[1..], conditions);
      var r := Keep(flats, conditions);
      var tail := Keep(flats[1..], conditions);
      if AllHold(flats[0], conditions) {
        assert r == [flats[0]] + tail;
        assert r[1..] == tail;
      } else {
        assert r == tail;
      }
    }
  }

  /** Filtering a concatenation filters each part. */
  lemma {:induction false} KeepAppend(a: seq<Value>, b: seq<Value>, conditions: seq<string>)
    ensures Keep(a + b, conditions) == Keep(a, conditions) + Keep(b, conditions)
    decreases |a|
  {
    if |a| == 0 {
      assert a + b == b;
    } else {
      assert (a + b)[0] == a[0];
      assert (a + b)[1..] == a[1..] + b;
      KeepAppend(a[1..], b, conditions);
    }
  }

  /** A single flat is kept alone or dropped. */
  lemma KeepSingle(x: Value, conditions: seq<string>)
    ensures Keep([x], conditions) == if AllHold(x, conditions) then [x] else []
  {
    assert [x][1..] == [];
  }

  /** A flat is in the result exactly when it is in the input and every condition holds. */
  lemma FilterMembership(flats: seq<Value>, query: string, x: Value)
    ensures x in Filter(flats, query) <==>
      x in flats && forall c :: c in Conditions(query) ==> Holds(x, c)
  {
  }

  lemma {:induction false} KeepAll(flats: seq<Value>, conditions: seq<string>)
    requires forall i :: 0 <= i < |flats| ==> AllHold(flats[i], conditions)
    ensures Keep(flats, conditions) == flats
    decreases |flats|
  {
    if |flats| > 0 {
      KeepAll(flats[1..], conditions);
      assert [flats[0]] + flats[1..] == flats;
    }
  }

  lemma {:induction false} KeepNone(flats: seq<Value>, conditions: seq<string>)
    requires forall i :: 0 <= i < |flats| ==> !AllHold(flats[i], conditions)
    ensures Keep(flats, conditions) == []
    decreases |flats|
  {
    if |flats| > 0 {
      KeepNone(flats[1..], conditions);
    }
  }

  /** Filtering again with the same query changes nothing. */
  lemma FilterIdempotent(flats: seq<Value>, query: string)
    ensures Filter(Filter(flats, query), query) == Filter(flats, query)
  {
    var r := Filter(flats, query);
    assert forall i :: 0 <= i < |r| ==> r[i] in r;
    KeepAll(r, Conditions(query));
  }

  lemma AllHoldAppend(x: Value, c1: seq<string>, c2: seq<string>)
    ensures AllHold(x, c1 + c2) <==> AllHold(x, c1) && AllHold(x, c2)
  {
    if AllHold(x, c1) && AllHold(x, c2) {
      forall i | 0 <= i < |c1 + c2| ensures Holds(x, (c1 + c2)[i]) {
        if i < |c1| { assert (c1 + c2)[i] == c1[i]; } else { assert (c1 + c2)[i] == c2[i - |c1|]; }
      }
    }
    if AllHold(x, c1 + c2) {
      forall i | 0 <= i < |c1| ensures Holds(x, c1[i]) { assert (c1 + c2)[i] == c1[i]; }
      forall i | 0 <= i < |c2| ensures Holds(x, c2[i]) { assert (c1 + c2)[|c1| + i] == c2[i]; }
    }
  }

  /** Keeping under two condition lists in turn is keeping under their concatenation. */
  lemma {:induction false} KeepKeep(flats: seq<Value>, c1: seq<string>, c2: seq<string>)
    ensures Keep(Keep(flats, c1), c2) == Keep(flats, c1 + c2)
    decreases |flats|
  {
    if |flats| > 0 {
      var x := flats[0];
      AllHoldAppend(x, c1, c2);
      KeepKeep(flats[1..], c1, c2);
      var head := if AllHold(x, c1) then [x] else [];
      KeepAppend(head, Keep(flats[1..], c1), c2);
      KeepSingle(x, c2);
    }
  }

  /** The conditions of `q/t` are those of `q` followed by those of `t`. */
  lemma ConditionsAppend(q: string, t: string)
    ensures Conditions(q + "/" + t) == Conditions(q) + Conditions(t)
  {
    PiecesAppend(q, t, '/');
  }

  /** Adding a condition with `/` filters the previous result further. */
  lemma FilterRefines(flats: seq<Value>, q: string, t: string)
    ensures Filter(flats, q + "/" + t) == Filter(Filter(flats, q), t)
    ensures IsSubsequence(Filter(flats, q + "/" + t), Filter(flats, q))
    ensures |Filter(flats, q + "/" + t)| <= |Filter(flats, q)|
  {
    ConditionsAppend(q, t);
    KeepKeep(flats, Conditions(q), Conditions(t));
    KeepIsSubsequence(Filter(flats, q), Conditions(t));
  }

  /** A flat passes `q/t` exactly when it passes `q` and passes `t`. */
  lemma FilterIntersection(flats: seq<Value>, q: string, t: string, x: Value)
    ensures x in Filter(flats, q + "/" + t) <==> x in Filter(flats, q) && x in Filter(flats, t)
  {
    ConditionsAppend(q, t);
    AllHoldAppend(x, Conditions(q), Conditions(t));
  }

  lemma {:induction false} KeepCommute(flats: seq<Value>, c1: seq<string>, c2: seq<string>)
    ensures Keep(flats, c1 + c2) == Keep(flats, c2 + c1)
    decreases |flats|
  {
    if |flats| > 0 {
      AllHoldAppend(flats[0], c1, c2);
      AllHoldAppend(flats[0], c2, c1);
      KeepCommute(flats[1..], c1, c2);
    }
  }

  /** The order of conditions does not matter. */
  lemma FilterCommutes(flats: seq<Value>, q: string, t: string)
    ensures Filter(flats, q + "/" + t) == Filter(flats, t + "/" + q)
  {
    ConditionsAppend(q, t);
    ConditionsAppend(t, q);
    KeepCommute(flats, Conditions(q), Conditions(t));
  }

  // ---------------------------------------------------------------------------
  // Query shapes.
  // ---------------------------------------------------------------------------

  lemma {:induction false} PiecesBlank(q: string, sep: char)
    requires forall i :: 0 <= i < |q| ==> q[i] == sep || IsSpace(q[i])
    ensures Pieces(q, sep) == []
    decreases |q|
  {
    match IndexOf(q, sep)
    case None =>
      BlankPiece(q, sep);
    case Some(i) =>
      var head := q[..i];
      var tail := q[i + 1..];
      assert forall k :: 0 <= k < |head| ==> head[k] == q[k];
      BlankPiece(head, sep);
      assert forall k :: 0 <= k < |tail| ==> tail[k] == q[i + 1 + k];
      PiecesBlank(tail, sep);
      AroundIndex(q, i);
      PiecesAppend(head, tail, sep);
  }

  /** Whitespace without a separator leaves no piece. */
  lemma BlankPiece(s: string, sep: char)
    requires sep !in s && forall i :: 0 <= i < |s| ==> IsSpace(s[i])
    ensures Pieces(s, sep) == []
  {
    TrimAllSpace(s);
    SplitNoSep(s, sep);
    assert Cleaned([s]) == [] + Cleaned([]);
  }

  /** A query made only of `/` and whitespace (the empty query included) keeps every flat in order. */
  lemma FilterBlankQuery(flats: seq<Value>, query: string)
    requires forall i :: 0 <= i < |query| ==> query[i] == '/' || IsSpace(query[i])
    ensures Filter(flats, query) == flats
  {
    PiecesBlank(query, '/');
    KeepAll(flats, []);
  }

  /** The empty query has no conditions. */
  lemma ConditionsEmpty()
    ensures Conditions([]) == []
  {
    PiecesEmpty('/');
  }

  /** A leading `/` adds nothing. */
  lemma ConditionsLeadingSlash(q: string)
    ensures Conditions(['/'] + q) == Conditions(q)
  {
    var e: string := [];
    calc {
      Conditions(['/'] + q);
      == { assert ['/'] + q == e + "/" + q; }
      Conditions(e + "/" + q);
      == { ConditionsAppend(e, q); }
      Conditions(e) + Conditions(q);
      == { ConditionsEmpty(); }
      [] + Conditions(q);
    }
  }

  /** A trailing `/` adds nothing. */
  lemma ConditionsTrailingSlash(q: string)
    ensures Conditions(q + ['/']) == Conditions(q)
  {
    PiecesTrailingSep(q, '/');
  }

  /** A segment without `/` and without surrounding whitespace is the one condition. */
  lemma SingleCondition(c: string)
    requires c != [] && '/' !in c && !IsSpace(c[0]) && !IsSpace(c[|c| - 1])
    ensures Conditions(c) == [c]
  {
    SplitNoSep(c, '/');
    TrimNoSpace(c);
    assert Cleaned([c]) == [c] + Cleaned([]);
  }

  /** Whitespace around a segment is trimmed away. */
  lemma ConditionsTrimmed(ws1: string, c: string, ws2: string)
    requires c != [] && '/' !in c && !IsSpace(c[0]) && !IsSpace(c[|c| - 1])
    requires forall i :: 0 <= i < |ws1| ==> IsSpace(ws1[i]) && ws1[i] != '/'
    requires forall i :: 0 <= i < |ws2| ==> IsSpace(ws2[i]) && ws2[i] != '/'
    ensures Conditions(ws1 + c + ws2) == [c]
  {
    PaddedPiece(ws1, c, ws2, '/');
  }

  /** Doubled `/` on both sides of a single condition are discarded. */
  lemma ConditionsDoubledSlashes(c: string)
    requires c != [] && '/' !in c && !IsSpace(c[0]) && !IsSpace(c[|c| - 1])
    ensures Conditions("//" + c + "//") == [c]
  {
    assert ['/'] + (['/'] + (c + ['/']) + ['/']) == "//" + c + "//";
    assert ['/'] + (c + ['/']) + ['/'] == ['/'] + ((c + ['/']) + ['/']);
    SingleCondition(c);
    ConditionsTrailingSlash(c);
    ConditionsTrailingSlash(c + ['/']);
    ConditionsLeadingSlash((c + ['/']) + ['/']);
    ConditionsLeadingSlash(['/'] + (c + ['/']) + ['/']);
  }

  /** `//name:foo//` is the same query as `name:foo`. */
  lemma SlashesExample(c: string)
    requires c == "name:foo"
    ensures Conditions("//" + c + "//") == [c]
  {
    ConditionsDoubledSlashes(c);
  }

  /** ` name:foo ` is the same query as `name:foo`. */
  lemma SpacesExample(c: string)
    requires c == "name:foo"
    ensures Conditions(" " + c + " ") == [c]
  {
    ConditionsTrimmed(" ", c, " ");
  }

  /** A malformed condition can never hold, so the whole result is empty. */
  lemma FilterMalformed(flats: seq<Value>, query: string)
    requires exists c :: c in Conditions(query) && ParseCondition(c).None?
    ensures Filter(flats, query) == []
  {
    KeepMalformed(flats, Conditions(query));
  }

  lemma KeepMalformed(flats: seq<Value>, conditions: seq<string>)
    requires exists c :: c in conditions && ParseCondition(c).None?
    ensures Keep(flats, conditions) == []
  {
    var c :| c in conditions && ParseCondition(c).None?;
    var k :| 0 <= k < |conditions| && conditions[k] == c;
    forall i | 0 <= i < |flats| ensures !AllHold(flats[i], conditions) {
      assert !Holds(flats[i], conditions[k]);
    }
    KeepNone(flats, conditions);
  }

  /**
   * A segment without `:`, with nothing after its first `:`, or with nothing before it,
   * has no field-and-value pair.
   */
  lemma MalformedSegments(f: string, v: string)
    requires ':' !in f
    ensures ParseCondition(f).None?
    ensures ParseCondition(f + ":").None?
    ensures ParseCondition(":" + v).None?
  {
    var s := f + ":";
    assert s[..|f|] == f;
    IndexOfFirst(s, ':', |f|);
    IndexOfFirst(":" + v, ':', 0);
  }

  /** `justtext`, `name:` and `:x` have no field-and-value pair. */
  lemma MalformedExamples(t: string, n: string, x: string)
    requires t == "justtext" && n == "name" && x == "x"
    ensures ParseCondition(t).None? && ParseCondition(n + ":").None? && ParseCondition(":" + x).None?
  {
    MalformedSegments(t, x);
    MalformedSegments(n, x);
  }

  /** Text after a second `:` is ignored: `f:v:rest` is the condition `f:v`. */
  lemma ParseIgnoresAfterSecondColon(f: string, v: string, rest: string)
    requires ':' !in f && ':' !in v
    ensures ParseCondition(f + ":" + v + ":" + rest) == ParseCondition(f + ":" + v)
    ensures f != [] && v != [] ==> ParseCondition(f + ":" + v) == Some(Condition(f, v))
  {
    SplitAppend(f, v, ':');
    SplitAppend(f + ":" + v, rest, ':');
    SplitNoSep(f, ':');
    SplitNoSep(v, ':');
    assert f + [':'] + v == f + ":" + v;
    assert f + ":" + v + [':'] + rest == f + ":" + v + ":" + rest;
  }

  /** `needle` occurs somewhere in `text`, ignoring ASCII case. */
  ghost predicate OccursIgnoringCase(text: string, needle: string)
  {
    exists i :: OccursAt(Lower(text), Lower(needle), i)
  }

  /**
   * What a single condition tests: it holds exactly when it parses, the field is
   * present, and its text contains the value at some position, ignoring case.
   */
  lemma HoldsMeaning(flat: Value, segment: string, c: Condition)
    requires ParseCondition(segment) == Some(c)
    ensures Holds(flat, segment) <==>
      Show(FieldValue(flat, c.field)).Some? && OccursIgnoringCase(Show(FieldValue(flat, c.field)).value, c.needle)
  {
  }

  /** A missing field never matches, whatever the value asked for. */
  lemma HoldsAbsent(flat: Value, segment: string)
    requires ParseCondition(segment).Some?
    requires FieldValue(flat, ParseCondition(segment).value.field) == Absent
    ensures !Holds(flat, segment)
  {
  }

  /**
   * Path lookup short-circuits: when some key along the dotted path is missing,
   * the condition is false.
   */
  lemma HoldsMissingKey(flat: Value, segment: string, p: seq<string>, key: string, q: seq<string>)
    requires ParseCondition(segment).Some?
    requires Split(ParseCondition(segment).value.field, '.') == p + [key] + q
    requires var w := Lookup(flat, p); !(w.Obj? && key in w.fields)
    ensures !Holds(flat, segment)
  {
    LookupMissingKey(flat, p, key, q);
  }

  /** A top-level field holds a condition whose value occurs in the field's text. */
  lemma HoldsTopLevel(field: string, v: Value, needle: string)
    requires field != [] && ':' !in field && '.' !in field
    requires needle != [] && ':' !in needle
    requires Show(v).Some? && OccursIgnoringCase(Show(v).value, needle)
    ensures Holds(Obj(map[field := v]), field + ":" + needle)
  {
    TopLevelField(field, v);
    var e: string := [];
    ParseIgnoresAfterSecondColon(field, needle, e);
  }

  /** A dotted field `f.g` reads `g` inside the value of `f`. */
  lemma FieldValueDotted(flat: Value, f: string, g: string)
    requires '.' !in f
    ensures FieldValue(flat, f + "." + g) == FieldValue(Step(flat, f), g)
  {
    SplitAtFirst(f, g, '.');
    assert f + "." + g == f + ['.'] + g;
    LookupAppend(flat, [f], Split(g, '.'));
    assert [f] + Split(g, '.') == Split(f + ['.'] + g, '.');
    assert Lookup(flat, [f]) == Lookup(Step(flat, f), []);
  }

  /** A two-level path such as `house.year` reads the inner field of the outer object. */
  lemma NestedField(f: string, g: string, v: Value)
    requires '.' !in f && '.' !in g
    ensures FieldValue(Obj(map[f := Obj(map[g := v])]), f + "." + g) == v
  {
    FieldValueDotted(Obj(map[f := Obj(map[g := v])]), f, g);
  }

  lemma TopLevelField(field: string, v: Value)
    requires '.' !in field
    ensures FieldValue(Obj(map[field := v]), field) == v
  {
    SplitNoSep(field, '.');
    var flat := Obj(map[field := v]);
    assert Lookup(flat, [field]) == Lookup(v, []);
  }

  lemma ShowTen(n: int)
    requires n == 10
    ensures Show(Int(n)) == Some("10")
  {
    assert Decimal.DigitChar(0) == '0' && Decimal.DigitChar(1) == '1';
    assert Decimal.NatToString(1) == "1";
    assert Decimal.NatToString(10) == Decimal.NatToString(1) + [Decimal.DigitChar(0)] == "10";
    assert Decimal.IntToString(n) == "10";
  }

  lemma OneOccursInTen(text: string, needle: string)
    requires text == "10" && needle == "1"
    ensures OccursIgnoringCase(text, needle)
  {
    assert Lower(text) == text && Lower(needle) == needle;
    assert OccursAt(text, needle, 0);
  }

  /** Matching is containment, not equality: `numberOfRooms:1` matches a flat with 10 rooms. */
  lemma ContainmentNotEquality(field: string, needle: string)
    requires field == "numberOfRooms" && needle == "1"
    ensures Holds(Obj(map[field := Int(10)]), field + ":" + needle)
  {
    ShowTen(10);
    OneOccursInTen("10", needle);
    HoldsTopLevel(field, Int(10), needle);
  }
}
