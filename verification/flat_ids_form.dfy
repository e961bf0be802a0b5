/**
 * The "most expensive of three flats" form: the id field is split at commas,
 * each piece trimmed and empty pieces dropped; exactly three ids are required,
 * each a number that is not negative, and the three numbers are posted in order.
 */
module FlatIdsForm {
  import opened Common
  import opened Text
  import opened Decimal
  import opened JsNumber

  /** The two validation messages: "enter exactly 3 ids" and "all ids must be non-negative numbers". */
  datatype IdsError = NotExactlyThree | NotNonNegativeNumbers

  const RequiredIds: nat := 3

  /** `ids.split(',').map(id => id.trim()).filter(Boolean)`. */
  function IdPieces(input: string): seq<string>
  {
    Pieces(input, ',')
  }

  /** `isNaN(n) || n < 0` for the number `Number(id)`. */
  predicate IsRejected(n: Num)
  {
    n.NaN? || IsNegative(n)
  }

  predicate IsInvalidId(id: string)
  {
    IsRejected(ToNumber(id))
  }

  /** The position `idArray.find(...)` stops at: the first rejected number, if any. */
  function FirstRejected(nums: seq<Num>): (r: Option<nat>)
    ensures r.None? <==> forall i :: 0 <= i < |nums| ==> !IsRejected(nums[i])
    ensures r.Some? ==> r.value < |nums| && IsRejected(nums[r.value])
    ensures r.Some? ==> forall j :: 0 <= j < r.value ==> !IsRejected(nums[j])
  {
    if |nums| == 0 then None
    else if IsRejected(nums[0]) then Some(0)
    else match FirstRejected(nums[1..])
      case None => None
      case Some(i) => Some(i + 1)
  }

  /**
   * `ids.find(isInvalid)` tested for truthiness: the found id is reported only if it is
   * a non-empty string (the pieces always are).
   */
  function FindInvalid(ids: seq<string>): (found: Option<string>)
    ensures found.None? <==> forall i :: 0 <= i < |ids| ==> !IsInvalidId(ids[i])
    ensures found.Some? ==>
      exists i :: 0 <= i < |ids| && found.value == ids[i] && IsInvalidId(ids[i]) &&
        (forall j :: 0 <= j < i ==> !IsInvalidId(ids[j]))
  {
    match FirstRejected(Numbers(ids))
    case None => None
    case Some(i) => Some(ids[i])
  }

  /** JavaScript truthiness of the `find` result: a found string that is not empty. */
  predicate Truthy(found: Option<string>)
  {
    found.Some? && found.value != []
  }

  /** `idArray.map(Number)`. */
  function Numbers(ids: seq<string>): (r: seq<Num>)
    ensures |r| == |ids|
    ensures forall i :: 0 <= i < |ids| ==> r[i] == ToNumber(ids[i])
  {
    if |ids| == 0 then [] else [ToNumber(ids[0])] + Numbers(ids[1..])
  }

  /** `handleSubmit`: the payload it posts, or the validation error it sets. */
  function Submit(input: string): (r: Result<seq<Num>, IdsError>)
    ensures r.Ok? ==> |IdPieces(input)| == RequiredIds && r.value == Numbers(IdPieces(input))
    ensures r == Err(NotNonNegativeNumbers) ==>
      exists i :: 0 <= i < |IdPieces(input)| && IsInvalidId(IdPieces(input)[i])
  {
    Validate(IdPieces(input))
  }

  /** The checks of `handleSubmit` on the cleaned pieces, in source order. */
  function Validate(ids: seq<string>): (r: Result<seq<Num>, IdsError>)
    ensures r.Ok? ==> |ids| == RequiredIds && r.value == Numbers(ids)
    ensures r == Err(NotNonNegativeNumbers) ==> exists i :: 0 <= i < |ids| && IsInvalidId(ids[i])
  {
    if |ids| != RequiredIds then Err(NotExactlyThree)
    else if Truthy(FindInvalid(ids)) then Err(NotNonNegativeNumbers)
    else Ok(Numbers(ids))
  }

  /** The count is checked first: any other count is reported as such, whatever the pieces are. */
  lemma CountCheckedFirst(ids: seq<string>)
    requires |ids| != 3
    ensures Validate(ids) == Err(NotExactlyThree)
  {
  }

  /** With three pieces, an invalid one (NaN or negative) stops the request. */
  lemma InvalidIdRefused(ids: seq<string>, k: nat)
    requires |ids| == 3 && k < 3 && IsInvalidId(ids[k])
    requires forall i :: 0 <= i < |ids| ==> ids[i] != []
    ensures Validate(ids) == Err(NotNonNegativeNumbers)
  {
    var nums := Numbers(ids);
    assert IsRejected(nums[k]);
    var i := FirstRejected(nums).value;
    assert ids[i] != [];
  }

  /** With three valid pieces, their numbers are posted in input order. */
  lemma ValidIdsSent(ids: seq<string>)
    requires |ids| == 3
    requires !IsInvalidId(ids[0]) && !IsInvalidId(ids[1]) && !IsInvalidId(ids[2])
    ensures Validate(ids) == Ok([ToNumber(ids[0]), ToNumber(ids[1]), ToNumber(ids[2])])
  {
    var nums := Numbers(ids);
    NoneRejected(nums);
    assert nums == [nums[0], nums[1], nums[2]];
  }

  lemma NoneRejected(nums: seq<Num>)
    requires |nums| == 3 && !IsRejected(nums[0]) && !IsRejected(nums[1]) && !IsRejected(nums[2])
    ensures FirstRejected(nums).None?
  {
  }

  /** A request is sent only for three valid pieces, and never with a NaN or negative id. */
  lemma SentMeansValid(ids: seq<string>)
    requires Validate(ids).Ok?
    ensures |ids| == 3
    ensures forall i :: 0 <= i < 3 ==> !IsInvalidId(ids[i])
    ensures forall i :: 0 <= i < 3 ==> var n := Validate(ids).value[i]; !n.NaN? && !IsNegative(n)
  {
    var nums := Numbers(ids);
    assert FirstRejected(nums).None?;
    forall i | 0 <= i < 3 ensures !IsInvalidId(ids[i]) {
      assert nums[i] == ToNumber(ids[i]);
    }
  }

  /**
   * On non-empty pieces, the request goes out exactly when there are three of them and
   * none is NaN or negative, and it carries their numbers.
   */
  lemma ValidateVerdict(ids: seq<string>)
    requires forall i :: 0 <= i < |ids| ==> ids[i] != []
    ensures Validate(ids).Ok? <==> |ids| == 3 && forall i :: 0 <= i < 3 ==> !IsInvalidId(ids[i])
    ensures Validate(ids).Ok? ==> Validate(ids).value == Numbers(ids)
  {
    if Validate(ids).Ok? {
      SentMeansValid(ids);
    } else if |ids| == 3 {
      var nums := Numbers(ids);
      var k := FirstRejected(nums).value;
      assert IsInvalidId(ids[k]);
    }
  }

  /** `handleSubmit` posts exactly when the input has three pieces, none NaN or negative. */
  lemma SubmitVerdict(input: string)
    ensures Submit(input).Ok? <==>
      |IdPieces(input)| == 3 && forall i :: 0 <= i < 3 ==> !IsInvalidId(IdPieces(input)[i])
    ensures Submit(input).Ok? ==> Submit(input).value == Numbers(IdPieces(input))
  {
    PiecesNonEmpty(input);
    ValidateVerdict(IdPieces(input));
  }

  /** The pieces handed to the checks are never empty. */
  lemma PiecesNonEmpty(input: string)
    ensures forall i :: 0 <= i < |IdPieces(input)| ==> IdPieces(input)[i] != []
  {
  }

  /** Three digit strings separated by commas are accepted as their values, in order. */
  lemma DigitIdsAccepted(a: string, b: string, c: string)
    requires a != [] && AllDigits(a) && b != [] && AllDigits(b) && c != [] && AllDigits(c)
    ensures Submit(a + "," + b + "," + c) ==
      Ok([Finite(DigitsValue(a) as real), Finite(DigitsValue(b) as real), Finite(DigitsValue(c) as real)])
  {
    DigitPiecesThree(a, b, c);
    DigitsValidated(a, b, c);
  }

  lemma DigitsValidated(a: string, b: string, c: string)
    requires a != [] && AllDigits(a) && b != [] && AllDigits(b) && c != [] && AllDigits(c)
    ensures Validate([a, b, c]) ==
      Ok([Finite(DigitsValue(a) as real), Finite(DigitsValue(b) as real), Finite(DigitsValue(c) as real)])
  {
    var ids := [a, b, c];
    ToNumberDigits(a);
    ToNumberDigits(b);
    ToNumberDigits(c);
    ValidIdsSent(ids);
  }

  /** A negative id with a non-zero digit is refused once the count is right. */
  lemma NegativeIdRefused(a: string, b: string, d: string)
    requires a != [] && AllDigits(a) && b != [] && AllDigits(b) && d != [] && AllDigits(d)
    requires exists i :: 0 <= i < |d| && d[i] != '0'
    ensures Submit(a + "," + b + ",-" + d) == Err(NotNonNegativeNumbers)
  {
    var c := "-" + d;
    assert a + "," + b + ",-" + d == a + "," + b + "," + c;
    NegativePiecesThree(a, b, d, c);
    MinusDigitsInvalid(d, c);
    NegativeRejected(a, b, c);
  }

  lemma NegativePiecesThree(a: string, b: string, d: string, c: string)
    requires a != [] && AllDigits(a) && b != [] && AllDigits(b) && d != [] && AllDigits(d)
    requires c == "-" + d
    ensures IdPieces(a + "," + b + "," + c) == [a, b, c]
  {
    DigitsHaveNo(a, ',');
    DigitsHaveNo(b, ',');
    DigitsHaveNo(d, ',');
    assert c[0] == '-' && c[|c| - 1] == d[|d| - 1] && c[1..] == d;
    PiecesThree(a, b, c);
  }

  lemma NegativeRejected(a: string, b: string, c: string)
    requires a != [] && b != [] && c != [] && IsInvalidId(c)
    ensures Validate([a, b, c]) == Err(NotNonNegativeNumbers)
  {
    var ids := [a, b, c];
    assert ids[2] == c;
    InvalidIdRefused(ids, 2);
  }

  lemma MinusDigitsInvalid(d: string, c: string)
    requires d != [] && AllDigits(d)
    requires exists i :: 0 <= i < |d| && d[i] != '0'
    requires c == "-" + d
    ensures IsInvalidId(c)
  {
    ToNumberMinusDigits(d);
  }

  /** A piece with no comma and nothing to trim is a single id. */
  lemma SinglePiece(s: string)
    requires IsCleanPiece(s) && ',' !in s
    ensures Pieces(s, ',') == [s]
  {
    SplitNoSep(s, ',');
    TrimNoSpace(s);
    assert Cleaned([s]) == [s] + Cleaned([]);
  }

  lemma PiecesTwo(a: string, b: string)
    requires IsCleanPiece(a) && ',' !in a
    requires IsCleanPiece(b) && ',' !in b
    ensures Pieces(a + [','] + b, ',') == [a, b]
  {
    PiecesAppend(a, b, ',');
    SinglePiece(a);
    SinglePiece(b);
  }

  lemma PiecesThree(a: string, b: string, c: string)
    requires IsCleanPiece(a) && ',' !in a
    requires IsCleanPiece(b) && ',' !in b
    requires IsCleanPiece(c) && ',' !in c
    ensures IdPieces(a + "," + b + "," + c) == [a, b, c]
  {
    var ab := a + [','] + b;
    assert a + "," + b + "," + c == ab + [','] + c;
    PiecesAppend(ab, c, ',');
    PiecesTwo(a, b);
    SinglePiece(c);
  }

  lemma DigitPiecesThree(a: string, b: string, c: string)
    requires a != [] && AllDigits(a) && b != [] && AllDigits(b) && c != [] && AllDigits(c)
    ensures IdPieces(a + "," + b + "," + c) == [a, b, c]
  {
    DigitsHaveNo(a, ',');
    DigitsHaveNo(b, ',');
    DigitsHaveNo(c, ',');
    PiecesThree(a, b, c);
  }
}
