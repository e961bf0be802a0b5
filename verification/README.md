# IS-lab1 frontend: the pure logic of the flat screens and forms, in Dafny

This project models the parts of the IS-lab1 frontend (a React admin client for a
flat registry) that are plain functions of their inputs:

- **The structured search filter** of the flat list (`filterFlats` / `getNestedValue`).
  A query such as `house.year:2010/isNew:true` is split at `/`. Each segment is trimmed and
  empty segments are dropped. Each remaining segment is split at `:` into a field path and a
  value. A flat is kept when every condition's field is present and its lower-cased text
  contains the lower-cased value.
- **The search bar**: typing replaces the query, and a field button appends a canned
  `field:` token with `/`. Both report the new query to the list screen.
- **Client-side pagination**: pages of five flats taken with `slice`, and `ceil(n/5)` pages.
- **The "most expensive of three flats" form**: a comma-separated id list. Exactly three
  pieces are required, none NaN or negative under `Number`. The numbers are posted in order.
- **The coordinates form**: each coordinate must match `^-?\d+(\.\d+)?$`. `parseFloat(x)`
  may not exceed 665, `parseFloat(y)` may not be below -28, and both fields are required.
- **The registration form's submit checks**, in order: no `@` in the username, a password
  of at least 8 UTF-16 code units, a matching confirmation. Also the mailbox link built
  from the text after the e-mail's `@`.
- **The profile screen**: saving is refused while the masked phone still holds a `_`.
  A password change checks length (only for a non-empty password) before the confirmation.

Flats are JSON-like values: strings, integers, booleans, nested objects, or missing.
Strings are `seq<char>`. The JavaScript library behaviour the handlers rely on is written
out in full:

- `split` on one character;
- `trim` with the ECMAScript whitespace set;
- `includes` as substring containment;
- `.length` in UTF-16 code units;
- `slice` index clamping;
- `Number()` over the StringNumericLiteral grammar;
- `parseFloat` as the longest decimal-literal prefix.

Numbers are kept exact (`real`).

Modules, one per file:

| module | models |
|---|---|
| `Common` | `Option` and `Result` |
| `Text` | split, join, trim, ASCII lower-casing, includes, UTF-16 length, the split-trim-filter idiom |
| `Decimal` | decimal digit strings and their values |
| `Record` | the flat value, `?.`-style path lookup, `toString` |
| `FlatSearch` | `filterFlats` and `getNestedValue` |
| `SearchBar` | `handleChange`, `handleButtonClick`, the button tokens |
| `Pagination` | `displayedFlats` and the page count |
| `JsNumber` | `Number()` and `parseFloat` |
| `FlatIdsForm` | `handleSubmit` of the id-list form |
| `CoordinatesForm` | the Yup schema for x and y |
| `Registration` | `handleSubmit` and `handleRedirectToEmail` of the registration form |
| `UserProfile` | `handleSaveChanges` and `handlePasswordChange` |

## Model

| member | source | states |
|---|---|---|
| Text.Split | src/flat/FlatSearch.tsx:52 | `split` always yields at least one piece (`"".split("/")` is `[""]`) |
| Text.SplitPiecesFree | src/flat/FlatSearch.tsx:52 | no piece of a split contains the separator |
| Text.JoinSplit | src/flat/FlatSearch.tsx:52 | joining the pieces of a split with the separator gives back the text |
| Text.SplitJoin | src/flat/FlatSearch.tsx:52 | splitting a join of separator-free parts gives back the parts |
| Text.SplitAppend | src/flat/FlatSearch.tsx:52 | the split of `a + sep + b` is the split of `a` followed by the split of `b` |
| Text.SplitFirst | src/auth/RegistrationForm.tsx:106 | the first piece of a split is the text up to the first separator, or all of it |
| Text.TrimStart | src/flat/FlatSearch.tsx:52 | only whitespace is removed, it is a suffix of the input, and it starts with a non-space |
| Text.TrimEnd | src/flat/FlatSearch.tsx:52 | only whitespace is removed, it is a prefix of the input, and it ends with a non-space |
| Text.Trim | src/flat/FlatSearch.tsx:52 | `trim()` is an infix of the input with no whitespace at either end |
| Text.TrimAllSpace | src/flat/FlatSearch.tsx:52 | a text of whitespace only trims to the empty string |
| Text.Lower | src/flat/FlatSearch.tsx:59 | `toLowerCase` keeps the length and lower-cases each ASCII capital, leaving other characters alone |
| Text.Includes | src/flat/FlatSearch.tsx:59 | `includes` holds exactly when the needle occurs at some position of the text |
| Text.IncludesChar | src/user/UserProfile.tsx:91 | `includes` of a one-character needle is membership of that character |
| Text.Utf16Length | src/auth/RegistrationForm.tsx:73 | `.length` lies between the number of characters and twice that, and equals it when no character is astral; `Text.Utf16Append` makes it additive over concatenation |
| Text.Utf16LengthAstral | src/auth/RegistrationForm.tsx:73 | astral characters count twice towards `.length` |
| Text.Utf16Append | src/auth/RegistrationForm.tsx:73 | `.length` of a concatenation is the sum of the lengths, so a text's length is one unit per ordinary character plus two per astral one |
| Text.AstralThenPlain | src/auth/RegistrationForm.tsx:73 | astral characters followed by ordinary ones have length twice the first count plus the second (`😀😀😀ab` is 8 units) |
| Text.Cleaned | src/flat/FlatSearch.tsx:52 | `.map(trim).filter(Boolean)` keeps at most as many pieces, each non-empty with no whitespace at either end |
| Text.CleanedAppend | src/flat/FlatSearch.tsx:52 | trimming and filtering distributes over concatenation of piece lists |
| Text.Pieces | src/flat/FlatSearch.tsx:52 | `split(sep).map(trim).filter(Boolean)` as one function. Its meaning is stated by `Text.Cleaned`, `Text.PiecesAppend`, `Text.PaddedPiece` and `Text.EmptyBetween` |
| Text.PiecesAppend | src/advanced-flat/MostExpensiveFlatFromIds.tsx:46 | the cleaned pieces of `a + sep + b` are those of `a` then those of `b`, so order is preserved |
| Text.PaddedPiece | src/advanced-flat/MostExpensiveFlatFromIds.tsx:46 | whitespace around a separator-free piece is trimmed away, leaving that one piece |
| Text.EmptyBetween | src/advanced-flat/MostExpensiveFlatFromIds.tsx:46 | two adjacent separators leave an empty piece, which is dropped |
| Text.PiecesEmpty | src/advanced-flat/MostExpensiveFlatFromIds.tsx:46 | `split` of the empty text after dropping empty pieces gives no pieces, for every separator |
| Decimal.NatToString | src/flat/FlatSearch.tsx:59 | `String(n)` for a natural number is a digit string, without leading zero, denoting `n` |
| Decimal.DigitsValuePositive | src/advanced-flat/MostExpensiveFlatFromIds.tsx:54 | a digit string denotes a positive number exactly when it has a non-zero digit |
| Decimal.Pow10Add | src/flat/CoordinatesForm.tsx:33 | `10^(a+b) = 10^a * 10^b` for the scale of a fraction's digits |
| Decimal.DigitsValueBelow | src/flat/CoordinatesForm.tsx:33 | a string of `k` digits denotes a number below `10^k`, so a fraction `.ddd` is below 1 |
| Decimal.CanonicalIsNatToString | src/flat/FlatSearch.tsx:59 | a digit string without leading zeros is the `String(n)` of its value: there is only one such spelling |
| Record.Step | src/flat/FlatSearch.tsx:67 | `acc?.[key]` is the field of an object that has the key, and missing otherwise |
| Record.Lookup | src/flat/FlatSearch.tsx:66-68 | `getNestedValue`: a missing start value stays missing, and a non-missing result along a non-empty path means the start is an object that has the path's first key |
| Record.LookupAppend | src/flat/FlatSearch.tsx:66-68 | following a dotted path in two parts is following it at once |
| Record.LookupAbsent | src/flat/FlatSearch.tsx:67 | once the walk hits a missing value it stays missing (`?.` short-circuits) |
| Record.LookupMissingKey | src/flat/FlatSearch.tsx:66-68 | a missing key anywhere along the path makes the lookup missing |
| Record.Show | src/flat/FlatSearch.tsx:59 | `toString`: strings are themselves, integers print as decimal digits without leading zeros denoting their magnitude, after a `-` when negative, booleans as `true`/`false`, objects as `[object Object]`, missing values give nothing |
| Record.ShowInt | src/flat/FlatSearch.tsx:59 | an integer's text is exactly `String(n)`: the one canonical spelling of its value, after `-` when negative |
| FlatSearch.ParseCondition | src/flat/FlatSearch.tsx:56-57 | a condition parses exactly when the text before the first `:` is non-empty and a non-`:` character follows that `:`. The field and value contain no `:`, and `field:value` is a prefix ending at the text's end or at a second `:` |
| FlatSearch.ParseShape | src/flat/FlatSearch.tsx:56-57 | `field && value` is truthy exactly when there is a `:` with something before it and a non-`:` after it |
| FlatSearch.SegmentShape | src/flat/FlatSearch.tsx:56 | the first two pieces of `split(':')` with the `:` between them are a prefix of the segment |
| FlatSearch.Conditions | src/flat/FlatSearch.tsx:52 | the query's conditions. Its meaning is stated by `FlatSearch.ConditionsAppend`, `FlatSearch.PiecesBlank` and the example lemmas below |
| FlatSearch.FieldValue | src/flat/FlatSearch.tsx:58 | `getNestedValue(flat, field)`: for a field without `.` it is that one key of the flat |
| FlatSearch.FieldValueDotted | src/flat/FlatSearch.tsx:66-68 | a dotted field `f.g` reads `g` inside the value of the dot-free field `f` |
| FlatSearch.NestedField | src/flat/FlatSearch.tsx:66-68 | a two-level path such as `house.year` reads the inner field of the outer object |
| FlatSearch.Holds | src/flat/FlatSearch.tsx:55-61 | the `every` callback: a condition that holds has parsed, and the flat has its field. The converse is stated by `FlatSearch.HoldsMeaning` |
| FlatSearch.Keep | src/flat/FlatSearch.tsx:54-63 | the result is no longer than the input, and a flat is in it exactly when it is in the input and passes every condition |
| FlatSearch.Filter | src/flat/FlatSearch.tsx:51-64 | `filterFlats` returns no more flats than it was given, and a flat is in the result exactly when it is in the input and passes every condition of the query |
| FlatSearch.KeepIsSubsequence | src/flat/FlatSearch.tsx:54 | the result is an order-preserving subsequence of the input |
| FlatSearch.KeepAppend | src/flat/FlatSearch.tsx:54 | filtering a concatenation filters each part |
| FlatSearch.KeepSingle | src/flat/FlatSearch.tsx:54-55 | a single flat is kept exactly when it passes every condition |
| FlatSearch.FilterMembership | src/flat/FlatSearch.tsx:51-63 | a flat is in the result exactly when it is in the input and passes every parsed condition |
| FlatSearch.KeepAll | src/flat/FlatSearch.tsx:54 | when every flat passes, the result is the input unchanged |
| FlatSearch.KeepNone | src/flat/FlatSearch.tsx:54 | when no flat passes, the result is empty |
| FlatSearch.FilterIdempotent | src/flat/FlatSearch.tsx:54 | filtering the result again with the same query returns it unchanged |
| FlatSearch.AllHoldAppend | src/flat/FlatSearch.tsx:55 | `every` over a concatenation of condition lists is the conjunction over both |
| FlatSearch.KeepKeep | src/flat/FlatSearch.tsx:54-55 | filtering by one list and then another is filtering by their concatenation |
| FlatSearch.ConditionsAppend | src/flat/FlatSearch.tsx:52 | the conditions of `q/t` are those of `q` followed by those of `t` |
| FlatSearch.FilterRefines | src/flat/FlatSearch.tsx:52-55 | adding a condition filters the earlier result further: a subsequence of it, never longer |
| FlatSearch.FilterIntersection | src/flat/FlatSearch.tsx:55 | a flat passes `q/t` exactly when it passes `q` and passes `t` |
| FlatSearch.KeepCommute | src/flat/FlatSearch.tsx:55 | the order of the conditions does not change the result |
| FlatSearch.FilterCommutes | src/flat/FlatSearch.tsx:52-55 | `q/t` and `t/q` filter alike |
| FlatSearch.PiecesBlank | src/flat/FlatSearch.tsx:52 | a text of separators and whitespace only has no pieces |
| FlatSearch.FilterBlankQuery | src/flat/FlatSearch.tsx:52-55 | an empty query, or one of `/` and whitespace only, keeps every flat in its original order |
| FlatSearch.ConditionsEmpty | src/flat/FlatSearch.tsx:52 | the empty query `''.split('/')` yields no conditions |
| FlatSearch.ConditionsLeadingSlash | src/flat/FlatSearch.tsx:52 | a leading `/` adds no condition |
| FlatSearch.ConditionsTrailingSlash | src/flat/FlatSearch.tsx:52 | a trailing `/` adds no condition |
| FlatSearch.SingleCondition | src/flat/FlatSearch.tsx:52 | a segment without `/` and without surrounding whitespace is the one condition |
| FlatSearch.ConditionsTrimmed | src/flat/FlatSearch.tsx:52 | whitespace around a segment is trimmed away |
| FlatSearch.ConditionsDoubledSlashes | src/flat/FlatSearch.tsx:52 | `//c//` has the same single condition as `c` |
| FlatSearch.SlashesExample | src/flat/FlatSearch.tsx:52 | `//name:foo//` is the query `name:foo` |
| FlatSearch.SpacesExample | src/flat/FlatSearch.tsx:52 | ` name:foo ` is the query `name:foo` |
| FlatSearch.FilterMalformed | src/flat/FlatSearch.tsx:56-61 | a condition that does not parse empties the whole result |
| FlatSearch.KeepMalformed | src/flat/FlatSearch.tsx:55-61 | a condition that does not parse fails for every flat, so nothing is kept |
| FlatSearch.MalformedSegments | src/flat/FlatSearch.tsx:56-57 | a segment without `:`, one ending in its only `:`, and one starting with `:` do not parse |
| FlatSearch.MalformedExamples | src/flat/FlatSearch.tsx:56-57 | `justtext`, `name:` and `:x` do not parse |
| FlatSearch.ParseIgnoresAfterSecondColon | src/flat/FlatSearch.tsx:56 | text after a second `:` is ignored: `f:v:rest` is the condition `f:v` |
| FlatSearch.HoldsMeaning | src/flat/FlatSearch.tsx:58-59 | a parsed condition holds exactly when the field is present and its text contains the value at some position, ignoring ASCII case |
| FlatSearch.HoldsAbsent | src/flat/FlatSearch.tsx:59 | a missing field never matches (`?? false`) |
| FlatSearch.HoldsMissingKey | src/flat/FlatSearch.tsx:58-59 | a missing key anywhere along the dotted path makes the condition false |
| FlatSearch.HoldsTopLevel | src/flat/FlatSearch.tsx:56-59 | a top-level field whose text contains the value satisfies `field:value` |
| FlatSearch.TopLevelField | src/flat/FlatSearch.tsx:66-68 | a path without `.` reads the field of that name |
| FlatSearch.ShowTen | src/flat/FlatSearch.tsx:59 | the integer 10 prints as `10` |
| FlatSearch.ContainmentNotEquality | src/flat/FlatSearch.tsx:59 | matching is containment, not equality: `numberOfRooms:1` matches a flat with 10 rooms |
| SearchBar.Click | src/flat/SearchBar.tsx:15 | on an empty query the new query is the token, otherwise `query/token`, which starts with the old query |
| SearchBar.ClickConditions | src/flat/SearchBar.tsx:15 | after a click the conditions are the old ones followed by those of the token |
| SearchBar.Apply | src/flat/SearchBar.tsx:9-18 | typing sets the bar to the typed text, a click to the extended query, and either way the list screen receives the bar's new text |
| SearchBar.Run | src/flat/SearchBar.tsx:9-18 | after any non-empty sequence of typing and clicks, the list screen's query equals the bar's. When typing came last, both hold the typed text |
| SearchBar.AllTokensAreFieldTokens | src/flat/SearchButtons.tsx:9-33 | every button token is a letters-and-dots field path followed by `:` |
| SearchBar.FieldTokenConditions | src/flat/SearchButtons.tsx:9-33 | a field token is a single condition with an empty value, so it does not parse |
| SearchBar.ClickAppendsCondition | src/flat/SearchBar.tsx:15 | after a button click the conditions are the old ones with the token appended |
| SearchBar.ClickEmptiesResult | src/flat/SearchBar.tsx:14-18 | right after any button click the filtered list is empty |
| SearchBar.ClickThenType | src/flat/SearchBar.tsx:9-18 | typing a value after the token gives the working condition `field:value` |
| Pagination.ClampIndex | src/flat/FlatList.tsx:61-64 | `slice` counts a negative index from the end and clamps to the list's bounds |
| Pagination.Slice | src/flat/FlatList.tsx:61-64 | `slice(start, end)` within bounds is the sub-list `[start, end)`; from beyond the end it is empty |
| Pagination.PageItems | src/flat/FlatList.tsx:39 | any page shows at most five flats |
| Pagination.PageCount | src/flat/FlatList.tsx:97 | `ceil(n/5)` is the fewest pages of five that hold `n` flats |
| Pagination.PageContents | src/flat/FlatList.tsx:61-64 | page `p` shows exactly the flats at indices `(p-1)*5` up to `min(p*5, n)`, in order |
| Pagination.PageCountOfEmpty | src/flat/FlatList.tsx:97 | an empty list has no pages |
| Pagination.PagesInRangeNonEmpty | src/flat/FlatList.tsx:61-64 | every page from 1 to the page count is non-empty |
| Pagination.PagesBeyondEmpty | src/flat/FlatList.tsx:61-64 | every page beyond the page count is empty |
| Pagination.ItemPlacement | src/flat/FlatList.tsx:61-64 | flat `j` appears on page `j/5 + 1` at position `j mod 5` |
| Pagination.PagesUpToPrefix | src/flat/FlatList.tsx:61-64 | pages 1 to `k` laid end to end are the first `min(5k, n)` flats |
| Pagination.PagesPartition | src/flat/FlatList.tsx:61-64 | pages 1 to the page count laid end to end are the whole list: nothing lost or repeated |
| JsNumber.MantissaValue | src/advanced-flat/MostExpensiveFlatFromIds.tsx:54 | a mantissa (`d`, `d.`, `d.d`, `.d`) denotes a non-negative value and is neither empty nor `.` |
| JsNumber.UnsignedDecimal | src/advanced-flat/MostExpensiveFlatFromIds.tsx:54 | an unsigned decimal literal is `Infinity` or a non-negative finite number |
| JsNumber.DecimalLiteral | src/advanced-flat/MostExpensiveFlatFromIds.tsx:54 | a decimal literal is never NaN and never empty |
| JsNumber.NonDecimal | src/advanced-flat/MostExpensiveFlatFromIds.tsx:54 | a hex, octal or binary literal starts with `0x`, `0o` or `0b` (either case) and has a digit |
| JsNumber.ToNumber | src/advanced-flat/MostExpensiveFlatFromIds.tsx:54 | `Number(s)` is 0 for blank text and NaN exactly when the trimmed text is neither kind of literal |
| JsNumber.LongestPrefix | src/flat/CoordinatesForm.tsx:33 | the prefix `parseFloat` reads is non-empty and a decimal literal |
| JsNumber.LongestPrefixIsLongest | src/flat/CoordinatesForm.tsx:33 | no longer prefix is a literal, and when none is found no prefix is |
| JsNumber.ParseFloat | src/flat/CoordinatesForm.tsx:33 | `parseFloat` is NaN exactly when no non-empty prefix of the text, after leading whitespace, is a decimal literal |
| JsNumber.ParseFloatOfLiteral | src/flat/CoordinatesForm.tsx:33 | `parseFloat` of a whole literal without leading whitespace is its value |
| JsNumber.ToNumberDigits | src/advanced-flat/MostExpensiveFlatFromIds.tsx:54 | a digit string reads as its decimal value |
| JsNumber.ToNumberNatToString | src/advanced-flat/MostExpensiveFlatFromIds.tsx:54 | `Number(String(n))` is `n` for every natural number |
| JsNumber.ToNumberMinusDigits | src/advanced-flat/MostExpensiveFlatFromIds.tsx:54 | `-` and digits reads as minus their value, negative exactly when a digit is non-zero (`-0` is not negative) |
| FlatIdsForm.FirstRejected | src/advanced-flat/MostExpensiveFlatFromIds.tsx:54 | `find` returns the first position whose number is NaN or negative, and none exactly when there is no such position |
| FlatIdsForm.FindInvalid | src/advanced-flat/MostExpensiveFlatFromIds.tsx:54 | `find` reports nothing exactly when no id is NaN or negative; otherwise it reports the first such id |
| FlatIdsForm.Numbers | src/advanced-flat/MostExpensiveFlatFromIds.tsx:64 | `idArray.map(Number)` converts each piece in place |
| FlatIdsForm.Validate | src/advanced-flat/MostExpensiveFlatFromIds.tsx:49-64 | the checks on the cleaned pieces: a request carries the numbers of exactly three pieces, and the "non-negative numbers" error means some piece is NaN or negative |
| FlatIdsForm.Submit | src/advanced-flat/MostExpensiveFlatFromIds.tsx:45-64 | `handleSubmit`: a request carries the numbers of exactly three cleaned pieces of the input, and the "non-negative numbers" error means some piece is NaN or negative |
| FlatIdsForm.CountCheckedFirst | src/advanced-flat/MostExpensiveFlatFromIds.tsx:49-52 | any count other than 3 is reported as the count error, whatever the pieces are |
| FlatIdsForm.InvalidIdRefused | src/advanced-flat/MostExpensiveFlatFromIds.tsx:54-58 | with three pieces, one NaN or negative id gives the "non-negative numbers" error |
| FlatIdsForm.ValidIdsSent | src/advanced-flat/MostExpensiveFlatFromIds.tsx:54-64 | three valid pieces are posted as their three numbers, in input order |
| FlatIdsForm.SentMeansValid | src/advanced-flat/MostExpensiveFlatFromIds.tsx:49-64 | a request goes out only for three pieces, none NaN or negative |
| FlatIdsForm.ValidateVerdict | src/advanced-flat/MostExpensiveFlatFromIds.tsx:49-64 | on non-empty pieces, the request goes out exactly when there are three valid ones, carrying their numbers |
| FlatIdsForm.SubmitVerdict | src/advanced-flat/MostExpensiveFlatFromIds.tsx:45-64 | `handleSubmit` posts exactly when the input has three pieces, none NaN or negative, and posts their numbers |
| FlatIdsForm.PiecesNonEmpty | src/advanced-flat/MostExpensiveFlatFromIds.tsx:46 | the pieces the checks see are never empty |
| FlatIdsForm.PiecesThree | src/advanced-flat/MostExpensiveFlatFromIds.tsx:46 | `a,b,c` with clean comma-free parts gives the pieces `a`, `b`, `c` in order |
| FlatIdsForm.DigitIdsAccepted | src/advanced-flat/MostExpensiveFlatFromIds.tsx:45-64 | three digit strings separated by commas are posted as their values, in order |
| FlatIdsForm.NegativeIdRefused | src/advanced-flat/MostExpensiveFlatFromIds.tsx:54-58 | a third id `-d`, with `d` having a non-zero digit, is refused as negative |
| CoordinatesForm.Match | src/flat/CoordinatesForm.tsx:26-27 | the regular expression reads an optional `-`, non-empty digits, and optionally `.` with non-empty digits |
| CoordinatesForm.MatchSpells | src/flat/CoordinatesForm.tsx:27 | what the pattern accepts spells the text back from its parts |
| CoordinatesForm.MatchRender | src/flat/CoordinatesForm.tsx:27 | the pattern accepts every text spelled by well-formed parts and reads those parts back |
| CoordinatesForm.MatchesIff | src/flat/CoordinatesForm.tsx:27 | the pattern's language is exactly the texts spelled by well-formed parts |
| CoordinatesForm.ParseFloatOfMatch | src/flat/CoordinatesForm.tsx:33 | `parseFloat` reads a matching text as exactly the value it denotes |
| CoordinatesForm.Prepared | src/flat/CoordinatesForm.tsx:49-54 | what Yup receives from Formik: an empty or absent field becomes `undefined`, and any other text is passed unchanged |
| CoordinatesForm.FieldFailures | src/flat/CoordinatesForm.tsx:24-47 | `required` is broken exactly when the field is empty or absent, and then it is the only broken rule. A matching text never breaks the pattern |
| CoordinatesForm.FieldAccepted | src/flat/CoordinatesForm.tsx:25-46 | a present field passes exactly when it matches and its value is within its bound |
| CoordinatesForm.BoundOnMatch | src/flat/CoordinatesForm.tsx:30-34 | a matching text breaks only the bound rule, and exactly when its value is out of range |
| CoordinatesForm.NegativeXAccepted | src/flat/CoordinatesForm.tsx:24-35 | x has no lower bound: every matching negative text passes |
| CoordinatesForm.NonNegativeYAccepted | src/flat/CoordinatesForm.tsx:36-46 | y has no upper bound: every matching non-negative text passes |
| CoordinatesForm.EmptyFieldFails | src/flat/CoordinatesForm.tsx:25-55 | an empty field breaks only `required`, because Formik hands it to Yup as `undefined`. The empty text alone would fail the pattern and parse to NaN |
| CoordinatesForm.MissingFieldRejected | src/flat/CoordinatesForm.tsx:35 | a missing x or y rejects the form, failing only `required` |
| CoordinatesForm.Submit | src/flat/CoordinatesForm.tsx:49-61 | Formik calls `onSubmit` only when both fields are present and match the pattern. A refusal reports at least one broken rule |
| CoordinatesForm.SubmitVerdict | src/flat/CoordinatesForm.tsx:24-47 | the form submits exactly when both fields match and are in range, with their exact values |
| CoordinatesForm.XBoundaryAccepted | src/flat/CoordinatesForm.tsx:33 | x = `665` is accepted: the bound is inclusive |
| CoordinatesForm.XAboveBoundaryRejected | src/flat/CoordinatesForm.tsx:33 | x = `665.1` breaks only the bound |
| CoordinatesForm.YBoundaryAccepted | src/flat/CoordinatesForm.tsx:44 | y = `-28` is accepted: the bound is inclusive |
| CoordinatesForm.YBelowBoundaryRejected | src/flat/CoordinatesForm.tsx:44 | y = `-28.1` breaks only the bound |
| CoordinatesForm.IntegerTextMatches | src/flat/CoordinatesForm.tsx:27 | `12` matches |
| CoordinatesForm.SignedDecimalTextMatches | src/flat/CoordinatesForm.tsx:27 | `-3.50` matches |
| CoordinatesForm.TrailingPointFails | src/flat/CoordinatesForm.tsx:27 | `1.` does not match |
| CoordinatesForm.LeadingPointFails | src/flat/CoordinatesForm.tsx:27 | `.5` does not match |
| CoordinatesForm.ForeignCharacterFails | src/flat/CoordinatesForm.tsx:27 | `+1`, `1e2` and ` 1` do not match |
| CoordinatesForm.ForeignCharacterAt | src/flat/CoordinatesForm.tsx:27 | a text without `-` or `.` that holds any non-digit does not match |
| Registration.SubmitVerdict | src/auth/RegistrationForm.tsx:69-87 | the form is posted unchanged exactly when all three checks pass, and each error is reported exactly when its check is the first to fail |
| Registration.Submit | src/auth/RegistrationForm.tsx:67-87 | `handleSubmit` posts the form unchanged, and only when the username has no `@`, the password is at least 8 code units long, and the confirmation equals it |
| Registration.UsernameCheckedFirst | src/auth/RegistrationForm.tsx:69-72 | a username with `@` is refused with the username error, whatever the passwords |
| Registration.LengthCheckedBeforeMatch | src/auth/RegistrationForm.tsx:73-80 | a short password is reported as short even when the confirmation differs |
| Registration.EightCharactersEnough | src/auth/RegistrationForm.tsx:73-76 | a password of exactly 8 non-astral characters passes the length check |
| Registration.AstralPasswordLength | src/auth/RegistrationForm.tsx:73 | four astral characters are already 8 code units long |
| Registration.EmailDomain | src/auth/RegistrationForm.tsx:106 | `split('@')[1]` is undefined exactly when the e-mail has no `@` |
| Registration.DomainMeaning | src/auth/RegistrationForm.tsx:106 | the domain is the text after the first `@`, up to the next `@` or the end |
| Registration.SingleAtDomain | src/auth/RegistrationForm.tsx:106 | for an address with exactly one `@`, the domain is everything after it |
| Registration.RedirectUrl | src/auth/RegistrationForm.tsx:107 | the link starts with `https://`, and is `https://undefined` when the e-mail has no `@` |
| Registration.RedirectToDomain | src/auth/RegistrationForm.tsx:106-107 | an address with one `@` opens `https://` followed by its domain |
| UserProfile.SaveChanges | src/user/UserProfile.tsx:89-110 | nothing happens before the profile has loaded. The update is sent exactly when the edited profile's phone has no `_`, and it carries the edited profile unchanged |
| UserProfile.SaveVerdict | src/user/UserProfile.tsx:90-98 | the update is sent, with the edited profile unchanged, exactly when the phone has no `_`; otherwise the phone error |
| UserProfile.EmptyPhoneSaved | src/user/UserProfile.tsx:91-98 | an empty phone has no placeholder, so the profile is saved |
| UserProfile.ChangePassword | src/user/UserProfile.tsx:112-125 | `handlePasswordChange` sends only a password that equals its confirmation and is empty or at least 8 code units long, and sends it unchanged |
| UserProfile.PasswordVerdict | src/user/UserProfile.tsx:112-125 | the password is sent exactly when it is empty or long enough and equals its confirmation. The length error comes only for a short non-empty password, the mismatch error only after the length check passed |
| UserProfile.LengthCheckedBeforeMismatch | src/user/UserProfile.tsx:113-122 | a short, mismatched password reports the length error |
| UserProfile.EmptyPasswordSent | src/user/UserProfile.tsx:113-125 | an empty password with an empty confirmation passes both checks and is sent |
| UserProfile.ProfileLaxerThanRegistration | src/user/UserProfile.tsx:113-122 | every password and confirmation that registration accepts is sent here unchanged, and registration always refuses the empty password, which the profile screen can send |

## Left out

- HTTP requests, the axios instance, `localStorage`, `navigate`, `window.open` and all rendering are left out. Each handler's result is the request it would send, or the error it would set.
- Which Yup message is displayed for a field is left out. `CoordinatesForm.FieldFailures` gives the set of rules the field breaks. Formik's `prepareDataForValidation` turns `""` into `undefined` before Yup validates; this is modelled by `CoordinatesForm.Prepared`. The Yup conventions assumed are: `matches` and the bound test let `undefined` through, and `required` refuses it.
- JsNumber.ToNumber and JsNumber.ParseFloat keep values exact and do not round to IEEE doubles. They differ from the browser in three ways:
  - overflow: `1e400` is `Infinity` in JavaScript but a finite value here;
  - underflow: `-1e-400` is `-0` in JavaScript, which is not negative, but a negative value here. So `FlatIdsForm.Submit` refuses `1,2,-1e-400`, which the browser posts;
  - precision: texts with more than about 17 significant digits may compare differently.
  The `-0` of a literal such as `-0` or `-000` is modelled as 0, which is not negative, as in JavaScript.
- JsNumber.ParseFloat states only when it is NaN. The value it reads from a literal is stated by `JsNumber.ParseFloatOfLiteral` and `CoordinatesForm.ParseFloatOfMatch`, not for every input.
- Text.Lower lower-cases ASCII letters only. Unicode case mapping is left out.
- Record.Step treats as missing every key an object does not hold itself. In JavaScript, `acc?.[key]` also reaches keys inherited from the object prototype (`constructor`, `toString`, `valueOf`, `hasOwnProperty`, `__proto__`). So `constructor:function` keeps every flat in the browser and none in the model. Lookups into strings, numbers and booleans are missing too, while JavaScript reaches their properties (`name.length`).
- Record.Show prints every integer in full decimal. JavaScript does that only below 10^21 (`String(1e21)` is `"1e+21"`), and holds integers exactly only up to 2^53. Flat fields are assumed to stay below 2^53.
- Record.Value holds integers only. Non-integer numbers (floating-point `toString`) and arrays in flat records are left out.
- Registration: the two error slots the handler writes (`errorMessage` for the username, `passwordError` for the passwords) are merged into one error value.
- RegistrationForm's `handleChange` is left out. Its checks read stale React state, so it is not a sequential function of the input.
- The phone mask (react-input-mask) is left out. The phone is taken as the masked string the handler sees, with `_` in unfilled slots.
- FlatIdsForm: the concrete example ` 1 ,,2, 3 ` is not proved as a literal. Its three steps are stated in general: `Text.PaddedPiece` (padding is trimmed), `Text.EmptyBetween` (an empty piece is dropped) and `Text.PiecesAppend` (order is kept).
- The other screens are not modelled: flat and house forms, import, server-side aggregates, login, activation, admin requests and import history.
