/**
 * The search bar: the text field and the field buttons both rewrite the query and
 * report it to the search screen, which filters with it.
 */
module SearchBar {
  import opened Common
  import opened Text
  import opened Record
  import opened FlatSearch

  /** The canned tokens of the field buttons, in display order. */
  const FieldTokens: seq<string> := [
    "id:", "name:", "creationDate:", "area:", "price:", "balcony:", "timeToMetroOnFoot:",
    "numberOfRooms:", "isNew:", "furnish:", "view:", "ownerId:",
    "house.name:", "house.year:", "house.numberOfFlatsOnFloor:",
    "coordinates.x:", "coordinates.y:"
  ]

  /** `handleButtonClick`: append the token, with `/` unless the query is empty. */
  function Click(query: string, token: string): (next: string)
    ensures query == [] ==> next == token
    ensures query != [] ==> next == query + "/" + token
    ensures query != [] ==> StartsWith(next, query)
  {
    if query == [] then token else query + "/" + token
  }

  /** Clicking keeps the conditions already typed and appends those of the token. */
  lemma ClickConditions(query: string, token: string)
    ensures Conditions(Click(query, token)) == Conditions(query) + Conditions(token)
  {
    if query == [] {
      ClickOnEmpty(query, token);
    } else {
      ClickOnText(query, token);
    }
  }

  /** The empty-query case of `ClickConditions`: the token alone. */
  lemma ClickOnEmpty(query: string, token: string)
    requires query == []
    ensures Conditions(Click(query, token)) == Conditions(query) + Conditions(token)
  {
    assert Click(query, token) == token;
    assert query + "/" + token == ['/'] + token;
    ConditionsAppend(query, token);
    ConditionsLeadingSlash(token);
  }

  lemma ClickOnText(query: string, token: string)
    requires query != []
    ensures Conditions(Click(query, token)) == Conditions(query) + Conditions(token)
  {
    assert Click(query, token) == query + "/" + token;
    ConditionsAppend(query, token);
  }

  /** What a user can do to the bar. */
  datatype Event = Typed(text: string) | Clicked(token: string)

  /** The bar's own query and the query the search screen last received. */
  datatype Session = Session(bar: string, screen: string)

  /** `handleChange` and `handleButtonClick` both set the bar and call `onSearch` with the same text. */
  function Apply(s: Session, e: Event): (t: Session)
    ensures e.Typed? ==> t.bar == e.text
    ensures e.Clicked? ==> t.bar == Click(s.bar, e.token)
    ensures t.screen == t.bar
  {
    var next := match e
      case Typed(text) => text
      case Clicked(token) => Click(s.bar, token);
    Session(next, next)
  }

  /**
   * The bar after a sequence of typing and clicks. Each handler reports the bar's new
   * text, so after any event the list screen filters with exactly the bar's query; the
   * last typed text, when typing came last, is what both show.
   */
  function Run(s: Session, events: seq<Event>): (t: Session)
    ensures |events| > 0 || s.bar == s.screen ==> t.screen == t.bar
    ensures |events| > 0 && events[|events| - 1].Typed? ==> t.bar == events[|events| - 1].text
    decreases |events|
  {
    if |events| == 0 then s else Run(Apply(s, events[0]), events[1..])
  }

  /** Letters and the `.` of a dotted path. */
  predicate IsPathChar(c: char)
  {
    'a' <= c <= 'z' || 'A' <= c <= 'Z' || c == '.'
  }

  /** A field token: a non-empty dotted field path followed by `:`. */
  predicate IsFieldToken(t: string)
  {
    && |t| >= 2
    && t[|t| - 1] == ':'
    && forall i :: 0 <= i < |t| - 1 ==> IsPathChar(t[i])
  }

  lemma AllTokensAreFieldTokens()
    ensures forall i :: 0 <= i < |FieldTokens| ==> IsFieldToken(FieldTokens[i])
  {
    FlatTokensAreFieldTokens();
    OtherTokensAreFieldTokens();
    NestedTokensAreFieldTokens();
  }

  lemma FlatTokensAreFieldTokens()
    ensures forall i :: 0 <= i < 6 ==> IsFieldToken(FieldTokens[i])
  {
  }

  lemma OtherTokensAreFieldTokens()
    ensures forall i :: 6 <= i < 12 ==> IsFieldToken(FieldTokens[i])
  {
  }

  lemma NestedTokensAreFieldTokens()
    ensures forall i :: 12 <= i < |FieldTokens| ==> IsFieldToken(FieldTokens[i])
  {
  }

  /** A field token is one condition of its own, and it has an empty value. */
  lemma FieldTokenConditions(t: string)
    requires IsFieldToken(t)
    ensures Conditions(t) == [t]
    ensures ParseCondition(t).None?
  {
    TokenIsOnePiece(t);
    SingleCondition(t);
    TokenHasNoValue(t);
  }

  /** A field token holds no `/` and starts and ends with a non-space. */
  lemma TokenIsOnePiece(t: string)
    requires IsFieldToken(t)
    ensures t != [] && '/' !in t && !IsSpace(t[0]) && !IsSpace(t[|t| - 1])
  {
    assert forall i :: 0 <= i < |t| - 1 ==> t[i] != '/';
    assert t[|t| - 1] != '/';
    assert IsPathChar(t[0]);
  }

  /** A field token is `field:` with nothing after the colon. */
  lemma TokenHasNoValue(t: string)
    requires IsFieldToken(t)
    ensures ParseCondition(t).None?
  {
    var f := t[..|t| - 1];
    assert forall i :: 0 <= i < |f| ==> IsPathChar(f[i]);
    assert ':' !in f;
    assert t == f + [':'] + [];
    SplitAppend(f, [], ':');
    SplitNoSep(f, ':');
    SplitNoSep([], ':');
  }

  /** A click adds the token as a new last condition and keeps the old ones. */
  lemma ClickAppendsCondition(query: string, t: string)
    requires IsFieldToken(t)
    ensures Conditions(Click(query, t)) == Conditions(query) + [t]
  {
    ClickConditions(query, t);
    FieldTokenConditions(t);
  }

  /** Right after a field button is clicked, the list is empty until a value is typed. */
  lemma ClickEmptiesResult(flats: seq<Value>, query: string, t: string)
    requires t in FieldTokens
    ensures Filter(flats, Click(query, t)) == []
  {
    AllTokensAreFieldTokens();
    var k :| 0 <= k < |FieldTokens| && FieldTokens[k] == t;
    assert IsFieldToken(FieldTokens[k]);
    ClickAppendsCondition(query, t);
    FieldTokenConditions(t);
    var q := Click(query, t);
    assert Conditions(q)[|Conditions(q)| - 1] == t;
    FilterMalformed(flats, q);
  }

  /** Typing a value after the token restores a working condition. */
  lemma ClickThenType(query: string, t: string, value: string)
    requires IsFieldToken(t) && value != [] && ':' !in value
    ensures ParseCondition(t + value) == Some(Condition(t[..|t| - 1], value))
  {
    var f := t[..|t| - 1];
    assert ':' !in f;
    assert t + value == f + ":" + value;
    ParseIgnoresAfterSecondColon(f, value, []);
  }
}
