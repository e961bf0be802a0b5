/**
 * The JavaScript string operations the handlers use: `split` on a one-character
 * separator, `trim`, ASCII `toLowerCase`, `includes`, and `.length` in UTF-16 code units.
 * Strings are `seq<char>` whose elements are Unicode scalar values.
 */
module Text {
  import opened Common

  /** The first index of `c` in `s`, if any. */
  function IndexOf(s: string, c: char): (r: Option<nat>)
    ensures r.None? <==> c !in s
    ensures r.Some? ==> r.value < |s| && s[r.value] == c && c !in s[..r.value]
  {
    if |s| == 0 then None
    else if s[0] == c then Some(0)
    else match IndexOf(s[1..], c)
      case None => None
      case Some(i) => assert s[1..][..i] == s[1..i + 1]; Some(i + 1)
  }

  /** Glues `parts` back together with `sep` between neighbours (JavaScript `join`). */
  function Join(parts: seq<string>, sep: char): string
    requires |parts| >= 1
  {
    if |parts| == 1 then parts[0] else parts[0] + [sep] + Join(parts[1..], sep)
  }

  /**
   * JavaScript `s.split(sep)`: the maximal pieces between occurrences of `sep`.
   * There is always at least one piece (`"".split("/")` is `[""]`).
   */
  function Split(s: string, sep: char): (parts: seq<string>)
    ensures |parts| >= 1
    decreases |s|
  {
    match IndexOf(s, sep)
    case None => [s]
    case Some(i) => [s[..i]] + Split(s[i + 1..], sep)
  }

  /** No piece contains the separator. */
  lemma {:induction false} SplitPiecesFree(s: string, sep: char)
    ensures forall i :: 0 <= i < |Split(s, sep)| ==> sep !in Split(s, sep)[i]
    decreases |s|
  {
    match IndexOf(s, sep)
    case None =>
    case Some(i) =>
      SplitPiecesFree(s[i + 1..], sep);
      var rest := Split(s[i + 1..], sep);
      assert Split(s, sep) == [s[..i]] + rest;
  }

  /** Joining the pieces with the separator gives back the original text. */
  lemma {:induction false} JoinSplit(s: string, sep: char)
    ensures Join(Split(s, sep), sep) == s
    decreases |s|
  {
    match IndexOf(s, sep)
    case None =>
    case Some(i) =>
      var rest := Split(s[i + 1..], sep);
      JoinSplit(s[i + 1..], sep);
      assert Split(s, sep) == [s[..i]] + rest;
      assert ([s[..i]] + rest)[1..] == rest;
      assert s == s[..i] + [sep] + s[i + 1..];
  }

  lemma {:induction false} JoinAppend(p: seq<string>, q: seq<string>, sep: char)
    requires |p| >= 1 && |q| >= 1
    ensures Join(p + q, sep) == Join(p, sep) + [sep] + Join(q, sep)
    decreases |p|
  {
    if |p| == 1 {
      assert (p + q)[1..] == q;
    } else {
      assert (p + q)[1..] == p[1..] + q;
      JoinAppend(p[1..], q, sep);
    }
  }

  /** Splitting undoes joining when no part contains the separator. */
  lemma {:induction false} SplitJoin(parts: seq<string>, sep: char)
    requires |parts| >= 1
    requires forall i :: 0 <= i < |parts| ==> sep !in parts[i]
    ensures Split(Join(parts, sep), sep) == parts
    decreases |parts|
  {
    if |parts| == 1 {
      SplitNoSep(parts[0], sep);
    } else {
      var p0, rest := parts[0], Join(parts[1..], sep);
      assert Join(parts, sep) == p0 + [sep] + rest;
      SplitAtFirst(p0, rest, sep);
      SplitJoin(parts[1..], sep);
      assert parts == [p0] + parts[1..];
    }
  }

  /** The split of `s` at its first separator, at index `i`. */
  lemma SplitAt(s: string, sep: char, i: nat)
    requires IndexOf(s, sep) == Some(i)
    ensures Split(s, sep) == [s[..i]] + Split(s[i + 1..], sep)
  {
  }

  /** When `a` has no separator, splitting `a + sep + b` cuts exactly after `a`. */
  lemma SplitAtFirst(a: string, b: string, sep: char)
    requires sep !in a
    ensures Split(a + [sep] + b, sep) == [a] + Split(b, sep)
  {
    var s := a + [sep] + b;
    assert s[..|a|] == a;
    assert s[|a|] == sep;
    IndexOfFirst(s, sep, |a|);
    assert s[|a| + 1..] == b;
    SplitAt(s, sep, |a|);
  }

  lemma IndexOfFirst(s: string, c: char, i: nat)
    requires i < |s| && s[i] == c && c !in s[..i]
    ensures IndexOf(s, c) == Some(i)
  {
  }

  /** A string is what comes before position `i`, the character there, and what follows. */
  lemma AroundIndex(s: string, i: nat)
    requires i < |s|
    ensures s == s[..i] + [s[i]] + s[i + 1..]
  {
  }

  /** Splitting `a + sep + b` splits `a` and `b` separately. */
  lemma SplitAppend(a: string, b: string, sep: char)
    ensures Split(a + [sep] + b, sep) == Split(a, sep) + Split(b, sep)
  {
    var pa, pb := Split(a, sep), Split(b, sep);
    JoinAppend(pa, pb, sep);
    JoinSplit(a, sep);
    JoinSplit(b, sep);
    SplitPiecesFree(a, sep);
    SplitPiecesFree(b, sep);
    forall i | 0 <= i < |pa + pb| ensures sep !in (pa + pb)[i] {
      if i < |pa| { assert (pa + pb)[i] == pa[i]; } else { assert (pa + pb)[i] == pb[i - |pa|]; }
    }
    SplitJoin(pa + pb, sep);
  }

  /** The first piece of a split is the text up to the first separator. */
  lemma SplitFirst(s: string, sep: char)
    ensures Split(s, sep)[0] == match IndexOf(s, sep) case None => s case Some(i) => s[..i]
  {
  }

  /** A string without the separator is its own single piece. */
  lemma SplitNoSep(s: string, sep: char)
    requires sep !in s
    ensures Split(s, sep) == [s]
  {
  }

  /**
   * ECMAScript WhiteSpace and LineTerminator code points: the characters
   * `String.prototype.trim` removes.
   */
  predicate IsSpace(c: char)
  {
    var n := c as int;
    n == 0x09 || n == 0x0A || n == 0x0B || n == 0x0C || n == 0x0D || n == 0x20
    || n == 0xA0 || n == 0x1680 || (0x2000 <= n <= 0x200A) || n == 0x2028 || n == 0x2029
    || n == 0x202F || n == 0x205F || n == 0x3000 || n == 0xFEFF
  }

  /** Drops leading whitespace. */
  function TrimStart(s: string): (r: string)
    ensures |r| <= |s| && r == s[|s| - |r|..]
    ensures forall i :: 0 <= i < |s| - |r| ==> IsSpace(s[i])
    ensures r == [] || !IsSpace(r[0])
  {
    if |s| > 0 && IsSpace(s[0]) then
      var r := TrimStart(s[1..]);
      assert forall i :: 1 <= i < |s| - |r| ==> s[i] == s[1..][i - 1];
      r
    else s
  }

  /** Drops trailing whitespace. */
  function TrimEnd(s: string): (r: string)
    ensures |r| <= |s| && r == s[..|r|]
    ensures forall i :: |r| <= i < |s| ==> IsSpace(s[i])
    ensures r == [] || !IsSpace(r[|r| - 1])
  {
    if |s| > 0 && IsSpace(s[|s| - 1]) then
      var r := TrimEnd(s[..|s| - 1]);
      assert forall i :: |r| <= i < |s| - 1 ==> s[i] == s[..|s| - 1][i];
      r
    else s
  }

  /** JavaScript `s.trim()`: the infix left after removing whitespace at both ends. */
  function Trim(s: string): (r: string)
    ensures exists k :: OccursAt(s, r, k)
    ensures r == [] || (!IsSpace(r[0]) && !IsSpace(r[|r| - 1]))
  {
    var t := TrimStart(s);
    var r := TrimEnd(t);
    assert r == s[|s| - |t|..][..|r|] == s[|s| - |t|..|s| - |t| + |r|];
    assert OccursAt(s, r, |s| - |t|);
    assert r != [] ==> r[0] == t[0];
    r
  }

  /** Trimming a string with no whitespace at either end changes nothing. */
  lemma TrimNoSpace(s: string)
    requires s == [] || (!IsSpace(s[0]) && !IsSpace(s[|s| - 1]))
    ensures Trim(s) == s
  {
  }

  /** A string made only of whitespace trims to the empty string. */
  lemma TrimAllSpace(s: string)
    requires forall i :: 0 <= i < |s| ==> IsSpace(s[i])
    ensures Trim(s) == []
  {
  }

  lemma {:induction false} TrimStartSpaces(ws: string, s: string)
    requires forall i :: 0 <= i < |ws| ==> IsSpace(ws[i])
    requires s != [] && !IsSpace(s[0])
    ensures TrimStart(ws + s) == s
    decreases |ws|
  {
    if |ws| > 0 {
      assert (ws + s)[1..] == ws[1..] + s;
      TrimStartSpaces(ws[1..], s);
    } else {
      assert ws + s == s;
    }
  }

  lemma {:induction false} TrimEndSpaces(s: string, ws: string)
    requires forall i :: 0 <= i < |ws| ==> IsSpace(ws[i])
    requires s != [] && !IsSpace(s[|s| - 1])
    ensures TrimEnd(s + ws) == s
    decreases |ws|
  {
    if |ws| > 0 {
      assert (s + ws)[..|s + ws| - 1] == s + ws[..|ws| - 1];
      TrimEndSpaces(s, ws[..|ws| - 1]);
    } else {
      assert s + ws == s;
    }
  }

  /** ASCII lowercasing of one character. */
  function LowerChar(c: char): (r: char)
    ensures 'A' <= c <= 'Z' ==> 'a' <= r <= 'z' && r as int - c as int == 32
    ensures !('A' <= c <= 'Z') ==> r == c
  {
    if 'A' <= c <= 'Z' then (c as int + 32) as char else c
  }

  /** `s.toLowerCase()` restricted to ASCII letters. */
  function Lower(s: string): (r: string)
    ensures |r| == |s|
    ensures forall i :: 0 <= i < |s| ==> r[i] == LowerChar(s[i])
  {
    if |s| == 0 then [] else [LowerChar(s[0])] + Lower(s[1..])
  }

  /** `needle` occurs in `hay` starting at index `i`. */
  ghost predicate OccursAt(hay: string, needle: string, i: int)
  {
    0 <= i && i + |needle| <= |hay| && hay[i..i + |needle|] == needle
  }

  function StartsWith(s: string, prefix: string): (r: bool)
    ensures r <==> |prefix| <= |s| && s[..|prefix|] == prefix
  {
    |prefix| <= |s| && s[..|prefix|] == prefix
  }

  /** JavaScript `hay.includes(needle)`: substring containment at some position. */
  function Includes(hay: string, needle: string): (r: bool)
    ensures r <==> exists i :: OccursAt(hay, needle, i)
    decreases |hay|
  {
    if StartsWith(hay, needle) then
      assert OccursAt(hay, needle, 0);
      true
    else if |hay| == 0 then
      assert forall i :: !OccursAt(hay, needle, i);
      false
    else
      var r := Includes(hay[1..], needle);
      assert forall i :: OccursAt(hay[1..], needle, i) <==> OccursAt(hay, needle, i + 1) by {
        forall i ensures OccursAt(hay[1..], needle, i) <==> OccursAt(hay, needle, i + 1) {
          if 0 <= i && i + |needle| <= |hay| - 1 {
            assert hay[1..][i..i + |needle|] == hay[i + 1..i + 1 + |needle|];
          }
        }
      }
      assert !OccursAt(hay, needle, 0);
      assert r ==> OccursAt(hay, needle, (var i :| OccursAt(hay[1..], needle, i); i) + 1);
      assert (exists i :: OccursAt(hay, needle, i)) ==> r by {
        if exists i :: OccursAt(hay, needle, i) {
          var i :| OccursAt(hay, needle, i);
          assert i != 0;
          assert OccursAt(hay[1..], needle, i - 1);
        }
      }
      r
  }

  /** `hay.includes(c)` for a one-character needle is membership of that character. */
  lemma IncludesChar(hay: string, needle: string, c: char)
    requires needle == [c]
    ensures Includes(hay, needle) <==> c in hay
  {
    if c in hay {
      var i :| 0 <= i < |hay| && hay[i] == c;
      assert OccursAt(hay, needle, i);
    }
    if Includes(hay, needle) {
      var i :| OccursAt(hay, needle, i);
      assert hay[i] == hay[i..i + 1][0];
    }
  }

  /** JavaScript `.length`: the number of UTF-16 code units (astral characters take two). */
  function Utf16Length(s: string): (n: nat)
    ensures |s| <= n <= 2 * |s|
    ensures (forall i :: 0 <= i < |s| ==> s[i] as int < 0x10000) ==> n == |s|
  {
    if |s| == 0 then 0
    else (if s[0] as int < 0x10000 then 1 else 2) + Utf16Length(s[1..])
  }

  /** `.length` adds up over concatenation. */
  lemma {:induction false} Utf16Append(a: string, b: string)
    ensures Utf16Length(a + b) == Utf16Length(a) + Utf16Length(b)
    decreases |a|
  {
    if |a| > 0 {
      assert (a + b)[0] == a[0];
      assert (a + b)[1..] == a[1..] + b;
      Utf16Append(a[1..], b);
    } else {
      assert a + b == b;
    }
  }

  /** A text of astral characters followed by ordinary ones: two units each, then one each. */
  lemma AstralThenPlain(a: string, b: string)
    requires forall i :: 0 <= i < |a| ==> a[i] as int >= 0x10000
    requires forall i :: 0 <= i < |b| ==> b[i] as int < 0x10000
    ensures Utf16Length(a + b) == 2 * |a| + |b|
  {
    Utf16Append(a, b);
    Utf16LengthAstral(a);
  }

  /** Every astral character takes two code units. */
  lemma {:induction false} Utf16LengthAstral(s: string)
    requires forall i :: 0 <= i < |s| ==> s[i] as int >= 0x10000
    ensures Utf16Length(s) == 2 * |s|
  {
    if |s| > 0 {
      Utf16LengthAstral(s[1..]);
    }
  }

  /** Non-empty, with no whitespace at either end: what a trimmed, kept piece looks like. */
  predicate IsCleanPiece(t: string)
  {
    t != [] && !IsSpace(t[0]) && !IsSpace(t[|t| - 1])
  }

  /**
   * The shared idiom `s.split(sep).map(x => x.trim()).filter(Boolean)`:
   * trim every piece and drop the ones that became empty, keeping order.
   */
  function Cleaned(parts: seq<string>): (r: seq<string>)
    ensures |r| <= |parts|
    ensures forall i :: 0 <= i < |r| ==> IsCleanPiece(r[i])
  {
    if |parts| == 0 then []
    else
      var t, rest := Trim(parts[0]), Cleaned(parts[1..]);
      var head := if t == [] then [] else [t];
      CleanConcat(head, rest);
      head + rest
  }

  lemma CleanConcat(head: seq<string>, rest: seq<string>)
    requires forall i :: 0 <= i < |head| ==> IsCleanPiece(head[i])
    requires forall i :: 0 <= i < |rest| ==> IsCleanPiece(rest[i])
    ensures forall i :: 0 <= i < |head + rest| ==> IsCleanPiece((head + rest)[i])
  {
    forall i | 0 <= i < |head + rest| ensures IsCleanPiece((head + rest)[i]) {
      if i < |head| { assert (head + rest)[i] == head[i]; }
      else { assert (head + rest)[i] == rest[i - |head|]; }
    }
  }

  lemma {:induction false} CleanedAppend(p: seq<string>, q: seq<string>)
    ensures Cleaned(p + q) == Cleaned(p) + Cleaned(q)
    decreases |p|
  {
    if |p| == 0 {
      assert p + q == q;
    } else {
      var t := Trim(p[0]);
      var head := if t == [] then [] else [t];
      assert (p + q)[0] == p[0];
      assert (p + q)[1..] == p[1..] + q;
      CleanedAppend(p[1..], q);
      calc {
        Cleaned(p + q);
        head + Cleaned(p[1..] + q);
        head + (Cleaned(p[1..]) + Cleaned(q));
        (head + Cleaned(p[1..])) + Cleaned(q);
        Cleaned(p) + Cleaned(q);
      }
    }
  }

  function Pieces(s: string, sep: char): seq<string>
  {
    Cleaned(Split(s, sep))
  }

  /** Cleaning distributes over a separator: pieces of `a + sep + b` are those of `a` then `b`. */
  lemma PiecesAppend(a: string, b: string, sep: char)
    ensures Pieces(a + [sep] + b, sep) == Pieces(a, sep) + Pieces(b, sep)
  {
    SplitAppend(a, b, sep);
    CleanedAppend(Split(a, sep), Split(b, sep));
  }

  /** A clean piece padded with whitespace (and no separator) is one piece. */
  lemma PaddedPiece(ws1: string, c: string, ws2: string, sep: char)
    requires IsCleanPiece(c) && sep !in c
    requires forall i :: 0 <= i < |ws1| ==> IsSpace(ws1[i]) && ws1[i] != sep
    requires forall i :: 0 <= i < |ws2| ==> IsSpace(ws2[i]) && ws2[i] != sep
    ensures Pieces(ws1 + c + ws2, sep) == [c]
  {
    var s := ws1 + c + ws2;
    PaddedHasNoSep(ws1, c, ws2, sep);
    PaddedTrims(ws1, c, ws2);
    OnePiece(s, sep);
  }

  lemma PaddedHasNoSep(ws1: string, c: string, ws2: string, sep: char)
    requires sep !in c
    requires forall i :: 0 <= i < |ws1| ==> ws1[i] != sep
    requires forall i :: 0 <= i < |ws2| ==> ws2[i] != sep
    ensures sep !in ws1 + c + ws2
  {
    var s := ws1 + c + ws2;
    forall i | 0 <= i < |s| ensures s[i] != sep {
      if i < |ws1| { assert s[i] == ws1[i]; }
      else if i < |ws1| + |c| { assert s[i] == c[i - |ws1|]; }
      else { assert s[i] == ws2[i - |ws1| - |c|]; }
    }
  }

  lemma PaddedTrims(ws1: string, c: string, ws2: string)
    requires IsCleanPiece(c)
    requires forall i :: 0 <= i < |ws1| ==> IsSpace(ws1[i])
    requires forall i :: 0 <= i < |ws2| ==> IsSpace(ws2[i])
    ensures Trim(ws1 + c + ws2) == c
  {
    assert ws1 + c + ws2 == ws1 + (c + ws2);
    TrimStartSpaces(ws1, c + ws2);
    TrimEndSpaces(c, ws2);
  }

  /** A text without the separator is one piece: itself, trimmed, if that is not empty. */
  lemma OnePiece(s: string, sep: char)
    requires sep !in s && Trim(s) != []
    ensures Pieces(s, sep) == [Trim(s)]
  {
    SplitNoSep(s, sep);
    assert Cleaned([s]) == [Trim(s)] + Cleaned([]);
  }

  /** Two adjacent separators leave an empty piece between them, which is dropped. */
  lemma EmptyBetween(x: string, y: string, sep: char)
    ensures Pieces(x + [sep] + [sep] + y, sep) == Pieces(x, sep) + Pieces(y, sep)
  {
    assert x + [sep] + [sep] + y == (x + [sep]) + [sep] + y;
    PiecesAppend(x + [sep], y, sep);
    PiecesTrailingSep(x, sep);
  }

  /** A trailing separator adds nothing. */
  lemma PiecesTrailingSep(x: string, sep: char)
    ensures Pieces(x + [sep], sep) == Pieces(x, sep)
  {
    var e: string := [];
    calc {
      Pieces(x + [sep], sep);
      == { assert x + [sep] == x + [sep] + e; }
      Pieces(x + [sep] + e, sep);
      == { PiecesAppend(x, e, sep); }
      Pieces(x, sep) + Pieces(e, sep);
      == { PiecesEmpty(sep); }
      Pieces(x, sep) + [];
    }
  }

  /** The empty text has no pieces. */
  lemma PiecesEmpty(sep: char)
    ensures Pieces([], sep) == []
  {
    var e: string := [];
    assert IndexOf(e, sep).None?;
    assert Split(e, sep) == [e];
    assert TrimStart(e) == e && TrimEnd(e) == e;
    assert Trim(e) == e;
    assert Cleaned([e]) == [] + Cleaned([]);
  }
}
