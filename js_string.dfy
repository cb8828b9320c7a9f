/**
 The JavaScript string builtins that the stream decoder relies on, written as
 functions over `string` (a sequence of characters, one per Unicode scalar value):
 `split` on a one-character separator and its inverse `join`, `startsWith`,
 `slice` with JavaScript's negative-index rules, and a global `replace` of a
 two-character pattern by one character.
 */
module JsString {
  import opened Sequences

  /** `s.split(sep)` for a one-character separator: the pieces between the
      separators, in order. Like JavaScript, the empty string yields one empty
      piece and a trailing separator yields a trailing empty piece. */
  function Split(s: string, sep: char): (parts: seq<string>)
    ensures |parts| >= 1
    ensures forall i :: 0 <= i < |parts| ==> sep !in parts[i]
    ensures Join(parts, sep) == s
  {
    if |s| == 0 then [[]]
    else
      var rest := Split(s[1..], sep);
      if s[0] == sep then
        assert Join([[]] + rest, sep) == [] + [sep] + Join(rest, sep);
        [[]] + rest
      else
        var parts := [[s[0]] + rest[0]] + rest[1..];
        assert |rest| > 1 ==> Join(rest, sep) == rest[0] + [sep] + Join(rest[1..], sep);
        assert parts[1..] == rest[1..];
        parts
  }

  /** `parts.join(sep)`: the pieces with one separator between neighbours. */
  function Join(parts: seq<string>, sep: char): string
  {
    if |parts| == 0 then []
    else if |parts| == 1 then parts[0]
    else parts[0] + [sep] + Join(parts[1..], sep)
  }

  /** Splitting undoes joining, for pieces that do not contain the separator. */
  lemma {:induction false} SplitJoin(parts: seq<string>, sep: char)
    requires |parts| >= 1
    requires forall i :: 0 <= i < |parts| ==> sep !in parts[i]
    ensures Split(Join(parts, sep), sep) == parts
  {
    if |parts| == 1 {
      SplitWithoutSeparator(parts[0], sep);
    } else {
      SplitJoin(parts[1..], sep);
      assert sep !in parts[0];
      SplitAfterPiece(parts[0], Join(parts[1..], sep), sep);
      assert parts == [parts[0]] + parts[1..];
    }
  }

  /** A string without the separator splits into itself alone. */
  lemma {:induction false} SplitWithoutSeparator(s: string, sep: char)
    requires sep !in s
    ensures Split(s, sep) == [s]
  {
    if s != [] {
      SplitWithoutSeparator(s[1..], sep);
      assert [s[0]] + s[1..] == s;
    }
  }

  /** `Split` on a string that starts with a given character. */
  lemma SplitCons(c: char, s: string, sep: char)
    ensures Split([c] + s, sep)
      == if c == sep then [[]] + Split(s, sep) else [[c] + Split(s, sep)[0]] + Split(s, sep)[1..]
  {
    assert ([c] + s)[0] == c && ([c] + s)[1..] == s;
  }

  /** A piece followed by a separator contributes exactly that piece. */
  lemma {:induction false} SplitAfterPiece(piece: string, rest: string, sep: char)
    requires sep !in piece
    ensures Split(piece + [sep] + rest, sep) == [piece] + Split(rest, sep)
  {
    if |piece| == 0 {
      assert piece + [sep] + rest == [sep] + rest;
      SplitCons(sep, rest, sep);
    } else {
      var c, tail := piece[0], piece[1..];
      SplitAfterPiece(tail, rest, sep);
      ConsAppend(piece, [sep]);
      ConsAppend(piece + [sep], rest);
      SplitCons(c, tail + [sep] + rest, sep);
      var pieces := [tail] + Split(rest, sep);
      assert pieces[0] == tail && pieces[1..] == Split(rest, sep);
    }
  }

  /** Splitting distributes over a separator: the pieces of `a + sep + b`
      are the pieces of `a` followed by the pieces of `b`. */
  lemma {:induction false} SplitAppend(a: string, b: string, sep: char)
    ensures Split(a + [sep] + b, sep) == Split(a, sep) + Split(b, sep)
  {
    if |a| == 0 {
      assert a + [sep] + b == [sep] + b;
      SplitCons(sep, b, sep);
    } else {
      var c, tail := a[0], a[1..];
      SplitAppend(tail, b, sep);
      ConsAppend(a, [sep]);
      ConsAppend(a + [sep], b);
      SplitCons(c, tail + [sep] + b, sep);
      SplitCons(c, tail, sep);
      var ra, rb := Split(tail, sep), Split(b, sep);
      if c == sep {
        AppendAssoc([[]], ra, rb);
      } else {
        AppendHeadTail(ra, rb);
        AppendAssoc([[c] + ra[0]], ra[1..], rb);
      }
    }
  }

  /** `s.startsWith(prefix)`. */
  predicate StartsWith(s: string, prefix: string)
  {
    |prefix| <= |s| && s[..|prefix|] == prefix
  }

  /** The index `s.slice` derives from a relative position: a negative
      position counts from the end, and the result is clamped to `[0, |s|]`. */
  function SliceIndex(s: string, pos: int): (k: nat)
    ensures k <= |s|
    ensures 0 <= pos <= |s| ==> k == pos
    ensures -|s| <= pos < 0 ==> k == |s| + pos
    ensures pos > |s| ==> k == |s|
    ensures pos < -|s| ==> k == 0
  {
    if pos < 0 then (if |s| + pos < 0 then 0 else |s| + pos)
    else if pos > |s| then |s| else pos
  }

  /** `s.slice(start, end)`: the characters from the derived start index up to,
      but not including, the derived end index; empty when the end does not
      lie after the start. */
  function Slice(s: string, start: int, end: int): string
  {
    var from, to := SliceIndex(s, start), SliceIndex(s, end);
    if from < to then s[from..to] else []
  }

  /** `s.replace(/ab/g, rep)` for a two-character pattern `a b` and a
      one-character replacement: the string is scanned left to right, each
      occurrence of the pattern that does not overlap an earlier one becomes
      `rep`, and every other character is kept. */
  function ReplaceAll(s: string, a: char, b: char, rep: char): (r: string)
    ensures |r| <= |s|
  {
    if |s| < 2 then s
    else if s[0] == a && s[1] == b then [rep] + ReplaceAll(s[2..], a, b, rep)
    else [s[0]] + ReplaceAll(s[1..], a, b, rep)
  }

  /** One scanning step of `ReplaceAll` over a string that starts with a
      character other than the pattern's first one. */
  lemma ReplaceKeepsOther(c: char, s: string, a: char, b: char, rep: char)
    requires c != a
    ensures ReplaceAll([c] + s, a, b, rep) == [c] + ReplaceAll(s, a, b, rep)
  {
    assert ([c] + s)[1..] == s;
  }

  /** One scanning step of `ReplaceAll` at an occurrence of the pattern. */
  lemma ReplaceAtMatch(s: string, a: char, b: char, rep: char)
    ensures ReplaceAll([a, b] + s, a, b, rep) == [rep] + ReplaceAll(s, a, b, rep)
  {
    assert ([a, b] + s)[2..] == s;
  }

  /** One scanning step of `ReplaceAll` at the pattern's first character
      followed by something else: that character is kept and the scan resumes
      at the next one. */
  lemma ReplaceAtMismatch(c: char, s: string, a: char, b: char, rep: char)
    requires c != b
    ensures ReplaceAll([a, c] + s, a, b, rep) == [a] + ReplaceAll([c] + s, a, b, rep)
  {
    assert ([a, c] + s)[1..] == [c] + s;
  }

  /** The pattern's first character followed by anything but the pattern's
      second character (or by nothing) is kept as it is. */
  lemma ReplaceAfterLoneFirst(s: string, a: char, b: char, rep: char)
    requires s == [] || s[0] != b
    ensures ReplaceAll([a] + s, a, b, rep) == [a] + ReplaceAll(s, a, b, rep)
  {
    if s != [] {
      ReplaceAtMismatch(s[0], s[1..], a, b, rep);
      assert [a, s[0]] + s[1..] == [a] + s;
      assert [s[0]] + s[1..] == s;
    }
  }

  /** A string without any occurrence of the pattern is left unchanged. */
  lemma {:induction false} ReplaceAllWithoutMatch(s: string, a: char, b: char, rep: char)
    requires forall i :: 0 <= i < |s| - 1 ==> !(s[i] == a && s[i + 1] == b)
    ensures ReplaceAll(s, a, b, rep) == s
  {
    if |s| >= 2 {
      forall i | 0 <= i < |s[1..]| - 1 ensures !(s[1..][i] == a && s[1..][i + 1] == b) {
        assert s[1..][i] == s[i + 1] && s[1..][i + 1] == s[i + 2];
      }
      ReplaceAllWithoutMatch(s[1..], a, b, rep);
      assert s == [s[0]] + s[1..];
    }
  }

  /** The scan of `x + y` restarts cleanly at `y` when `x` does not end with
      the pattern's first character, so the two parts are replaced
      independently. */
  lemma {:induction false} ReplaceAllAppend(x: string, y: string, a: char, b: char, rep: char)
    requires x == [] || x[|x| - 1] != a
    ensures ReplaceAll(x + y, a, b, rep) == ReplaceAll(x, a, b, rep) + ReplaceAll(y, a, b, rep)
  {
    if |x| == 0 {
      assert x + y == y;
    } else if x[0] == a && x[1] == b {
      var rest := x[2..];
      ReplaceAllAppend(rest, y, a, b, rep);
      TwoConsAppend(x, y);
      ReplaceAtMatch(rest + y, a, b, rep);
      ReplaceAtMatch(rest, a, b, rep);
      AppendAssoc([rep], ReplaceAll(rest, a, b, rep), ReplaceAll(y, a, b, rep));
    } else {
      var c, tail := x[0], x[1..];
      ReplaceAllAppend(tail, y, a, b, rep);
      ConsAppend(x, y);
      if c == a {
        AppendHeadTail(tail, y);
        ReplaceAfterLoneFirst(tail + y, a, b, rep);
        ReplaceAfterLoneFirst(tail, a, b, rep);
      } else {
        ReplaceKeepsOther(c, tail + y, a, b, rep);
        ReplaceKeepsOther(c, tail, a, b, rep);
      }
      AppendAssoc([c], ReplaceAll(tail, a, b, rep), ReplaceAll(y, a, b, rep));
    }
  }

  /** The last character of a non-empty string survives the scan, unless a
      match consumed it and left the replacement in its place. */
  lemma {:induction false} ReplaceAllLast(s: string, a: char, b: char, rep: char)
    requires s != []
    ensures var r := ReplaceAll(s, a, b, rep);
      r != [] && (r[|r| - 1] == s[|s| - 1] || r[|r| - 1] == rep)
  {
    if |s| >= 2 {
      if s[0] == a && s[1] == b {
        if |s| > 2 {
          ReplaceAllLast(s[2..], a, b, rep);
        }
      } else {
        ReplaceAllLast(s[1..], a, b, rep);
      }
    }
  }
}
