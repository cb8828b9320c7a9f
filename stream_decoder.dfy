/**
 The stream-chunk decoder of the code-review chat front end
 (`processCodeReviewStreamData`). A fragment of a streamed chat response is a
 run of newline-separated records, each tagged by one character: `0:"…"`
 records carry an escaped piece of the reply text, `f:`, `e:` and `d:`
 records carry metadata. The decoder keeps the text of the `0:"` records,
 undoes three escapes in a fixed order, and concatenates what it kept.
 */
module StreamDecoder {
  import opened Sequences
  import opened JsString

  const Backslash: char := '\\'
  const Quote: char := '"'
  const Newline: char := '\n'

  /** The three characters that open a text-delta record. */
  const TextMarker: string := "0:\""

  /** The value the decoder is called with: a string, or a value without a
      string `split` method (`undefined`, `null`, a number, a byte array), on
      which the call inside the `try` throws and the `catch` turns that into
      an empty result. */
  datatype JsValue = JsText(text: string) | NonText

  // ---------------------------------------------------------------------
  // Decoding one line
  // ---------------------------------------------------------------------

  /** A line carries reply text when it begins with `0:"`. */
  predicate IsTextRecord(line: string)
  {
    StartsWith(line, TextMarker)
  }

  /** `line.slice(3, -1)`: the line without its first three characters and
      without its last one, whatever that last character is; a line of at
      most four characters has an empty payload. */
  function Payload(line: string): (p: string)
    ensures |line| >= 4 ==> p == line[3..|line| - 1]
    ensures |line| <= 4 ==> p == []
  {
    Slice(line, 3, -1)
  }

  /** The three global replacements, in the order the decoder applies them:
      backslash-`n` becomes a newline, then backslash-quote becomes a quote,
      then a doubled backslash becomes one backslash. Every replacement
      turns two characters into one, so the result is never longer. */
  function Unescape(p: string): (r: string)
    ensures |r| <= |p|
  {
    var withNewlines := ReplaceAll(p, Backslash, 'n', Newline);
    var withQuotes := ReplaceAll(withNewlines, Backslash, Quote, Quote);
    ReplaceAll(withQuotes, Backslash, Backslash, Backslash)
  }

  /** What one line adds to the decoded text: the unescaped payload of a
      `0:"` record, nothing for any other line. */
  function RecordText(line: string): string
  {
    if IsTextRecord(line) then Unescape(Payload(line)) else []
  }

  /** A payload without a backslash is returned unchanged. */
  lemma UnescapeLeavesPlainText(p: string)
    requires Backslash !in p
    ensures Unescape(p) == p
  {
    ReplaceAllWithoutMatch(p, Backslash, 'n', Newline);
    ReplaceAllWithoutMatch(p, Backslash, Quote, Quote);
    ReplaceAllWithoutMatch(p, Backslash, Backslash, Backslash);
  }

  /** Unescaping works piece by piece across a boundary that does not
      follow a backslash. */
  lemma UnescapeAppend(x: string, y: string)
    requires x == [] || x[|x| - 1] != Backslash
    ensures Unescape(x + y) == Unescape(x) + Unescape(y)
  {
    var x1, y1 := ReplaceAll(x, Backslash, 'n', Newline), ReplaceAll(y, Backslash, 'n', Newline);
    ReplaceAllAppend(x, y, Backslash, 'n', Newline);
    if x != [] {
      ReplaceAllLast(x, Backslash, 'n', Newline);
      ReplaceAllLast(x1, Backslash, Quote, Quote);
    }
    var x2, y2 := ReplaceAll(x1, Backslash, Quote, Quote), ReplaceAll(y1, Backslash, Quote, Quote);
    ReplaceAllAppend(x1, y1, Backslash, Quote, Quote);
    ReplaceAllAppend(x2, y2, Backslash, Backslash, Backslash);
  }

  /** A line made of the marker, a payload and a closing quote is a text
      record whose payload is exactly the text between marker and quote. */
  lemma QuotedRecord(p: string)
    ensures IsTextRecord(TextMarker + p + [Quote])
    ensures Payload(TextMarker + p + [Quote]) == p
  {
    SliceParts(TextMarker, p, [Quote]);
  }

  /** An escaped newline on its own becomes a newline. */
  lemma UnescapeNewlineEscape()
    ensures Unescape([Backslash, 'n']) == [Newline]
  {
    assert [Backslash, 'n'] == [Backslash, 'n'] + [];
    ReplaceAtMatch([], Backslash, 'n', Newline);
  }

  /** An escaped quote on its own becomes a quote. */
  lemma UnescapeQuoteEscape()
    ensures Unescape([Backslash, Quote]) == [Quote]
  {
    ReplaceAtMismatch(Quote, [], Backslash, 'n', Newline);
    ReplaceKeepsOther(Quote, [], Backslash, 'n', Newline);
    assert [Backslash, Quote] == [Backslash, Quote] + [];
    ReplaceAtMatch([], Backslash, Quote, Quote);
  }

  /** With no backslash on either side, an escaped newline between two runs
      of text becomes a newline. */
  lemma UnescapeNewlineBetween(x: string, y: string)
    requires Backslash !in x && Backslash !in y
    ensures Unescape(x + [Backslash, 'n'] + y) == x + [Newline] + y
  {
    var esc := [Backslash, 'n'];
    AppendAssoc(x, esc, y);
    UnescapeAppend(x, esc + y);
    UnescapeAppend(esc, y);
    UnescapeLeavesPlainText(x);
    UnescapeLeavesPlainText(y);
    UnescapeNewlineEscape();
    AppendAssoc(x, [Newline], y);
  }

  /** With no backslash on either side, an escaped quote between two runs of
      text becomes a quote. */
  lemma UnescapeQuoteBetween(x: string, y: string)
    requires Backslash !in x && Backslash !in y
    ensures Unescape(x + [Backslash, Quote] + y) == x + [Quote] + y
  {
    var esc := [Backslash, Quote];
    AppendAssoc(x, esc, y);
    UnescapeAppend(x, esc + y);
    UnescapeAppend(esc, y);
    UnescapeLeavesPlainText(x);
    UnescapeLeavesPlainText(y);
    UnescapeQuoteEscape();
    AppendAssoc(x, [Quote], y);
  }

  /** A line made of the marker, a payload without a newline and a closing
      quote is a one-line fragment that decodes to the unescaped payload. */
  lemma DecodeQuotedLine(p: string)
    requires Newline !in p
    ensures Newline !in TextMarker + p + [Quote]
    ensures Decode(TextMarker + p + [Quote]) == Unescape(p)
  {
    QuotedRecord(p);
    DecodeSingleLine(TextMarker + p + [Quote]);
  }

  // ---------------------------------------------------------------------
  // Decoding a fragment
  // ---------------------------------------------------------------------

  /** The strings `f` gives for the elements of `xs`, concatenated in order:
      what an accumulator `result += f(x)` holds after a loop over `xs`. */
  function ConcatMap<T>(f: T -> string, xs: seq<T>): string
  {
    if |xs| == 0 then [] else f(xs[0]) + ConcatMap(f, xs[1..])
  }

  /** The texts of the given lines, concatenated in line order. */
  function DecodeLines(lines: seq<string>): string
  {
    ConcatMap(RecordText, lines)
  }

  /** The decoded text of a fragment: its lines as `split('\n')` yields them,
      decoded and concatenated. Nothing is carried over between fragments. */
  function Decode(chunk: string): string
  {
    DecodeLines(Split(chunk, Newline))
  }

  /** `processCodeReviewStreamData(chunk)`: walks the lines of the fragment,
      appending the unescaped payload of every `0:"` record to `result`. A
      value without a string `split` method makes the body throw, and the
      catch-all answers with the empty string. */
  method ProcessCodeReviewStreamData(chunk: JsValue) returns (result: string)
    ensures chunk.NonText? ==> result == []
    ensures chunk.JsText? ==> result == Decode(chunk.text)
  {
    if chunk.NonText? {
      // `chunk.split` is not a function: the TypeError is caught.
      return "";
    }
    var lines := Split(chunk.text, Newline);
    result := "";
    for i := 0 to |lines|
      invariant result == DecodeLines(lines[..i])
    {
      var line := lines[i];
      if StartsWith(line, TextMarker) {
        var content := Slice(line, 3, -1);
        content := ReplaceAll(content, Backslash, 'n', Newline);
        content := ReplaceAll(content, Backslash, Quote, Quote);
        content := ReplaceAll(content, Backslash, Backslash, Backslash);
        result := result + content;
      }
      TakeNext(lines, i);
      ConcatMapAppend(RecordText, lines[..i], [line]);
      ConcatMapSingle(RecordText, line);
    }
    assert lines[..|lines|] == lines;
  }

  // ---------------------------------------------------------------------
  // Properties of the decoder
  // ---------------------------------------------------------------------

  /** The accumulation over a sequence that starts with `x`. */
  lemma ConcatMapCons<T>(f: T -> string, x: T, xs: seq<T>)
    ensures ConcatMap(f, [x] + xs) == f(x) + ConcatMap(f, xs)
  {
    assert ([x] + xs)[1..] == xs;
  }

  /** The accumulation over one element. */
  lemma ConcatMapSingle<T>(f: T -> string, x: T)
    ensures ConcatMap(f, [x]) == f(x)
  {
    assert [x][1..] == [];
  }

  /** Accumulating over two runs one after the other is accumulating over
      their concatenation. */
  lemma {:induction false} ConcatMapAppend<T>(f: T -> string, a: seq<T>, b: seq<T>)
    ensures ConcatMap(f, a + b) == ConcatMap(f, a) + ConcatMap(f, b)
  {
    if |a| == 0 {
      assert a + b == b;
    } else {
      ConcatMapAppend(f, a[1..], b);
      ConsAppend(a, b);
      ConcatMapCons(f, a[0], a[1..] + b);
      ConcatMapCons(f, a[0], a[1..]);
      AppendAssoc(f(a[0]), ConcatMap(f, a[1..]), ConcatMap(f, b));
    }
  }

  /** The accumulation is empty exactly when every element contributes the
      empty string. */
  lemma {:induction false} ConcatMapEmpty<T>(f: T -> string, xs: seq<T>)
    ensures ConcatMap(f, xs) == [] <==> forall i :: 0 <= i < |xs| ==> f(xs[i]) == []
  {
    if |xs| > 0 {
      ConcatMapEmpty(f, xs[1..]);
      assert forall i :: 1 <= i < |xs| ==> xs[1..][i - 1] == xs[i];
    }
  }

  /** Decoding distributes over record boundaries: the only thing that
      crosses a newline is the concatenation of the two sides. */
  lemma DecodeDistributes(a: string, b: string)
    ensures Decode(a + [Newline] + b) == Decode(a) + Decode(b)
  {
    SplitAppend(a, b, Newline);
    ConcatMapAppend(RecordText, Split(a, Newline), Split(b, Newline));
  }

  /** The decoded text of newline-joined lines is the concatenation of what
      each line contributes: the unescaped payloads of exactly the `0:"`
      records, in order. */
  lemma DecodeJoin(lines: seq<string>)
    requires |lines| >= 1
    requires forall i :: 0 <= i < |lines| ==> Newline !in lines[i]
    ensures Decode(Join(lines, Newline)) == DecodeLines(lines)
  {
    SplitJoin(lines, Newline);
  }

  /** A single line without a newline decodes to its own contribution: the
      unescaped payload if it is a `0:"` record, nothing otherwise. */
  lemma DecodeSingleLine(line: string)
    requires Newline !in line
    ensures IsTextRecord(line) ==> Decode(line) == Unescape(Payload(line))
    ensures !IsTextRecord(line) ==> Decode(line) == []
  {
    SplitWithoutSeparator(line, Newline);
    ConcatMapSingle(RecordText, line);
  }

  /** A line that is not a `0:"` record (an `f:`, `e:` or `d:` metadata
      record, or anything else) adds nothing wherever it stands. */
  lemma OtherLineContributesNothing(line: string, rest: string)
    requires Newline !in line
    requires !IsTextRecord(line)
    ensures Decode(line + [Newline] + rest) == Decode(rest)
    ensures Decode(rest + [Newline] + line) == Decode(rest)
  {
    DecodeSingleLine(line);
    DecodeDistributes(line, rest);
    DecodeDistributes(rest, line);
    assert [] + Decode(rest) == Decode(rest) + [] == Decode(rest);
  }

  /** The `0:"` records of a run of lines, in order: every record line of
      the input is kept, and nothing else. */
  function TextRecords(lines: seq<string>): (records: seq<string>)
    ensures |records| <= |lines|
    ensures forall i :: 0 <= i < |records| ==> IsTextRecord(records[i])
    ensures forall line :: line in records ==> line in lines
    ensures forall line :: line in lines && IsTextRecord(line) ==> line in records
  {
    if |lines| == 0 then []
    else if IsTextRecord(lines[0]) then [lines[0]] + TextRecords(lines[1..])
    else TextRecords(lines[1..])
  }

  /** Keeping the records commutes with concatenation, so the records keep
      the order of their lines: those of `a` come before those of `b`. */
  lemma {:induction false} TextRecordsAppend(a: seq<string>, b: seq<string>)
    ensures TextRecords(a + b) == TextRecords(a) + TextRecords(b)
  {
    if |a| == 0 {
      assert a + b == b;
    } else {
      TextRecordsAppend(a[1..], b);
      ConsAppend(a, b);
      assert (a + b)[0] == a[0] && (a + b)[1..] == a[1..] + b;
      if IsTextRecord(a[0]) {
        AppendAssoc([a[0]], TextRecords(a[1..]), TextRecords(b));
      }
    }
  }

  /** Dropping every line that is not a `0:"` record leaves the decoded text
      unchanged: only those records contribute. */
  lemma {:induction false} OnlyTextRecordsContribute(lines: seq<string>)
    ensures DecodeLines(lines) == DecodeLines(TextRecords(lines))
  {
    if |lines| > 0 {
      var line, rest := lines[0], lines[1..];
      OnlyTextRecordsContribute(rest);
      ConsAppend(lines, []);
      ConcatMapCons(RecordText, line, rest);
      if IsTextRecord(line) {
        ConcatMapCons(RecordText, line, TextRecords(rest));
      } else {
        assert RecordText(line) == [];
      }
    }
  }

  /** A fragment decodes to the empty string exactly when none of its lines
      contributes text; in particular every fragment without a `0:"` record
      decodes to nothing. */
  lemma DecodeEmpty(chunk: string)
    ensures Decode(chunk) == [] <==> forall line :: line in Split(chunk, Newline) ==> RecordText(line) == []
    ensures (forall line :: line in Split(chunk, Newline) ==> !IsTextRecord(line)) ==> Decode(chunk) == []
  {
    var lines := Split(chunk, Newline);
    ConcatMapEmpty(RecordText, lines);
  }

  /** The empty fragment decodes to the empty string. */
  lemma DecodeEmptyFragment()
    ensures Decode([]) == []
  {
    DecodeSingleLine([]);
  }

  /** One line's contribution is never longer than the line, and a record's
      is at least four characters shorter than its line, or empty. */
  lemma RecordTextNoLonger(line: string)
    ensures |RecordText(line)| <= |line|
    ensures IsTextRecord(line) ==> RecordText(line) == [] || |RecordText(line)| + 4 <= |line|
  {
  }

  /** Decoded lines are never longer than the lines joined back together. */
  lemma {:induction false} DecodeLinesNoLonger(lines: seq<string>)
    requires |lines| >= 1
    ensures |DecodeLines(lines)| <= |Join(lines, Newline)|
  {
    var line, rest := lines[0], lines[1..];
    RecordTextNoLonger(line);
    ConsAppend(lines, []);
    ConcatMapCons(RecordText, line, rest);
    if |rest| > 0 {
      DecodeLinesNoLonger(rest);
    } else {
      assert ConcatMap(RecordText, rest) == [];
    }
  }

  /** The decoded text of a fragment is never longer than the fragment. */
  lemma DecodeNoLonger(chunk: string)
    ensures |Decode(chunk)| <= |chunk|
  {
    DecodeLinesNoLonger(Split(chunk, Newline));
  }

  // ---------------------------------------------------------------------
  // The escaping the decoder undoes
  // ---------------------------------------------------------------------

  /** How the sender writes one character of reply text inside a `0:"…"`
      record, for the three escapes the decoder knows: backslash, quote and
      newline are written as backslash-backslash, backslash-quote and
      backslash-`n`. */
  function EscapeChar(c: char): string
  {
    if c == Backslash then [Backslash, Backslash]
    else if c == Quote then [Backslash, Quote]
    else if c == Newline then [Backslash, 'n']
    else [c]
  }

  /** Reply text escaped character by character. The result has no newline,
      so it fits on one record line. */
  function EscapeText(t: string): (e: string)
    ensures Newline !in e
    ensures |e| >= |t|
    ensures |t| > 0 ==> e[0] == EscapeChar(t[0])[0]
  {
    if |t| == 0 then [] else EscapeChar(t[0]) + EscapeText(t[1..])
  }

  /** The state after the decoder's first replacement: quotes and
      backslashes still escaped, newlines already restored. */
  function EscapeQuotesAndBackslashes(t: string): (e: string)
    ensures |e| >= |t|
    ensures |t| > 0 ==> e[0] == (if t[0] == Backslash || t[0] == Quote then Backslash else t[0])
  {
    if |t| == 0 then []
    else if t[0] == Backslash then [Backslash, Backslash] + EscapeQuotesAndBackslashes(t[1..])
    else if t[0] == Quote then [Backslash, Quote] + EscapeQuotesAndBackslashes(t[1..])
    else [t[0]] + EscapeQuotesAndBackslashes(t[1..])
  }

  /** The state after the decoder's second replacement: only backslashes
      still doubled. */
  function DoubleBackslashes(t: string): string
  {
    if |t| == 0 then []
    else if t[0] == Backslash then [Backslash, Backslash] + DoubleBackslashes(t[1..])
    else [t[0]] + DoubleBackslashes(t[1..])
  }

  /** No backslash in the text is immediately followed by the letter `n`. */
  predicate NoBackslashBeforeN(t: string)
  {
    forall i :: 0 <= i < |t| - 1 ==> !(t[i] == Backslash && t[i + 1] == 'n')
  }

  /** The condition passes to the tail and rules out `n` after a leading
      backslash. */
  lemma NoBackslashBeforeNTail(t: string)
    requires |t| > 0 && NoBackslashBeforeN(t)
    ensures NoBackslashBeforeN(t[1..])
    ensures |t| > 1 && t[0] == Backslash ==> t[1] != 'n'
  {
    var rest := t[1..];
    forall i | 0 <= i < |rest| - 1
      ensures !(rest[i] == Backslash && rest[i + 1] == 'n')
    {
      assert rest[i] == t[i + 1] && rest[i + 1] == t[i + 2];
    }
  }

  /** Two backslashes in front of the scan's input stay in front of its
      output when the pattern is a backslash followed by something else and
      the input does not start with that something. */
  lemma ReplaceKeepsBackslashPair(s: string, b: char, rep: char)
    requires b != Backslash
    requires s == [] || s[0] != b
    ensures ReplaceAll([Backslash, Backslash] + s, Backslash, b, rep)
      == [Backslash, Backslash] + ReplaceAll(s, Backslash, b, rep)
  {
    ReplaceAtMismatch(Backslash, s, Backslash, b, rep);
    ReplaceAfterLoneFirst(s, Backslash, b, rep);
    AppendAssoc([Backslash], [Backslash], ReplaceAll(s, Backslash, b, rep));
  }

  /** The first replacement restores exactly the escaped newlines, provided
      the text never has a backslash right before an `n` (that pair would be
      written backslash-backslash-`n`, whose last two characters the scan
      takes for an escaped newline). */
  lemma {:induction false} RestoreNewlines(t: string)
    requires NoBackslashBeforeN(t)
    ensures ReplaceAll(EscapeText(t), Backslash, 'n', Newline) == EscapeQuotesAndBackslashes(t)
  {
    if |t| > 0 {
      var c, rest := t[0], t[1..];
      NoBackslashBeforeNTail(t);
      RestoreNewlines(rest);
      var e := EscapeText(rest);
      if c == Newline {
        ReplaceAtMatch(e, Backslash, 'n', Newline);
      } else if c == Quote {
        ReplaceAtMismatch(Quote, e, Backslash, 'n', Newline);
        ReplaceKeepsOther(Quote, e, Backslash, 'n', Newline);
        AppendAssoc([Backslash], [Quote], ReplaceAll(e, Backslash, 'n', Newline));
      } else if c == Backslash {
        ReplaceKeepsBackslashPair(e, 'n', Newline);
      } else {
        ReplaceKeepsOther(c, e, Backslash, 'n', Newline);
      }
    }
  }

  /** The second replacement restores exactly the escaped quotes. */
  lemma {:induction false} RestoreQuotes(t: string)
    ensures ReplaceAll(EscapeQuotesAndBackslashes(t), Backslash, Quote, Quote) == DoubleBackslashes(t)
  {
    if |t| > 0 {
      var c, rest := t[0], t[1..];
      RestoreQuotes(rest);
      var e := EscapeQuotesAndBackslashes(rest);
      if c == Quote {
        ReplaceAtMatch(e, Backslash, Quote, Quote);
      } else if c == Backslash {
        ReplaceKeepsBackslashPair(e, Quote, Quote);
      } else {
        ReplaceKeepsOther(c, e, Backslash, Quote, Quote);
      }
    }
  }

  /** The third replacement halves every doubled backslash. */
  lemma {:induction false} RestoreBackslashes(t: string)
    ensures ReplaceAll(DoubleBackslashes(t), Backslash, Backslash, Backslash) == t
  {
    if |t| > 0 {
      var c, rest := t[0], t[1..];
      RestoreBackslashes(rest);
      if c == Backslash {
        ReplaceAtMatch(DoubleBackslashes(rest), Backslash, Backslash, Backslash);
      } else {
        ReplaceKeepsOther(c, DoubleBackslashes(rest), Backslash, Backslash, Backslash);
      }
      ConsAppend(t, []);
    }
  }

  /** Unescaping undoes the escaping of any text in which no backslash is
      followed by the letter `n`. */
  lemma UnescapeEscapeText(t: string)
    requires NoBackslashBeforeN(t)
    ensures Unescape(EscapeText(t)) == t
  {
    RestoreNewlines(t);
    RestoreQuotes(t);
    RestoreBackslashes(t);
  }

  /** The restriction above is needed: because backslash-`n` is replaced
      first, the text "backslash, n" comes back as "backslash, newline". */
  lemma UnescapeEscapeTextFailsOnBackslashN()
    ensures EscapeText([Backslash, 'n']) == [Backslash, Backslash, 'n']
    ensures Unescape(EscapeText([Backslash, 'n'])) == [Backslash, Newline]
  {
    var b, e := Backslash, [Backslash, Backslash, 'n'];
    assert EscapeText([]) == [];
    assert [b, 'n'][1..] == ['n'] && ['n'][1..] == [];
    assert EscapeText(['n']) == ['n'];
    assert EscapeText([b, 'n']) == e;
    assert e == [b, b] + ['n'] && [b] + ['n'] == [b, 'n'] + [];
    ReplaceAtMismatch(b, ['n'], b, 'n', Newline);
    ReplaceAtMatch([], b, 'n', Newline);
    var r1 := [b, Newline];
    assert ReplaceAll(e, b, 'n', Newline) == r1;
    assert r1 == [b] + [Newline];
    ReplaceAfterLoneFirst([Newline], b, Quote, Quote);
    ReplaceAfterLoneFirst([Newline], b, b, b);
  }

  // ---------------------------------------------------------------------
  // Whole streams
  // ---------------------------------------------------------------------

  /** The `0:"…"` record that carries the reply text `t`. */
  function TextRecord(t: string): string
  {
    TextMarker + EscapeText(t) + [Quote]
  }

  /** One record line per text, in order. */
  function RecordLines(texts: seq<string>): (lines: seq<string>)
    ensures |lines| == |texts|
    ensures forall i :: 0 <= i < |texts| ==> lines[i] == TextRecord(texts[i])
  {
    if |texts| == 0 then [] else [TextRecord(texts[0])] + RecordLines(texts[1..])
  }

  /** The fragment that carries the given texts, one record per line. */
  function EncodeTexts(texts: seq<string>): string
  {
    Join(RecordLines(texts), Newline)
  }

  /** The concatenation of a sequence of texts. */
  function Concat(texts: seq<string>): string
  {
    if |texts| == 0 then [] else texts[0] + Concat(texts[1..])
  }

  /** Every text of the sequence satisfies `NoBackslashBeforeN`. */
  predicate AllNoBackslashBeforeN(texts: seq<string>)
  {
    forall i :: 0 <= i < |texts| ==> NoBackslashBeforeN(texts[i])
  }

  /** A record built from a text is a `0:"` record on one line whose
      contribution is that text. */
  lemma TextRecordDecodes(t: string)
    requires NoBackslashBeforeN(t)
    ensures IsTextRecord(TextRecord(t))
    ensures Newline !in TextRecord(t)
    ensures RecordText(TextRecord(t)) == t
  {
    QuotedRecord(EscapeText(t));
    UnescapeEscapeText(t);
  }

  /** Lines that are records built from texts decode to those texts,
      concatenated. */
  lemma {:induction false} DecodeRecordLines(texts: seq<string>)
    requires AllNoBackslashBeforeN(texts)
    ensures DecodeLines(RecordLines(texts)) == Concat(texts)
  {
    if |texts| > 0 {
      var rest := texts[1..];
      assert AllNoBackslashBeforeN(rest) by {
        forall i | 0 <= i < |rest| ensures NoBackslashBeforeN(rest[i]) {
          assert rest[i] == texts[i + 1];
        }
      }
      TextRecordDecodes(texts[0]);
      DecodeRecordLines(rest);
      ConcatMapCons(RecordText, TextRecord(texts[0]), RecordLines(rest));
    }
  }

  /** Round trip over a whole fragment: decoding the records written for a
      sequence of texts yields the texts, concatenated in order. */
  lemma DecodeEncodeTexts(texts: seq<string>)
    requires AllNoBackslashBeforeN(texts)
    ensures Decode(EncodeTexts(texts)) == Concat(texts)
  {
    var lines := RecordLines(texts);
    if |texts| == 0 {
      DecodeEmptyFragment();
    } else {
      forall i | 0 <= i < |lines| ensures Newline !in lines[i] {
        TextRecordDecodes(texts[i]);
      }
      DecodeJoin(lines);
      DecodeRecordLines(texts);
    }
  }
}
