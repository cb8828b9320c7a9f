/**
 Concrete fragments and what the decoder's specification yields for them: the example
 response in the decoder's doc comment, the escape cases, and the edge cases
 of the `0:"` test and of the slice.
 */
module DecoderScenarios {
  import opened Sequences
  import opened JsString
  import opened StreamDecoder

  /** Replacing backslash-`n` first means that an escaped backslash
      followed by `n` comes back as a backslash and a newline. */
  lemma EscapedBackslashBeforeN()
    ensures Unescape([Backslash, Backslash, 'n']) == [Backslash, Newline]
  {
    var b := Backslash;
    assert [b, b, 'n'] == [b, b] + ['n'] && [b] + ['n'] == [b, 'n'] + [];
    ReplaceAtMismatch(b, ['n'], b, 'n', Newline);
    ReplaceAtMatch([], b, 'n', Newline);
    assert ReplaceAll([b, b, 'n'], b, 'n', Newline) == [b, Newline] == [b] + [Newline];
    ReplaceAfterLoneFirst([Newline], b, Quote, Quote);
    ReplaceAfterLoneFirst([Newline], b, b, b);
  }

  /** Replacing backslash-quote before doubled backslashes means that an
      escaped backslash followed by a quote comes back as backslash-quote. */
  lemma EscapedBackslashBeforeQuote()
    ensures Unescape([Backslash, Backslash, Quote]) == [Backslash, Quote]
  {
    var b := Backslash;
    assert [b, b, Quote] == [b, b] + [Quote] && [b] + [Quote] == [b, Quote] + [];
    ReplaceAtMismatch(b, [Quote], b, 'n', Newline);
    ReplaceAtMismatch(Quote, [], b, 'n', Newline);
    ReplaceKeepsOther(Quote, [], b, 'n', Newline);
    ReplaceAtMismatch(b, [Quote], b, Quote, Quote);
    ReplaceAtMatch([], b, Quote, Quote);
    ReplaceAfterLoneFirst([Quote], b, b, b);
  }

  /** An escaped newline inside one record. */
  lemma EscapedNewline()
    ensures Decode(TextMarker + "a\\nb" + [Quote]) == "a\nb"
  {
    assert "a\\nb" == "a" + [Backslash, 'n'] + "b";
    UnescapeNewlineBetween("a", "b");
    DecodeQuotedLine("a\\nb");
  }

  /** An escaped quote inside one record. */
  lemma EscapedQuote()
    ensures Decode(TextMarker + "a\\\"b" + [Quote]) == "a\"b"
  {
    assert "a\\\"b" == "a" + [Backslash, Quote] + "b";
    UnescapeQuoteBetween("a", "b");
    DecodeQuotedLine("a\\\"b");
  }

  /** A line that is exactly `0:"` has an empty payload. */
  lemma MarkerOnly()
    ensures Decode("0:\"") == []
  {
    DecodeSingleLine(TextMarker);
  }

  /** The payload is cut at the line's last character whether or not that
      character is a quote. */
  lemma UnterminatedRecord()
    ensures Decode("0:\"abc") == "ab"
  {
    var line := "0:\"abc";
    assert line == TextMarker + "ab" + ['c'];
    SliceParts(TextMarker, "ab", ['c']);
    UnescapeLeavesPlainText("ab");
    DecodeSingleLine(line);
  }

  /** A line that stops short of the marker is no record. */
  lemma ShortLine()
    ensures Decode("0:") == []
  {
    DecodeSingleLine("0:");
  }

  /** A stray line that is no record at all is skipped. */
  lemma GarbageSkipped()
    ensures Decode("garbage" + [Newline] + TextMarker + "ok" + [Quote]) == "ok"
  {
    var record := TextMarker + "ok" + [Quote];
    assert "garbage" + [Newline] + TextMarker + "ok" + [Quote] == "garbage" + [Newline] + record;
    DecodeQuotedLine("ok");
    UnescapeLeavesPlainText("ok");
    OtherLineContributesNothing("garbage", record);
  }

  // ---------------------------------------------------------------------
  // The example response in the decoder's doc comment
  // ---------------------------------------------------------------------

  // Long literals are written as concatenations of short pieces, cut at
  // the escapes; the longest lines are split into a head and a tail.
  const MessageIdLine: string := "f:{\"messageId\":" + "\"msg-Lk3DBfFEpZvMFmI0j9pQU1Do\"}"
  const Payload1: string := "你好"
  const Payload2: string := "！很高兴为你服务。请提供你想让我评审的" + " GitHub Pull Request 的"
  const Payload3: string := "链接，或者告诉我你想讨论的关于代码评审的任何问题。" + "\\n\\n" + "我"
  const Payload4: string := "将按照我设定的流程，仔细检查你的 Pull Request，" + "并提供详细的反馈，包括："
    + "\\n\\n" + "*   **Pull Request 概览**" + "\\n" + "*"
  const Payload5Head: string := "   **关键问题 (Critical Issues)**" + "\\n" + "*   **需要改进的地方 "
  const Payload5Tail: string := "(Important Changes Needed)**" + "\\n" + "*   **建议 (Suggestions)**"
    + "\\n" + "*   **值得"
  const Payload5: string := Payload5Head + Payload5Tail
  const Payload6Head: string := "称赞的地方 (Positive Aspects)**" + "\\n" + "*   **检查清单 (Checklist)**"
  const Payload6Tail: string := "\\n\\n" + "期待看到你的 Pull Request！"
  const Payload6: string := Payload6Head + Payload6Tail
  const FinishHead: string := "e:{\"finishReason\":\"stop\"," + "\"usage\":{\"promptTokens\":666,"
  const FinishTail: string := "\"completionTokens\":124}," + "\"isContinued\":false}"
  const FinishLine: string := FinishHead + FinishTail
  const DoneHead: string := "d:{\"finishReason\":\"stop\"," + "\"usage\":{\"promptTokens\":666,"
  const DoneTail: string := "\"completionTokens\":124}}"
  const DoneLine: string := DoneHead + DoneTail

  /** The lines of the example: a message-id record, six text records and
      two finish records. */
  function ExampleLines(): seq<string>
  {
    [MessageIdLine,
     TextMarker + Payload1 + [Quote],
     TextMarker + Payload2 + [Quote],
     TextMarker + Payload3 + [Quote],
     TextMarker + Payload4 + [Quote],
     TextMarker + Payload5 + [Quote],
     TextMarker + Payload6 + [Quote],
     FinishLine,
     DoneLine]
  }

  /** The metadata lines of the example are one line each and carry no text. */
  lemma MessageIdLineIsMetadata()
    ensures Newline !in MessageIdLine && !IsTextRecord(MessageIdLine)
  {
    NotARecord(MessageIdLine);
  }

  lemma FinishLineIsMetadata()
    ensures Newline !in FinishLine && !IsTextRecord(FinishLine)
  {
    FinishHeadIsOneLine();
    FinishTailIsOneLine();
    NotARecord(FinishLine);
  }

  lemma FinishHeadIsOneLine()
    ensures Newline !in FinishHead
  {
  }

  lemma FinishTailIsOneLine()
    ensures Newline !in FinishTail
  {
  }

  lemma DoneLineIsMetadata()
    ensures Newline !in DoneLine && !IsTextRecord(DoneLine)
  {
    DoneHeadIsOneLine();
    DoneTailIsOneLine();
    NotARecord(DoneLine);
  }

  lemma DoneHeadIsOneLine()
    ensures Newline !in DoneHead
  {
  }

  lemma DoneTailIsOneLine()
    ensures Newline !in DoneTail
  {
  }

  /** A line that starts with anything but `0` is no text record. */
  lemma NotARecord(line: string)
    requires |line| > 0 && line[0] != '0'
    ensures !IsTextRecord(line)
  {
    if |line| >= 3 {
      assert line[..3][0] == line[0];
    }
  }

  /** Decoding the lines from position `k` on: the line at `k` contributes
      first, then the rest. */
  lemma DecodeLinesFrom(lines: seq<string>, k: nat)
    requires k < |lines|
    ensures DecodeLines(lines[k..]) == RecordText(lines[k]) + DecodeLines(lines[k + 1..])
  {
    assert lines[k..] == [lines[k]] + lines[k + 1..];
    ConcatMapCons(RecordText, lines[k], lines[k + 1..]);
  }

  /** What each line of the example contributes. */
  lemma ExampleLineTexts()
    ensures RecordText(ExampleLines()[0]) == []
    ensures RecordText(ExampleLines()[1]) == Unescape(Payload1)
    ensures RecordText(ExampleLines()[2]) == Unescape(Payload2)
    ensures RecordText(ExampleLines()[3]) == Unescape(Payload3)
    ensures RecordText(ExampleLines()[4]) == Unescape(Payload4)
    ensures RecordText(ExampleLines()[5]) == Unescape(Payload5)
    ensures RecordText(ExampleLines()[6]) == Unescape(Payload6)
    ensures RecordText(ExampleLines()[7]) == []
    ensures RecordText(ExampleLines()[8]) == []
  {
    ExampleMetadataTexts();
    ExampleRecordTexts();
  }

  /** The message-id and finish lines of the example contribute nothing. */
  lemma ExampleMetadataTexts()
    ensures RecordText(ExampleLines()[0]) == []
    ensures RecordText(ExampleLines()[7]) == []
    ensures RecordText(ExampleLines()[8]) == []
  {
    MessageIdLineIsMetadata();
    FinishLineIsMetadata();
    DoneLineIsMetadata();
  }

  /** Each text record of the example contributes its unescaped payload. */
  lemma ExampleRecordTexts()
    ensures RecordText(ExampleLines()[1]) == Unescape(Payload1)
    ensures RecordText(ExampleLines()[2]) == Unescape(Payload2)
    ensures RecordText(ExampleLines()[3]) == Unescape(Payload3)
    ensures RecordText(ExampleLines()[4]) == Unescape(Payload4)
    ensures RecordText(ExampleLines()[5]) == Unescape(Payload5)
    ensures RecordText(ExampleLines()[6]) == Unescape(Payload6)
  {
    QuotedRecord(Payload1);
    QuotedRecord(Payload2);
    QuotedRecord(Payload3);
    QuotedRecord(Payload4);
    QuotedRecord(Payload5);
    QuotedRecord(Payload6);
  }

  /** No payload of the example holds a newline: its line breaks are all
      escaped. */
  lemma Payload1IsOneLine()
    ensures Newline !in Payload1
  {
  }

  lemma Payload2IsOneLine()
    ensures Newline !in Payload2
  {
  }

  lemma Payload3IsOneLine()
    ensures Newline !in Payload3
  {
  }

  lemma Payload4IsOneLine()
    ensures Newline !in Payload4
  {
  }

  lemma Payload5IsOneLine()
    ensures Newline !in Payload5
  {
    Payload5HeadIsOneLine();
    Payload5TailIsOneLine();
  }

  lemma Payload5HeadIsOneLine()
    ensures Newline !in Payload5Head
  {
  }

  lemma Payload5TailIsOneLine()
    ensures Newline !in Payload5Tail
  {
  }

  lemma Payload6IsOneLine()
    ensures Newline !in Payload6
  {
    Payload6HeadIsOneLine();
    Payload6TailIsOneLine();
  }

  lemma Payload6HeadIsOneLine()
    ensures Newline !in Payload6Head
  {
  }

  lemma Payload6TailIsOneLine()
    ensures Newline !in Payload6Tail
  {
  }

  /** No line of the example holds a newline. */
  lemma ExampleLinesAreLines()
    ensures forall i :: 0 <= i < |ExampleLines()| ==> Newline !in ExampleLines()[i]
  {
    var lines := ExampleLines();
    MessageIdLineIsMetadata();
    FinishLineIsMetadata();
    DoneLineIsMetadata();
    Payload1IsOneLine();
    Payload2IsOneLine();
    Payload3IsOneLine();
    Payload4IsOneLine();
    Payload5IsOneLine();
    Payload6IsOneLine();
    forall i | 0 <= i < |lines| ensures Newline !in lines[i] {
      if 1 <= i <= 6 {
        var p := [Payload1, Payload2, Payload3, Payload4, Payload5, Payload6][i - 1];
        assert lines[i] == TextMarker + p + [Quote];
        DecodeQuotedLine(p);
      }
    }
  }

  /** The lines of the example contribute their six payloads, unescaped. */
  lemma ExampleLinesDecode()
    ensures DecodeLines(ExampleLines())
      == Unescape(Payload1) + (Unescape(Payload2) + (Unescape(Payload3)
       + (Unescape(Payload4) + (Unescape(Payload5) + Unescape(Payload6)))))
  {
    var lines := ExampleLines();
    ExampleLineTexts();
    assert lines[0..] == lines;
    DecodeLinesFrom(lines, 0);
    DecodeLinesFrom(lines, 1);
    DecodeLinesFrom(lines, 2);
    DecodeLinesFrom(lines, 3);
    DecodeLinesFrom(lines, 4);
    DecodeLinesFrom(lines, 5);
    DecodeLinesFrom(lines, 6);
    DecodeLinesFrom(lines, 7);
    DecodeLinesFrom(lines, 8);
    assert DecodeLines(lines[9..]) == [];
    assert Unescape(Payload6) + ([] + ([] + [])) == Unescape(Payload6);
  }

  /** The example decodes to its six payloads, unescaped and concatenated;
      the message-id and finish records contribute nothing. */
  lemma DocCommentExample()
    ensures Decode(Join(ExampleLines(), Newline))
      == Unescape(Payload1) + (Unescape(Payload2) + (Unescape(Payload3)
       + (Unescape(Payload4) + (Unescape(Payload5) + Unescape(Payload6)))))
  {
    ExampleLinesAreLines();
    DecodeJoin(ExampleLines());
    ExampleLinesDecode();
  }

  /** The first payload of the example holds no escape and comes through
      unchanged. */
  lemma ExampleOpeningUnchanged()
    ensures Unescape(Payload1) == Payload1
  {
    UnescapeLeavesPlainText(Payload1);
  }

  /** The second payload of the example holds no escape either. */
  lemma ExampleSecondUnchanged()
    ensures Unescape(Payload2) == Payload2
  {
    UnescapeLeavesPlainText(Payload2);
  }

  /** The third payload's two escaped newlines become two real ones. */
  lemma ExampleThirdUnescaped()
    ensures Unescape(Payload3)
      == "链接，或者告诉我你想讨论的关于代码评审的任何问题。" + [Newline, Newline] + "我"
  {
    var head, tail := "链接，或者告诉我你想讨论的关于代码评审的任何问题。", "我";
    var esc := [Backslash, 'n'];
    assert Payload3 == (head + esc) + (esc + tail);
    UnescapeAppend(head + esc, esc + tail);
    UnescapeNewlineBetween(head, []);
    UnescapeNewlineBetween([], tail);
    assert head + esc + [] == head + esc && [] + esc + tail == esc + tail;
    assert head + [Newline] + [] + ([] + [Newline] + tail) == head + [Newline, Newline] + tail;
  }
}
