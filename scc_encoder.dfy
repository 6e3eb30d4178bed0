/** The SCC encoder (internalFormatToFileContent, textToSccLine): each cue
    becomes a caption record that loads its lines bottom-aligned and shows
    them, followed by a record that clears the screen unless the next cue
    starts within one frame. */
module SccEncoder {
  import opened Wrappers
  import opened Text
  import opened Cues
  import opened SccTables
  import opened SccTime
  import opened SccWrap
  import opened SccText
  import opened SccDecoder
  import opened Numerals

  /** The first line of every file. */
  const Header: string := "Scenarist_SCC V1.0\r\n\r\n"

  /** The row codes of the four bottom rows, the top one first. */
  const Positions: seq<string> := ["13d0", "1370", "94d0", "9470"]

  /** $positions[$i]: an index outside the table reads as null, which
      concatenates as the empty string. */
  function Position(i: int): string {
    if 0 <= i < |Positions| then Positions[i] else ""
  }

  /** The codes lineToText writes for one line. */
  function EncodedLine(line: string): string {
    Grouped(HexString(Fill(Codes(line))))
  }

  /** One line of a caption: its row code twice, then its text codes. */
  function Placed(position: string, line: string): string {
    " " + position + " " + position + " " + EncodedLine(line)
  }

  /** The lines of a caption aligned to the bottom: the last line on the last
      of the four rows, each line before it one row higher. */
  function PlacedLines(lines: seq<string>): string
    decreases |lines|
  {
    if lines == [] then ""
    else Placed(Position(4 - |lines|), lines[0]) + PlacedLines(lines[1..])
  }

  /** A control code as it is always sent: twice. */
  function Twice(code: string): string {
    code + " " + code
  }

  /** Erase the hidden memory. */
  const EraseMemory: string := "94ae"
  /** Start loading a pop-on caption. */
  const LoadCaption: string := "9420"
  /** Show the loaded caption. */
  const ShowCaption: string := "942f"
  /** Clear the screen. */
  const EraseScreen: string := "942c"

  /** The codes that open every caption: "94ae 94ae 9420 9420". */
  const Opening: string := Twice(EraseMemory) + " " + Twice(LoadCaption)

  /** The codes that close every caption: " 942f 942f". */
  const Closing: string := " " + Twice(ShowCaption)

  /** The payload of the caption record of some (already wrapped) lines: the
      lines are aligned to the bottom, so the last one is on row 9470. */
  function Payload(lines: seq<string>): string {
    Opening + PlacedLines(lines) + Closing
  }

  /** The payload of a record that clears the screen: "942c 942c". */
  const StopPayload: string := Twice(EraseScreen)

  /** A record as written: timecode, tab, payload, a blank line. */
  function RecordText(timecode: string, payload: string): string {
    timecode + "\t" + payload + "\r\n\r\n"
  }

  /** The clearing record is left out when the next cue starts within one
      frame of this one's end: the next caption replaces this one. */
  predicate NeedsStop(end: real, nextStart: Option<real>) {
    nextStart.None? || (nextStart.value - end) * Fps > 1.0
  }

  /** textToSccLine of a cue: its caption record, then its clearing record
      when one is needed. */
  function CueText(cue: Cue, nextStart: Option<real>): string {
    RecordText(InternalTimeToScc(cue.start), Payload(WrapLines(cue.lines)))
      + (if NeedsStop(cue.end, nextStart) then RecordText(InternalTimeToScc(cue.end), StopPayload) else "")
  }

  /** The start of the cue after cue k, if there is one. */
  function NextStart(cues: seq<Cue>, k: nat): Option<real> {
    if k + 1 < |cues| then Some(cues[k + 1].start) else None
  }

  /** The records of the first n cues. */
  function CuesText(cues: seq<Cue>, n: nat): string
    requires n <= |cues|
    decreases n
  {
    if n == 0 then "" else CuesText(cues, n - 1) + CueText(cues[n - 1], NextStart(cues, n - 1))
  }

  /** The file written for a list of cues. */
  function FileContent(cues: seq<Cue>): string {
    Header + CuesText(cues, |cues|)
  }

  /** textToSccLine, as the source runs it: the wrapped lines are appended
      one at a time, each on its row. */
  method TextToSccLine(start: real, end: real, lines: seq<string>, nextStart: Option<real>)
    returns (output: string)
    ensures output == CueText(Cue(start, end, lines), nextStart)
  {
    var wrapped := SplitLongLines(lines);
    var timecode := InternalTimeToScc(start);
    var opening := timecode + "\t" + Opening;
    output := opening;
    var count := |wrapped|;
    var k := 0;
    assert wrapped[k..] == wrapped;
    while k < count
      invariant 0 <= k <= count
      invariant output + PlacedLines(wrapped[k..]) == opening + PlacedLines(wrapped)
    {
      var position := Position(4 - count + k);
      var codes := LineToText(wrapped[k]);
      var piece := " " + position + " " + position + " " + codes;
      PlacedLinesNext(wrapped, k, piece);
      Associate(output, piece, PlacedLines(wrapped[k + 1..]));
      output := output + piece;
      k := k + 1;
    }
    assert output == opening + PlacedLines(wrapped);
    output := output + Closing + "\r\n\r\n";
    RecordTextOf(timecode, PlacedLines(wrapped));
    CueTextOf(Cue(start, end, lines), nextStart, output);
    if nextStart.Some? {
      if (nextStart.value - end) * Fps > 1.0 {
        output := output + RecordText(InternalTimeToScc(end), StopPayload);
      }
    } else {
      output := output + RecordText(InternalTimeToScc(end), StopPayload);
    }
  }

  /** The lines from k on start with line k, placed on its row. */
  lemma PlacedLinesNext(lines: seq<string>, k: nat, piece: string)
    requires k < |lines|
    requires piece == " " + Position(4 - |lines| + k) + " " + Position(4 - |lines| + k) + " " + EncodedLine(lines[k])
    ensures PlacedLines(lines[k..]) == piece + PlacedLines(lines[k + 1..])
  {
    assert lines[k..][1..] == lines[k + 1..];
  }

  lemma Associate(a: string, b: string, c: string)
    ensures a + b + c == a + (b + c)
  {
  }

  /** The caption record, as the loop of textToSccLine assembles it. */
  lemma RecordTextOf(timecode: string, placed: string)
    ensures timecode + "\t" + Opening + placed + Closing + "\r\n\r\n"
      == RecordText(timecode, Opening + placed + Closing)
  {
    var x := timecode + "\t";
    assert x + Opening + placed + Closing == x + (Opening + placed + Closing);
  }

  /** The text of a cue is its caption record and, when needed, the clearing
      record. */
  lemma CueTextOf(cue: Cue, nextStart: Option<real>, caption: string)
    requires caption == RecordText(InternalTimeToScc(cue.start), Payload(WrapLines(cue.lines)))
    ensures CueText(cue, nextStart) ==
      caption + (if NeedsStop(cue.end, nextStart) then RecordText(InternalTimeToScc(cue.end), StopPayload) else "")
  {
  }

  /** internalFormatToFileContent: the header, then the records of each cue,
      each told the start of the cue after it. */
  method InternalFormatToFileContent(cues: seq<Cue>) returns (content: string)
    ensures content == FileContent(cues)
  {
    content := Header;
    var k := 0;
    while k < |cues|
      invariant 0 <= k <= |cues|
      invariant content == Header + CuesText(cues, k)
    {
      var nextStart := if k + 1 < |cues| then Some(cues[k + 1].start) else None;
      var text := TextToSccLine(cues[k].start, cues[k].end, cues[k].lines, nextStart);
      assert text == CueText(cues[k], NextStart(cues, k));
      Associate(Header, CuesText(cues, k), text);
      content := content + text;
      k := k + 1;
    }
  }

  // ------------------------------------------------------------ round trip

  /** The text sccToLines reads out of a string of space-separated blocks,
      before it is cut into lines. */
  function BlockText(s: string): string {
    DecodeBlocks(Split(s, ' '))
  }

  /** Two runs of blocks joined by a space read as the two texts in turn. */
  lemma BlockTextAround(a: string, b: string)
    ensures BlockText(a + " " + b) == BlockText(a) + BlockText(b)
  {
    assert a + " " + b == a + [' '] + b;
    SplitAround(a, b, ' ');
    ConcatMapAppend(DecodeBlock, Split(a, ' '), Split(b, ' '));
  }

  lemma BlockTextOne(block: string)
    requires ' ' !in block
    ensures BlockText(block) == DecodeBlock(block)
  {
    SplitWithout(block, ' ');
    SingleBlock(block);
  }

  /** A code with no effect on the text reads as nothing. */
  lemma SilentCode(code: string, w: nat)
    requires ParseHex4(code) == Some(w) && Command(w) == Some("")
    ensures BlockText(code) == ""
  {
    assert ' ' !in code;
    BlockTextOne(code);
    DecodeCommand(code, w, "");
    assert !IsBreak("");
  }

  /** A code sent twice still reads as nothing. */
  lemma QuietTwice(code: string)
    requires BlockText(code) == ""
    ensures BlockText(Twice(code)) == ""
  {
    BlockTextAround(code, code);
  }

  /** The codes that open a caption show nothing. */
  lemma OpeningText()
    ensures BlockText(Opening) == ""
  {
    SilentCode(EraseMemory, 0x94ae);
    SilentCode(LoadCaption, 0x9420);
    QuietTwice(EraseMemory);
    QuietTwice(LoadCaption);
    BlockTextAround(Twice(EraseMemory), Twice(LoadCaption));
  }

  /** The codes that show a caption show nothing. */
  lemma ClosingText()
    ensures BlockText(Twice(ShowCaption)) == ""
  {
    SilentCode(ShowCaption, 0x942f);
    QuietTwice(ShowCaption);
  }

  /** The codes of a clearing record show nothing. */
  lemma StopText()
    ensures BlockText(StopPayload) == ""
  {
    SilentCode(EraseScreen, 0x942c);
    QuietTwice(EraseScreen);
  }

  /** What the row code of row i reads back as: a line break on each of the
      four rows, nothing where the row code is missing. */
  function RowBreak(i: int): string {
    if 0 <= i < 4 then "\n" else ""
  }

  lemma PositionText(i: int)
    ensures BlockText(Position(i)) == RowBreak(i)
  {
    if i == 0 {
      RowCode("13d0", 0x13d0);
    } else if i == 1 {
      RowCode("1370", 0x1370);
    } else if i == 2 {
      RowCode("94d0", 0x94d0);
    } else if i == 3 {
      RowCode("9470", 0x9470);
    } else {
      BlockTextOne("");
      assert ParseHex4("") == None && ParseHex2("") == None;
    }
  }

  /** A row code breaks the line. */
  lemma RowCode(code: string, w: nat)
    requires ParseHex4(code) == Some(w) && Command(w) == Some("<$>{break}<$>")
    ensures BlockText(code) == "\n"
  {
    assert ' ' !in code;
    BlockTextOne(code);
    DecodeCommand(code, w, "<$>{break}<$>");
    assert OccursAt("<$>{break}<$>", "break", 4);
  }

  /** The text the decoder reads out of placed lines, given each line as
      printed: each line after the two breaks its row code makes. */
  function ShownText(shown: seq<string>): string
    decreases |shown|
  {
    if shown == [] then ""
    else RowBreak(4 - |shown|) + RowBreak(4 - |shown|) + shown[0] + ShownText(shown[1..])
  }

  lemma {:induction false} PlacedLinesText(x: string, lines: seq<string>)
    ensures BlockText(x + PlacedLines(lines)) == BlockText(x) + ShownText(PrintedLines(lines))
    decreases |lines|
  {
    if lines == [] {
      assert x + PlacedLines(lines) == x;
    } else {
      var i, line, rest := 4 - |lines|, lines[0], lines[1..];
      var code := Position(i);
      var x3 := x + " " + code + " " + code + " " + EncodedLine(line);
      calc {
        BlockText(x + PlacedLines(lines));
      == { Regroup(x, code, EncodedLine(line), PlacedLines(rest)); }
        BlockText(x3 + PlacedLines(rest));
      == { PlacedLinesText(x3, rest); }
        BlockText(x3) + ShownText(PrintedLines(rest));
      == { LineText(x, line, i); }
        BlockText(x) + (RowBreak(i) + RowBreak(i) + Printed(line)) + ShownText(PrintedLines(rest));
      == { Associate(BlockText(x), RowBreak(i) + RowBreak(i) + Printed(line), ShownText(PrintedLines(rest))); }
        BlockText(x) + ShownText(PrintedLines(lines));
      }
    }
  }

  lemma Regroup(x: string, code: string, encoded: string, rest: string)
    ensures x + (" " + code + " " + code + " " + encoded + rest) == x + " " + code + " " + code + " " + encoded + rest
  {
  }

  /** One placed line reads as the breaks of its row, then the line as
      printed. */
  lemma LineText(x: string, line: string, i: int)
    ensures BlockText(x + " " + Position(i) + " " + Position(i) + " " + EncodedLine(line))
      == BlockText(x) + (RowBreak(i) + RowBreak(i) + Printed(line))
  {
    var code := Position(i);
    var x1 := x + " " + code;
    var x2 := x1 + " " + code;
    BlockTextAround(x, code);
    BlockTextAround(x1, code);
    BlockTextAround(x2, EncodedLine(line));
    PositionText(i);
    LineRoundTrip(line);
    Assemble(BlockText(x), BlockText(x1), BlockText(x2), BlockText(x2 + " " + EncodedLine(line)),
      RowBreak(i), Printed(line));
  }

  /** The bookkeeping of LineText: the texts of the pieces, in order. */
  lemma Assemble(t0: string, t1: string, t2: string, t3: string, row: string, shown: string)
    requires t1 == t0 + row && t2 == t1 + row && t3 == t2 + shown
    ensures t3 == t0 + (row + row + shown)
  {
  }

  lemma PayloadText(lines: seq<string>)
    ensures BlockText(Payload(lines)) == ShownText(PrintedLines(lines))
  {
    var placed := Opening + PlacedLines(lines);
    var show := Twice(ShowCaption);
    calc {
      BlockText(Payload(lines));
    == { Associate(placed, " ", show); }
      BlockText(placed + " " + show);
    == { BlockTextAround(placed, show); ClosingText(); }
      BlockText(placed);
    == { PlacedLinesText(Opening, lines); OpeningText(); }
      ShownText(PrintedLines(lines));
    }
  }

  /** The printed form of each line. */
  function PrintedLines(lines: seq<string>): (r: seq<string>)
    ensures |r| == |lines|
    decreases |lines|
  {
    if lines == [] then [] else [Printed(lines[0])] + PrintedLines(lines[1..])
  }

  lemma {:induction false} PrintedLinesHaveNoNewline(lines: seq<string>)
    ensures forall i :: 0 <= i < |lines| ==> '\n' !in PrintedLines(lines)[i]
    decreases |lines|
  {
    if lines != [] {
      PrintedHasNoNewline(lines[0]);
      PrintedLinesHaveNoNewline(lines[1..]);
    }
  }

  /** The lines the decoder reads back from a caption, given each line as
      printed, before the blank ones are dropped: x is the text before the
      top row. Only four rows have codes, so each line above them runs into
      the line after it. */
  function ShownLines(x: string, shown: seq<string>): seq<string>
    decreases |shown|
  {
    if |shown| > 4 then ShownLines(x + shown[0], shown[1..]) else [x] + shown
  }

  lemma {:induction false} SplitShown(x: string, shown: seq<string>)
    requires '\n' !in x
    requires forall i :: 0 <= i < |shown| ==> '\n' !in shown[i]
    ensures RemoveEmptyLines(Split(x + ShownText(shown), '\n')) == RemoveEmptyLines(ShownLines(x, shown))
    decreases |shown|
  {
    if shown == [] {
      assert x + ShownText(shown) == x;
      SplitWithout(x, '\n');
    } else {
      var line, rest := shown[0], shown[1..];
      if |shown| > 4 {
        calc {
          x + ShownText(shown);
        == { Associate(x, line, ShownText(rest)); }
          (x + line) + ShownText(rest);
        }
        SplitShown(x + line, rest);
      } else {
        var y := line + ShownText(rest);
        calc {
          RemoveEmptyLines(Split(x + ShownText(shown), '\n'));
        == { RowsRegroup(x, line, ShownText(rest)); }
          RemoveEmptyLines(Split(x + "\n" + "\n" + y, '\n'));
        == { SplitAtRow(x, y); }
          RemoveEmptyLines([x]) + RemoveEmptyLines(Split(y, '\n'));
        == { SplitShown(line, rest); }
          RemoveEmptyLines([x]) + RemoveEmptyLines(ShownLines(line, rest));
        == { RemoveEmptyLinesAppend([x], ShownLines(line, rest)); }
          RemoveEmptyLines([x] + ShownLines(line, rest));
        == { assert [x] + ShownLines(line, rest) == [x] + shown; }
          RemoveEmptyLines(ShownLines(x, shown));
        }
      }
    }
  }

  lemma RowsRegroup(x: string, shown: string, rest: string)
    ensures x + ("\n" + "\n" + shown + rest) == x + "\n" + "\n" + (shown + rest)
  {
  }

  /** Text before a row's two breaks is a line of its own; the empty line
      between the breaks is dropped. */
  lemma SplitAtRow(x: string, y: string)
    requires '\n' !in x
    ensures RemoveEmptyLines(Split(x + "\n" + "\n" + y, '\n')) == RemoveEmptyLines([x]) + RemoveEmptyLines(Split(y, '\n'))
  {
    assert x + "\n" + "\n" + y == x + ['\n'] + ("" + ['\n'] + y);
    SplitAround(x, "" + ['\n'] + y, '\n');
    SplitAround("", y, '\n');
    SplitWithout(x, '\n');
    SplitWithout("", '\n');
    var ys := Split(y, '\n');
    assert Split(x + "\n" + "\n" + y, '\n') == [x] + ([""] + ys);
    RemoveEmptyLinesAppend([x], [""] + ys);
    RemoveEmptyLinesAppend([""], ys);
    BlankLineDropped();
  }

  /** Reading back the payload of a caption record (with the carriage return
      that ends its line) gives the lines it placed, as printed, less the
      blank ones. */
  lemma PayloadRoundTrip(lines: seq<string>)
    ensures DecodePayload(Payload(lines) + "\r") == RemoveEmptyLines(ShownLines("", PrintedLines(lines)))
  {
    var payload := Payload(lines);
    assert payload[0] == '9' && payload[|payload| - 1] == 'f';
    PayloadText(lines);
    ReadBack(payload, ShownText(PrintedLines(lines)));
    assert "" + ShownText(PrintedLines(lines)) == ShownText(PrintedLines(lines));
    PrintedLinesHaveNoNewline(lines);
    SplitShown("", PrintedLines(lines));
  }

  /** Up to four lines come back as they were printed, less the blank ones. */
  lemma PayloadRoundTripFits(lines: seq<string>)
    requires |lines| <= 4
    ensures DecodePayload(Payload(lines) + "\r") == RemoveEmptyLines(PrintedLines(lines))
  {
    var shown := PrintedLines(lines);
    calc {
      DecodePayload(Payload(lines) + "\r");
    == { PayloadRoundTrip(lines); }
      RemoveEmptyLines(ShownLines("", shown));
    == { assert ShownLines("", shown) == [""] + shown; }
      RemoveEmptyLines([""] + shown);
    == { RemoveEmptyLinesAppend([""], shown); BlankLineDropped(); }
      RemoveEmptyLines(shown);
    }
  }

  /** A line that is empty is dropped. */
  lemma BlankLineDropped()
    ensures RemoveEmptyLines([""]) == []
  {
    assert !NonBlank("");
  }

  /** The lines in order, run together. */
  function Concat(parts: seq<string>): string
    decreases |parts|
  {
    if parts == [] then "" else parts[0] + Concat(parts[1..])
  }

  /** With more than four lines, the lines above the top row come back run
      together with the first line on a row, with no break between them. */
  lemma {:induction false} ExtraLinesJoin(x: string, shown: seq<string>)
    requires |shown| >= 4
    ensures var n := |shown| - 4;
      ShownLines(x, shown) == [x + Concat(shown[..n])] + shown[n..]
    decreases |shown|
  {
    var n := |shown| - 4;
    if n == 0 {
      assert shown[..n] == [] && shown[n..] == shown;
      assert x + Concat(shown[..n]) == x;
    } else {
      var line, rest := shown[0], shown[1..];
      ExtraLinesJoin(x + line, rest);
      assert rest[n - 1..] == shown[n..];
      assert shown[..n] == [line] + rest[..n - 1];
      Associate(x, line, Concat(rest[..n - 1]));
    }
  }

  /** The clearing record reads back as no lines: the decoder takes it as a
      control record that ends the caption before it. */
  lemma StopPayloadIsEmpty()
    ensures DecodePayload(StopPayload + "\r") == []
  {
    StopText();
    assert StopPayload[0] == '9' && StopPayload[|StopPayload| - 1] == 'c';
    ReadBack(StopPayload, "");
    SplitWithout("", '\n');
    BlankLineDropped();
  }

  /** A payload the decoder reads as some text, read back from its record
      line: the text cut into lines, less the blank ones. */
  lemma ReadBack(payload: string, text: string)
    requires payload != [] && !IsTrimmed(payload[0]) && !IsTrimmed(payload[|payload| - 1])
    requires BlockText(payload) == text
    ensures DecodePayload(payload + "\r") == RemoveEmptyLines(Split(text, '\n'))
  {
    TrimTrailingCR(payload);
  }

  /** No clearing record is written exactly when the next cue starts no more
      than one frame after this one ends. */
  lemma StopUnlessNextWithinFrame(end: real, next: real)
    ensures !NeedsStop(end, Some(next)) <==> next - end <= 1.0 / Fps
  {
    var d := next - end;
    assert (1.0 / Fps) * Fps == 1.0;
    if d * Fps > 1.0 {
      assert d > 1.0 / Fps;
    } else {
      assert d <= 1.0 / Fps;
    }
  }

  /** A caption record read back: its time is within a frame of the cue's
      start and its lines are the cue's wrapped lines as printed. */
  lemma CaptionRecordRoundTrip(cue: Cue)
    requires 0.0 <= cue.start < 86400.0
    ensures IsTimecode(InternalTimeToScc(cue.start))
    ensures var row := ParseRecord(Record(InternalTimeToScc(cue.start), Payload(WrapLines(cue.lines)) + "\r"));
      -1.0 / Fps < row.time - cue.start < 1.0 / Fps &&
      row.lines == RemoveEmptyLines(ShownLines("", PrintedLines(WrapLines(cue.lines))))
  {
    InternalTimeToSccFields(cue.start);
    FormatThenParseWithinFrame(cue.start);
    PayloadRoundTrip(WrapLines(cue.lines));
  }

  /** The captions are aligned to the bottom: the last line is on the bottom
      row, 9470. */
  lemma {:induction false} LastLineOnBottomRow(lines: seq<string>)
    requires lines != []
    ensures EndsWith(PlacedLines(lines), Placed("9470", lines[|lines| - 1]))
    decreases |lines|
  {
    var last := Placed("9470", lines[|lines| - 1]);
    if |lines| == 1 {
      assert PlacedLines(lines) == Placed(Position(3), lines[0]) + "";
      assert PlacedLines(lines) == last;
    } else {
      var rest := lines[1..];
      LastLineOnBottomRow(rest);
      assert rest[|rest| - 1] == lines[|lines| - 1];
      EndsWithAfter(Placed(Position(4 - |lines|), lines[0]), PlacedLines(rest), last);
    }
  }
}
