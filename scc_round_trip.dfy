/** The SCC converter end to end: the records the encoder writes for a list
    of cues, read back by the decoder, give one cue per cue written, with
    its times within a frame and its lines as the wrapped lines printed. */
module SccRoundTrip {
  import opened Cues
  import opened SccTime
  import opened SccWrap
  import opened SccText
  import opened SccDecoder
  import opened SccEncoder

  /** What the encoder writes for a cue: its caption record, and perhaps the
      record that clears the screen at its end. */
  datatype Written = Caption(cue: Cue) | Clear(cue: Cue)

  /** A clearing record is written after cue k. */
  predicate Stops(cues: seq<Cue>, k: nat)
    requires k < |cues|
  {
    NeedsStop(cues[k].end, NextStart(cues, k))
  }

  /** What is written for cue k. */
  function CuePlan(cues: seq<Cue>, k: nat): seq<Written>
    requires k < |cues|
  {
    [Caption(cues[k])] + (if Stops(cues, k) then [Clear(cues[k])] else [])
  }

  /** What is written for the first n cues, in file order. */
  function Plan(cues: seq<Cue>, n: nat): seq<Written>
    requires n <= |cues|
    decreases n
  {
    if n == 0 then [] else Plan(cues, n - 1) + CuePlan(cues, n - 1)
  }

  /** A record as the record scan delivers it: the payload still ends with
      the carriage return of its line. */
  function RecordOf(w: Written): Record {
    match w
    case Caption(cue) => Record(InternalTimeToScc(cue.start), Payload(WrapLines(cue.lines)) + "\r")
    case Clear(cue) => Record(InternalTimeToScc(cue.end), StopPayload + "\r")
  }

  /** The records of a plan. */
  function Records(plan: seq<Written>): (r: seq<Record>)
    ensures |r| == |plan|
    decreases |plan|
  {
    if plan == [] then [] else Records(plan[..|plan| - 1]) + [RecordOf(plan[|plan| - 1])]
  }

  /** The records written for a list of cues, in file order. */
  function EncodedRecords(cues: seq<Cue>): seq<Record> {
    Records(Plan(cues, |cues|))
  }

  /** The record of a line as the file holds it: the line end after the
      payload's carriage return, then a blank line. */
  function RecordLine(record: Record): string {
    record.time + "\t" + record.payload + "\n\r\n"
  }

  /** The records as the file holds them, one after the other. */
  function RecordsText(records: seq<Record>): string
    decreases |records|
  {
    if records == [] then ""
    else RecordsText(records[..|records| - 1]) + RecordLine(records[|records| - 1])
  }

  // ------------------------------------------------- the file and its records

  lemma {:induction false} RecordsAppend(a: seq<Written>, b: seq<Written>)
    ensures Records(a + b) == Records(a) + Records(b)
    decreases |b|
  {
    if b != [] {
      var init := b[..|b| - 1];
      assert (a + b)[..|a + b| - 1] == a + init;
      assert (a + b)[|a + b| - 1] == b[|b| - 1];
      RecordsAppend(a, init);
      assert Records(a + b) == Records(a + init) + [RecordOf(b[|b| - 1])];
      assert Records(b) == Records(init) + [RecordOf(b[|b| - 1])];
    } else {
      assert a + b == a;
    }
  }

  lemma {:induction false} RecordsTextAppend(a: seq<Record>, b: seq<Record>)
    ensures RecordsText(a + b) == RecordsText(a) + RecordsText(b)
    decreases |b|
  {
    if b != [] {
      var init := b[..|b| - 1];
      assert (a + b)[..|a + b| - 1] == a + init;
      assert (a + b)[|a + b| - 1] == b[|b| - 1];
      RecordsTextAppend(a, init);
      assert RecordsText(a + b) == RecordsText(a + init) + RecordLine(b[|b| - 1]);
      assert RecordsText(b) == RecordsText(init) + RecordLine(b[|b| - 1]);
    } else {
      assert a + b == a;
    }
  }

  /** A record written by the encoder is the record line of the payload with
      its carriage return. */
  lemma RecordTextLine(timecode: string, payload: string)
    ensures RecordText(timecode, payload) == RecordLine(Record(timecode, payload + "\r"))
  {
    var x := timecode + "\t";
    assert RecordText(timecode, payload) == x + payload + "\r" + "\n\r\n";
  }

  /** The text of one record. */
  lemma RecordsTextOne(w: Written)
    ensures RecordsText(Records([w])) == RecordLine(RecordOf(w))
  {
    assert [w][..0] == [];
    assert Records([w]) == [RecordOf(w)];
    assert [RecordOf(w)][..0] == [];
  }

  /** The records of cue k as the file holds them. */
  lemma CueTextRecords(cues: seq<Cue>, k: nat)
    requires k < |cues|
    ensures CueText(cues[k], NextStart(cues, k)) == RecordsText(Records(CuePlan(cues, k)))
  {
    var cue := cues[k];
    RecordTextLine(InternalTimeToScc(cue.start), Payload(WrapLines(cue.lines)));
    RecordsTextOne(Caption(cue));
    if Stops(cues, k) {
      RecordTextLine(InternalTimeToScc(cue.end), StopPayload);
      RecordsTextOne(Clear(cue));
      RecordsAppend([Caption(cue)], [Clear(cue)]);
      RecordsTextAppend(Records([Caption(cue)]), Records([Clear(cue)]));
      assert CuePlan(cues, k) == [Caption(cue)] + [Clear(cue)];
    } else {
      assert CuePlan(cues, k) == [Caption(cue)];
    }
  }

  /** Writing cue k appends its records. */
  lemma CuesTextStep(cues: seq<Cue>, k: nat)
    requires k < |cues|
    ensures CuesText(cues, k + 1) == CuesText(cues, k) + RecordsText(Records(CuePlan(cues, k)))
  {
    CueTextRecords(cues, k);
  }

  /** Two texts that are the texts of two runs of records. */
  lemma RecordsTextGlue(x: string, y: string, a: seq<Written>, b: seq<Written>)
    requires x == RecordsText(Records(a)) && y == RecordsText(Records(b))
    ensures x + y == RecordsText(Records(a + b))
  {
    RecordsAppend(a, b);
    RecordsTextAppend(Records(a), Records(b));
  }

  lemma {:induction false} CuesTextRecords(cues: seq<Cue>, n: nat)
    requires n <= |cues|
    ensures CuesText(cues, n) == RecordsText(Records(Plan(cues, n)))
    decreases n
  {
    if n > 0 {
      var k := n - 1;
      CuesTextRecords(cues, k);
      CuesTextStep(cues, k);
      RecordsTextGlue(CuesText(cues, k), RecordsText(Records(CuePlan(cues, k))), Plan(cues, k), CuePlan(cues, k));
      assert Plan(cues, n) == Plan(cues, k) + CuePlan(cues, k);
    }
  }

  /** The file the encoder writes is the header followed by the lines of the
      encoded records: these are the records the scan of the file finds. */
  lemma FileContentRecords(cues: seq<Cue>)
    ensures FileContent(cues) == Header + RecordsText(EncodedRecords(cues))
  {
    CuesTextRecords(cues, |cues|);
  }

  // ------------------------------------------------- where each cue's records are

  /** The index of the caption record of cue k. */
  function Pos(cues: seq<Cue>, k: nat): nat
    requires k <= |cues|
  {
    |Plan(cues, k)|
  }

  /** The records of cue k sit at Pos(k), before those of every later cue. */
  lemma {:induction false} PlanAt(cues: seq<Cue>, k: nat, n: nat)
    requires k < n <= |cues|
    ensures Pos(cues, k + 1) == Pos(cues, k) + (if Stops(cues, k) then 2 else 1)
    ensures Pos(cues, k + 1) <= Pos(cues, n)
    ensures Plan(cues, n)[Pos(cues, k)] == Caption(cues[k])
    ensures Stops(cues, k) ==> Plan(cues, n)[Pos(cues, k) + 1] == Clear(cues[k])
    decreases n
  {
    if n > k + 1 {
      PlanAt(cues, k, n - 1);
      assert Plan(cues, n) == Plan(cues, n - 1) + CuePlan(cues, n - 1);
    }
  }

  /** Record i of a plan is the record of its i-th entry. */
  lemma {:induction false} RecordsAt(plan: seq<Written>, i: nat)
    requires i < |plan|
    ensures Records(plan)[i] == RecordOf(plan[i])
    decreases |plan|
  {
    var init := plan[..|plan| - 1];
    if i < |init| {
      RecordsAt(init, i);
      assert init[i] == plan[i];
    }
  }

  /** Every timecode the encoder writes is one the record scan admits. */
  lemma EncodedWellFormed(cues: seq<Cue>)
    ensures WellFormed(EncodedRecords(cues))
  {
    var plan := Plan(cues, |cues|);
    forall i | 0 <= i < |plan| ensures IsTimecode(EncodedRecords(cues)[i].time) {
      RecordsAt(plan, i);
      InternalTimeToSccFields(plan[i].cue.start);
      InternalTimeToSccFields(plan[i].cue.end);
    }
  }

  /** A prefix of well-formed records is well formed. */
  lemma WellFormedPrefix(records: seq<Record>, j: nat)
    requires WellFormed(records) && j <= |records|
    ensures WellFormed(records[..j])
  {
    forall k | 0 <= k < j ensures IsTimecode(records[..j][k].time) {
      assert records[..j][k] == records[k];
    }
  }

  /** The rows of the first j records are those of the first j - 1, then
      the row of record j - 1. */
  lemma PrefixStep(records: seq<Record>, j: nat)
    requires WellFormed(records) && 0 < j <= |records|
    ensures WellFormed(records[..j - 1]) && WellFormed(records[..j])
    ensures ParseRecords(records[..j]) == ParseRecords(records[..j - 1]) + [ParseRecord(records[j - 1])]
  {
    WellFormedPrefix(records, j);
    WellFormedPrefix(records, j - 1);
    assert records[..j][..j - 1] == records[..j - 1];
  }

  /** Row i of the first j records is the row of record i. */
  lemma {:induction false} PrefixRowAt(records: seq<Record>, j: nat, i: nat)
    requires WellFormed(records) && i < j <= |records|
    ensures WellFormed(records[..j])
    ensures ParseRecords(records[..j])[i] == ParseRecord(records[i])
    decreases j
  {
    PrefixStep(records, j);
    if i < j - 1 {
      PrefixRowAt(records, j - 1, i);
    }
  }

  /** Row i is the row of record i. */
  lemma ParseRecordsAt(records: seq<Record>, i: nat)
    requires WellFormed(records) && i < |records|
    ensures ParseRecords(records)[i] == ParseRecord(records[i])
  {
    PrefixRowAt(records, |records|, i);
    assert records[..|records|] == records;
  }

  /** The lines the decoder reads back from the caption record of a cue. */
  function ShownCueLines(cue: Cue): seq<string> {
    RemoveEmptyLines(ShownLines("", PrintedLines(WrapLines(cue.lines))))
  }

  /** A time as the decoder reads it back once written. */
  function ReadBackTime(t: real): real {
    InternalTimeToSccFields(t);
    SccTimeToInternal(InternalTimeToScc(t))
  }

  /** The row the decoder reads out of a written record. */
  function RowOf(w: Written): Row {
    match w
    case Caption(cue) => Row(ReadBackTime(cue.start), ShownCueLines(cue))
    case Clear(cue) => Row(ReadBackTime(cue.end), [])
  }

  /** A written record reads back as its row. */
  lemma ParseRecordOf(w: Written)
    requires IsTimecode(RecordOf(w).time)
    ensures ParseRecord(RecordOf(w)) == RowOf(w)
  {
    match w
    case Caption(cue) => PayloadRoundTrip(WrapLines(cue.lines));
    case Clear(cue) => StopPayloadIsEmpty();
  }

  /** The rows the decoder reads out of the encoded records. */
  function EncodedRows(cues: seq<Cue>): (rows: seq<Row>)
    ensures |rows| == Pos(cues, |cues|)
  {
    EncodedWellFormed(cues);
    ParseRecords(EncodedRecords(cues))
  }

  /** Row i is the row of the i-th record written. */
  lemma RowsAt(cues: seq<Cue>, i: nat)
    requires i < Pos(cues, |cues|)
    ensures EncodedRows(cues)[i] == RowOf(Plan(cues, |cues|)[i])
  {
    var plan := Plan(cues, |cues|);
    EncodedWellFormed(cues);
    ParseRecordsAt(EncodedRecords(cues), i);
    RecordsAt(plan, i);
    ParseRecordOf(plan[i]);
  }

  /** The indices of the caption records of the first n cues. */
  function Starts(cues: seq<Cue>, n: nat): (r: seq<nat>)
    requires n <= |cues|
    ensures |r| == n && forall c :: 0 <= c < n ==> r[c] == Pos(cues, c)
    decreases n
  {
    if n == 0 then [] else Starts(cues, n - 1) + [Pos(cues, n - 1)]
  }

  /** Every cue's caption record reads back as some lines. */
  predicate AllShown(cues: seq<Cue>) {
    forall k :: 0 <= k < |cues| ==> ShownCueLines(cues[k]) != []
  }

  /** The row of cue k's caption record shows text; that of its clearing
      record does not. */
  lemma CueRows(cues: seq<Cue>, k: nat)
    requires AllShown(cues) && k < |cues|
    ensures Pos(cues, k + 1) == Pos(cues, k) + (if Stops(cues, k) then 2 else 1)
    ensures Pos(cues, k + 1) <= |EncodedRows(cues)|
    ensures IsContent(EncodedRows(cues)[Pos(cues, k)])
    ensures Stops(cues, k) ==> !IsContent(EncodedRows(cues)[Pos(cues, k) + 1])
  {
    PlanAt(cues, k, |cues|);
    RowsAt(cues, Pos(cues, k));
    if Stops(cues, k) {
      RowsAt(cues, Pos(cues, k) + 1);
    }
  }

  /** A content row read after the first p rows is listed next. */
  lemma ContentRowsContent(rows: seq<Row>, p: nat)
    requires p < |rows| && IsContent(rows[p])
    ensures ContentRows(rows, p + 1) == ContentRows(rows, p) + [p]
  {
  }

  /** A control row read after the first p rows is not listed. */
  lemma ContentRowsControl(rows: seq<Row>, p: nat)
    requires p < |rows| && !IsContent(rows[p])
    ensures ContentRows(rows, p + 1) == ContentRows(rows, p)
  {
  }

  /** The records that show text are exactly the caption records. */
  lemma {:induction false} ContentRowsStarts(cues: seq<Cue>, n: nat)
    requires n <= |cues| && AllShown(cues)
    ensures Pos(cues, n) <= |EncodedRows(cues)|
    ensures ContentRows(EncodedRows(cues), Pos(cues, n)) == Starts(cues, n)
    decreases n
  {
    if n > 0 {
      var k := n - 1;
      var rows := EncodedRows(cues);
      ContentRowsStarts(cues, k);
      CueRows(cues, k);
      var p := Pos(cues, k);
      ContentRowsContent(rows, p);
      if Stops(cues, k) {
        ContentRowsControl(rows, p + 1);
      }
    }
  }

  // ------------------------------------------------------------ round trip

  /** The cues the encoder can write and the decoder read back: times within
      the first day, and lines that show some text once wrapped. */
  predicate Encodable(cues: seq<Cue>) {
    AllShown(cues) &&
    forall k :: 0 <= k < |cues| ==>
      0.0 <= cues[k].start < 86400.0 && 0.0 <= cues[k].end < 86400.0
  }

  /** Decoded cue c is read from cue c's caption record. */
  lemma DecodedAt(cues: seq<Cue>, c: nat)
    requires AllShown(cues) && c < |cues|
    ensures |SccDecoder.Decoded(EncodedRows(cues))| == |cues|
    ensures var rows := EncodedRows(cues); var p := Pos(cues, c);
      p < |rows| && SccDecoder.Decoded(rows)[c] == Cue(rows[p].time, End(rows, p), rows[p].lines)
  {
    ContentRowsStarts(cues, |cues|);
    CuesOfRows(EncodedRows(cues), Starts(cues, |cues|), c);
  }

  /** The caption record of cue c reads back as its start and lines. */
  lemma CaptionRowAt(cues: seq<Cue>, c: nat)
    requires c < |cues|
    ensures Pos(cues, c) < |EncodedRows(cues)|
    ensures EncodedRows(cues)[Pos(cues, c)] == Row(ReadBackTime(cues[c].start), ShownCueLines(cues[c]))
  {
    PlanAt(cues, c, |cues|);
    RowsAt(cues, Pos(cues, c));
  }

  /** The clearing record of cue c reads back as its end. */
  lemma ClearRowAt(cues: seq<Cue>, c: nat)
    requires c < |cues| && Stops(cues, c)
    ensures Pos(cues, c) + 1 < |EncodedRows(cues)|
    ensures EncodedRows(cues)[Pos(cues, c) + 1] == Row(ReadBackTime(cues[c].end), [])
  {
    PlanAt(cues, c, |cues|);
    RowsAt(cues, Pos(cues, c) + 1);
  }

  /** A decoded cue starts within a frame of the cue written and shows its
      wrapped lines as printed. */
  lemma StartRoundTrip(cues: seq<Cue>, c: nat)
    requires Encodable(cues) && c < |cues|
    ensures |SccDecoder.Decoded(EncodedRows(cues))| == |cues|
    ensures var d := SccDecoder.Decoded(EncodedRows(cues))[c];
      -1.0 / Fps < d.start - cues[c].start < 1.0 / Fps && d.lines == ShownCueLines(cues[c])
  {
    DecodedAt(cues, c);
    CaptionRowAt(cues, c);
    FormatThenParseWithinFrame(cues[c].start);
  }

  /** After cue c's records comes the next caption record, or the end. */
  lemma NextCaptionOrEnd(cues: seq<Cue>, c: nat)
    requires AllShown(cues) && c < |cues|
    ensures Pos(cues, c + 1) <= |EncodedRows(cues)|
    ensures Pos(cues, c + 1) == |EncodedRows(cues)| || IsContent(EncodedRows(cues)[Pos(cues, c + 1)])
  {
    if c + 1 < |cues| {
      CueRows(cues, c + 1);
    } else {
      CueRows(cues, c);
    }
  }

  /** A row followed by one control row, and then by a content row or the
      end, ends at that control row. */
  lemma EndAtOneControl(rows: seq<Row>, p: nat)
    requires p + 1 < |rows| && !IsContent(rows[p + 1])
    requires p + 2 == |rows| || IsContent(rows[p + 2])
    ensures End(rows, p) == rows[p + 1].time
  {
    forall r | p < r < p + 2 ensures !IsContent(rows[r]) {
      assert r == p + 1;
    }
    EndAtLastControl(rows, p, p + 2);
  }

  /** With a clearing record, the cue of cue c's caption record ends at the
      clearing record: the last control record before the next caption. */
  lemma EndAtClear(cues: seq<Cue>, c: nat)
    requires AllShown(cues) && c < |cues| && Stops(cues, c)
    ensures Pos(cues, c) + 1 < |EncodedRows(cues)|
    ensures End(EncodedRows(cues), Pos(cues, c)) == EncodedRows(cues)[Pos(cues, c) + 1].time
  {
    var rows := EncodedRows(cues);
    var p := Pos(cues, c);
    CueRows(cues, c);
    NextCaptionOrEnd(cues, c);
    EndAtOneControl(rows, p);
  }

  /** With a clearing record, the decoded cue ends within a frame of the cue
      written. */
  lemma StopEndRoundTrip(cues: seq<Cue>, c: nat)
    requires Encodable(cues) && c < |cues| && Stops(cues, c)
    ensures |SccDecoder.Decoded(EncodedRows(cues))| == |cues|
    ensures -1.0 / Fps < SccDecoder.Decoded(EncodedRows(cues))[c].end - cues[c].end < 1.0 / Fps
  {
    DecodedAt(cues, c);
    EndAtClear(cues, c);
    ClearRowAt(cues, c);
    FormatThenParseWithinFrame(cues[c].end);
  }

  /** Without a clearing record, the decoded cue ends when the next decoded
      cue starts. */
  lemma NextEndRoundTrip(cues: seq<Cue>, c: nat)
    requires AllShown(cues) && c < |cues| && !Stops(cues, c)
    ensures |SccDecoder.Decoded(EncodedRows(cues))| == |cues|
    ensures c + 1 < |cues| && SccDecoder.Decoded(EncodedRows(cues))[c].end == SccDecoder.Decoded(EncodedRows(cues))[c + 1].start
  {
    var rows := EncodedRows(cues);
    var p := Pos(cues, c);
    DecodedAt(cues, c);
    assert c + 1 < |cues|;
    CueRows(cues, c);
    CueRows(cues, c + 1);
    EndAtNextCue(rows, p);
    DecodedAt(cues, c + 1);
  }

  /** decode(encode(cues)): one cue per cue written, in order; each starts
      within a frame of the cue written and shows its wrapped lines as
      printed; it ends within a frame of the cue's end when a clearing
      record was written, and otherwise when the next decoded cue starts. */
  lemma SccRoundTrip(cues: seq<Cue>)
    requires Encodable(cues)
    ensures WellFormed(EncodedRecords(cues))
    ensures var d := SccDecoder.Decoded(ParseRecords(EncodedRecords(cues)));
      |d| == |cues| &&
      (forall c :: 0 <= c < |cues| ==>
        -1.0 / Fps < d[c].start - cues[c].start < 1.0 / Fps && d[c].lines == ShownCueLines(cues[c])) &&
      (forall c :: 0 <= c < |cues| && Stops(cues, c) ==>
        -1.0 / Fps < d[c].end - cues[c].end < 1.0 / Fps) &&
      (forall c :: 0 <= c < |cues| && !Stops(cues, c) ==>
        c + 1 < |cues| && d[c].end == d[c + 1].start)
  {
    EncodedWellFormed(cues);
    var d := SccDecoder.Decoded(EncodedRows(cues));
    if cues != [] {
      DecodedAt(cues, 0);
    } else {
      assert ContentRows(EncodedRows(cues), 0) == [];
    }
    forall c | 0 <= c < |cues|
      ensures -1.0 / Fps < d[c].start - cues[c].start < 1.0 / Fps && d[c].lines == ShownCueLines(cues[c])
    {
      StartRoundTrip(cues, c);
    }
    forall c | 0 <= c < |cues| && Stops(cues, c)
      ensures -1.0 / Fps < d[c].end - cues[c].end < 1.0 / Fps
    {
      StopEndRoundTrip(cues, c);
    }
    forall c | 0 <= c < |cues| && !Stops(cues, c)
      ensures c + 1 < |cues| && d[c].end == d[c + 1].start
    {
      NextEndRoundTrip(cues, c);
    }
  }
}
