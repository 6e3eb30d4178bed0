/** The SCC decode fold (fileContentToInternalFormat): timecoded records
    become cues. A record whose payload shows text opens a cue; a record that
    only holds control codes (an erase, say) closes the cue before it. */
module SccDecoder {
  import opened Wrappers
  import opened Cues
  import opened SccTime
  import opened SccText

  /** One record of the file as the record scan delivers it: the timecode and
      the payload after it. */
  datatype Record = Record(time: string, payload: string)

  /** A record once parsed: its time in seconds and the caption lines of its
      payload. */
  datatype Row = Row(time: real, lines: seq<string>)

  /** A cue while the fold runs: its end is not known until a later record
      sets it. */
  datatype Pending = Pending(start: real, end: Option<real>, lines: seq<string>)

  predicate WellFormed(records: seq<Record>) {
    forall i :: 0 <= i < |records| ==> IsTimecode(records[i].time)
  }

  /** The parsed form of a record. */
  function ParseRecord(record: Record): Row
    requires IsTimecode(record.time)
  {
    Row(SccTimeToInternal(record.time), DecodePayload(record.payload))
  }

  /** The parsed records, in file order. */
  function ParseRecords(records: seq<Record>): (rows: seq<Row>)
    requires WellFormed(records)
    ensures |rows| == |records|
    decreases |records|
  {
    if records == [] then []
    else ParseRecords(records[..|records| - 1]) + [ParseRecord(records[|records| - 1])]
  }

  /** Parsing one record more appends its row. */
  lemma {:induction false} ParseRecordsSnoc(records: seq<Record>, j: nat, row: Row)
    requires WellFormed(records) && j < |records|
    requires row == ParseRecord(records[j])
    ensures ParseRecords(records[..j + 1]) == ParseRecords(records[..j]) + [row]
  {
    assert records[..j + 1][..j] == records[..j];
  }

  /** A record that shows text. */
  predicate IsContent(row: Row) {
    row.lines != []
  }

  // ------------------------------------------------------------ the fold

  /** The cues with the last one's end set to t. */
  function CloseLast(acc: seq<Pending>, t: real): seq<Pending>
    requires acc != []
  {
    acc[|acc| - 1 := acc[|acc| - 1].(end := Some(t))]
  }

  /** What a record does to the cues before it: a control record sets the
      end of the last cue, whether it had one or not; a content record sets
      it only when it has none yet. Before the first cue nothing changes. */
  function Closed(acc: seq<Pending>, row: Row): seq<Pending> {
    if acc != [] && (!IsContent(row) || acc[|acc| - 1].end.None?) then CloseLast(acc, row.time)
    else acc
  }

  /** One turn of the fold: a content record also opens a cue, which ends one
      second after its start when the record is the last of the file. */
  function Step(acc: seq<Pending>, row: Row, last: bool): seq<Pending> {
    if IsContent(row) then
      Closed(acc, row) + [Pending(row.time, if last then Some(row.time + 1.0) else None, row.lines)]
    else Closed(acc, row)
  }

  /** The cues after the first k rows. */
  function Fold(rows: seq<Row>, k: nat): seq<Pending>
    requires k <= |rows|
  {
    if k == 0 then [] else Step(Fold(rows, k - 1), rows[k - 1], k == |rows|)
  }

  // ------------------------------------------------------- the reference

  /** The indices of the content rows among the first k, in order. */
  function ContentRows(rows: seq<Row>, k: nat): (r: seq<nat>)
    requires k <= |rows|
    ensures forall i :: 0 <= i < |r| ==> r[i] < k && IsContent(rows[r[i]])
    ensures forall i, j :: 0 <= i < j < |r| ==> r[i] < r[j]
  {
    if k == 0 then []
    else ContentRows(rows, k - 1) + (if IsContent(rows[k - 1]) then [k - 1] else [])
  }

  /** Every content row among the first k is listed. */
  lemma {:induction false} ContentRowsComplete(rows: seq<Row>, k: nat, q: nat)
    requires q < k <= |rows|
    ensures IsContent(rows[q]) ==> q in ContentRows(rows, k)
  {
    if q < k - 1 {
      ContentRowsComplete(rows, k - 1, q);
    }
  }

  /** The end a scan of rows j..k-1 finds for the cue before them, given the
      end seen so far: the first content row ends the cue unless a control row
      already did; each control row sets the end anew. */
  function Scan(rows: seq<Row>, j: nat, k: nat, seen: Option<real>): (r: Option<real>)
    requires j <= k <= |rows|
    ensures seen.Some? || j < k ==> r.Some?
    decreases k - j
  {
    if j == k then seen
    else if IsContent(rows[j]) then (if seen.Some? then seen else Some(rows[j].time))
    else Scan(rows, j + 1, k, Some(rows[j].time))
  }

  /** The end of the cue of content row p once the first k rows are read. */
  function EndAfter(rows: seq<Row>, p: nat, k: nat): (r: Option<real>)
    requires p < k <= |rows|
    ensures k == |rows| ==> r.Some?
  {
    if p + 1 == |rows| then Some(rows[p].time + 1.0) else Scan(rows, p + 1, k, None)
  }

  /** The cue of content row p once the first k rows are read. */
  function PendingAt(rows: seq<Row>, p: nat, k: nat): Pending
    requires p < k <= |rows|
  {
    Pending(rows[p].time, EndAfter(rows, p, k), rows[p].lines)
  }

  /** The cues of the listed rows once the first k rows are read. */
  function PendingOf(rows: seq<Row>, idx: seq<nat>, k: nat): (r: seq<Pending>)
    requires k <= |rows| && forall i :: 0 <= i < |idx| ==> idx[i] < k
    ensures |r| == |idx|
    decreases |idx|
  {
    if idx == [] then []
    else PendingOf(rows, idx[..|idx| - 1], k) + [PendingAt(rows, idx[|idx| - 1], k)]
  }

  /** The end of the cue of content row p: one second after its start when
      it is the last row; otherwise the time of the last control row that
      directly follows it, or else the time of the next content row. */
  function End(rows: seq<Row>, p: nat): real
    requires p < |rows|
  {
    EndAfter(rows, p, |rows|).value
  }

  /** The cues of the listed rows with their ends. */
  function CuesOf(rows: seq<Row>, idx: seq<nat>): (r: seq<Cue>)
    requires forall i :: 0 <= i < |idx| ==> idx[i] < |rows|
    ensures |r| == |idx|
    decreases |idx|
  {
    if idx == [] then []
    else
      var p := idx[|idx| - 1];
      CuesOf(rows, idx[..|idx| - 1]) + [Cue(rows[p].time, End(rows, p), rows[p].lines)]
  }

  /** What the decoder yields: one cue per content row, in row order. */
  function Decoded(rows: seq<Row>): seq<Cue> {
    CuesOf(rows, ContentRows(rows, |rows|))
  }

  // ------------------------------------------------------- the fold proof

  /** A scan that meets a content row before k does not look past it. */
  lemma {:induction false} ScanStops(rows: seq<Row>, j: nat, q: nat, k: nat, seen: Option<real>)
    requires j <= q < k <= |rows| && IsContent(rows[q])
    ensures Scan(rows, j, k, seen) == Scan(rows, j, q + 1, seen)
    decreases q - j
  {
    if !IsContent(rows[j]) {
      ScanStops(rows, j + 1, q, k, Some(rows[j].time));
    }
  }

  /** Over control rows only, the scan ends at the last one. */
  lemma {:induction false} ScanControls(rows: seq<Row>, j: nat, k: nat, seen: Option<real>)
    requires j < k <= |rows|
    requires forall q :: j <= q < k ==> !IsContent(rows[q])
    ensures Scan(rows, j, k, seen) == Some(rows[k - 1].time)
    decreases k - j
  {
    if j + 1 < k {
      ScanControls(rows, j + 1, k, Some(rows[j].time));
    }
  }

  /** Reading one row more after control rows only. */
  lemma {:induction false} ScanExtend(rows: seq<Row>, j: nat, k: nat, seen: Option<real>)
    requires j <= k < |rows|
    requires forall q :: j <= q < k ==> !IsContent(rows[q])
    ensures Scan(rows, j, k + 1, seen) ==
      if IsContent(rows[k]) && Scan(rows, j, k, seen).Some? then Scan(rows, j, k, seen)
      else Some(rows[k].time)
    decreases k - j
  {
    if j < k {
      ScanExtend(rows, j + 1, k, Some(rows[j].time));
    }
  }

  /** A cue followed by a later content row keeps its end when one row more
      is read. */
  lemma {:induction false} PendingOfStable(rows: seq<Row>, idx: seq<nat>, k: nat)
    requires k < |rows| && |idx| >= 1
    requires forall i :: 0 <= i < |idx| ==> idx[i] < k && IsContent(rows[idx[i]])
    requires forall i, j :: 0 <= i < j < |idx| ==> idx[i] < idx[j]
    ensures PendingOf(rows, idx[..|idx| - 1], k + 1) == PendingOf(rows, idx[..|idx| - 1], k)
    decreases |idx|
  {
    var n := |idx|;
    if n >= 2 {
      var init := idx[..n - 1];
      assert init[..n - 2] == idx[..n - 2];
      PendingOfStable(rows, init, k);
      var p := idx[n - 2];
      if p + 1 != |rows| {
        ScanStops(rows, p + 1, idx[n - 1], k, None);
        ScanStops(rows, p + 1, idx[n - 1], k + 1, None);
      }
      assert PendingAt(rows, p, k + 1) == PendingAt(rows, p, k);
    }
  }

  /** The end of the last cue before row k, once row k is read. */
  lemma {:induction false} LastEndStep(rows: seq<Row>, p: nat, k: nat)
    requires p < k < |rows|
    requires forall q :: p < q < k ==> !IsContent(rows[q])
    ensures EndAfter(rows, p, k + 1) ==
      if IsContent(rows[k]) && EndAfter(rows, p, k).Some? then EndAfter(rows, p, k)
      else Some(rows[k].time)
  {
    ScanExtend(rows, p + 1, k, None);
  }

  /** The listed rows' cues with one row more read, when the last listed row
      is the last content row so far. */
  lemma {:induction false} PendingOfStep(rows: seq<Row>, idx: seq<nat>, k: nat)
    requires k < |rows| && |idx| >= 1
    requires forall i :: 0 <= i < |idx| ==> idx[i] < k && IsContent(rows[idx[i]])
    requires forall i, j :: 0 <= i < j < |idx| ==> idx[i] < idx[j]
    requires forall q :: idx[|idx| - 1] < q < k ==> !IsContent(rows[q])
    ensures PendingOf(rows, idx, k + 1) == Closed(PendingOf(rows, idx, k), rows[k])
  {
    PendingOfStable(rows, idx, k);
    LastEndStep(rows, idx[|idx| - 1], k);
  }

  /** No content row lies between the last listed one and k. */
  lemma {:induction false} LastContentRow(rows: seq<Row>, k: nat)
    requires k <= |rows| && ContentRows(rows, k) != []
    ensures var idx := ContentRows(rows, k);
      forall q :: idx[|idx| - 1] < q < k ==> !IsContent(rows[q])
  {
    var idx := ContentRows(rows, k);
    forall q | idx[|idx| - 1] < q < k
      ensures !IsContent(rows[q])
    {
      ContentRowsComplete(rows, k, q);
    }
  }

  /** Reading row j closes the last reference cue as the fold does. */
  lemma {:induction false} PendingOfClose(rows: seq<Row>, j: nat)
    requires j < |rows|
    ensures PendingOf(rows, ContentRows(rows, j), j + 1) == Closed(PendingOf(rows, ContentRows(rows, j), j), rows[j])
  {
    var idx := ContentRows(rows, j);
    if idx != [] {
      LastContentRow(rows, j);
      PendingOfStep(rows, idx, j);
    }
  }

  /** A content row adds its own cue, which has no end yet unless the row is
      the last one. */
  lemma {:induction false} PendingOfOpen(rows: seq<Row>, j: nat)
    requires j < |rows| && IsContent(rows[j])
    ensures PendingOf(rows, ContentRows(rows, j + 1), j + 1) ==
      PendingOf(rows, ContentRows(rows, j), j + 1) +
      [Pending(rows[j].time, if j + 1 == |rows| then Some(rows[j].time + 1.0) else None, rows[j].lines)]
  {
    var idx := ContentRows(rows, j);
    var idx' := idx + [j];
    assert ContentRows(rows, j + 1) == idx';
    assert idx'[..|idx'| - 1] == idx;
  }

  /** Reading row j changes the reference cues as one turn of the fold. */
  lemma {:induction false} PendingOfRow(rows: seq<Row>, j: nat)
    requires j < |rows|
    ensures PendingOf(rows, ContentRows(rows, j + 1), j + 1) ==
      Step(PendingOf(rows, ContentRows(rows, j), j), rows[j], j + 1 == |rows|)
  {
    PendingOfClose(rows, j);
    if IsContent(rows[j]) {
      PendingOfOpen(rows, j);
    } else {
      assert ContentRows(rows, j + 1) == ContentRows(rows, j);
    }
  }

  /** The fold computes the reference cues at every step. */
  lemma {:induction false} FoldIsPending(rows: seq<Row>, k: nat)
    requires k <= |rows|
    ensures Fold(rows, k) == PendingOf(rows, ContentRows(rows, k), k)
  {
    if k > 0 {
      FoldIsPending(rows, k - 1);
      PendingOfRow(rows, k - 1);
    }
  }

  // ------------------------------------------------------------ the result

  predicate AllEnded(acc: seq<Pending>) {
    forall i :: 0 <= i < |acc| ==> acc[i].end.Some?
  }

  /** The cues of a finished fold, each with its end. */
  function Complete(acc: seq<Pending>): (r: seq<Cue>)
    requires AllEnded(acc)
    ensures |r| == |acc|
    ensures forall i :: 0 <= i < |r| ==> r[i] == Cue(acc[i].start, acc[i].end.value, acc[i].lines)
    decreases |acc|
  {
    if acc == [] then []
    else Complete(acc[..|acc| - 1]) + [Cue(acc[|acc| - 1].start, acc[|acc| - 1].end.value, acc[|acc| - 1].lines)]
  }

  /** Once every row is read, every cue has its end, and the ends are the
      reference ones. */
  lemma {:induction false} PendingOfComplete(rows: seq<Row>, idx: seq<nat>)
    requires forall i :: 0 <= i < |idx| ==> idx[i] < |rows|
    ensures AllEnded(PendingOf(rows, idx, |rows|))
    ensures Complete(PendingOf(rows, idx, |rows|)) == CuesOf(rows, idx)
    decreases |idx|
  {
    if idx != [] {
      PendingOfComplete(rows, idx[..|idx| - 1]);
    }
  }

  /** Every cue of the decoded file has an end: the fold leaves none open. */
  lemma {:induction false} FoldEndsAll(rows: seq<Row>)
    ensures AllEnded(Fold(rows, |rows|))
    ensures Complete(Fold(rows, |rows|)) == Decoded(rows)
  {
    FoldIsPending(rows, |rows|);
    PendingOfComplete(rows, ContentRows(rows, |rows|));
  }

  /** The second half of fileContentToInternalFormat: the parsed records are
      folded into cues, i counting the cues opened so far; a cue's end is
      written into the list in place when a later record sets it. */
  method FoldRows(rows: seq<Row>) returns (cues: seq<Cue>)
    ensures cues == Decoded(rows)
  {
    var internal: seq<Pending> := [];
    var i := 0;
    var j := 0;
    while j < |rows|
      invariant 0 <= j <= |rows|
      invariant internal == Fold(rows, j) && i == |internal|
    {
      var row := rows[j];
      ghost var before := internal;
      if row.lines != [] {
        if i != 0 && internal[i - 1].end.None? {
          internal := internal[i - 1 := internal[i - 1].(end := Some(row.time))];
        }
        assert internal == Closed(before, row);
        internal := internal + [Pending(row.time, None, row.lines)];
        if j + 1 == |rows| {
          internal := internal[i := internal[i].(end := Some(internal[i].start + 1.0))];
        }
        i := i + 1;
      } else if i >= 1 {
        internal := internal[i - 1 := internal[i - 1].(end := Some(row.time))];
      }
      assert internal == Step(before, row, j + 1 == |rows|);
      j := j + 1;
    }
    FoldEndsAll(rows);
    cues := Complete(internal);
  }

  /** fileContentToInternalFormat on the scanned records: a first loop parses
      each record's timecode and payload, then the rows are folded. */
  method FileContentToInternalFormat(records: seq<Record>) returns (cues: seq<Cue>)
    requires WellFormed(records)
    ensures cues == Decoded(ParseRecords(records))
  {
    var rows: seq<Row> := [];
    var j := 0;
    while j < |records|
      invariant 0 <= j <= |records|
      invariant rows == ParseRecords(records[..j])
    {
      var lines := SccToLines(records[j].payload);
      var row := Row(SccTimeToInternal(records[j].time), lines);
      assert row == ParseRecord(records[j]);
      ParseRecordsSnoc(records, j, row);
      rows := rows + [row];
      j := j + 1;
    }
    assert records[..j] == records;
    cues := FoldRows(rows);
  }

  // ------------------------------------------------------ what it promises

  /** One cue per record that shows text, in record order: cue c comes from
      the c-th content record, starts at its time and shows its lines. */
  lemma {:induction false} CuesOfRows(rows: seq<Row>, idx: seq<nat>, c: nat)
    requires forall i :: 0 <= i < |idx| ==> idx[i] < |rows|
    requires c < |idx|
    ensures CuesOf(rows, idx)[c] == Cue(rows[idx[c]].time, End(rows, idx[c]), rows[idx[c]].lines)
    decreases |idx|
  {
    if c < |idx| - 1 {
      CuesOfRows(rows, idx[..|idx| - 1], c);
    }
  }

  /** The decoded cues are the content records, in order, and nothing else. */
  lemma DecodedCues(rows: seq<Row>)
    ensures var cues := Decoded(rows);
      var idx := ContentRows(rows, |rows|);
      |cues| == |idx| &&
      (forall c :: 0 <= c < |cues| ==> cues[c].start == rows[idx[c]].time && cues[c].lines == rows[idx[c]].lines && cues[c].lines != []) &&
      (forall c, d :: 0 <= c < d < |cues| ==> idx[c] < idx[d]) &&
      (forall q :: 0 <= q < |rows| && IsContent(rows[q]) ==> q in idx)
  {
    var idx := ContentRows(rows, |rows|);
    forall c | 0 <= c < |idx|
      ensures Decoded(rows)[c].start == rows[idx[c]].time && Decoded(rows)[c].lines == rows[idx[c]].lines
    {
      CuesOfRows(rows, idx, c);
    }
    forall q | 0 <= q < |rows|
      ensures IsContent(rows[q]) ==> q in idx
    {
      ContentRowsComplete(rows, |rows|, q);
    }
  }

  /** A cue from the last record ends one second after it starts. */
  lemma EndOfLastRecord(rows: seq<Row>, p: nat)
    requires p + 1 == |rows|
    ensures End(rows, p) == rows[p].time + 1.0
  {
  }

  /** A cue directly followed by a content record ends when that one starts. */
  lemma EndAtNextCue(rows: seq<Row>, p: nat)
    requires p + 1 < |rows| && IsContent(rows[p + 1])
    ensures End(rows, p) == rows[p + 1].time
  {
  }

  /** A cue followed by control records ends at the last of them before the
      next content record or the end of the file: each one overwrites the
      end the one before it set. */
  lemma {:induction false} EndAtLastControl(rows: seq<Row>, p: nat, q: nat)
    requires p + 1 < q <= |rows|
    requires forall r :: p < r < q ==> !IsContent(rows[r])
    requires q == |rows| || IsContent(rows[q])
    ensures End(rows, p) == rows[q - 1].time
  {
    ScanControls(rows, p + 1, q, None);
    if q < |rows| {
      ScanStops(rows, p + 1, q, |rows|, None);
      ScanExtend(rows, p + 1, q, None);
    }
  }
}
