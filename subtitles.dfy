/** The cue-list document (Subtitles): a list of cues in the internal format
    that add, remove, trim and shiftTime change in place, re-sorting it by
    start time after each addition or shift. */
module Subtitles {
  import opened Cues

  /** The text given to add: a single line, or an array of lines. */
  datatype CueText = Line(line: string) | Lines(lines: seq<string>)

  /** The lines of the new cue: the array itself, or the single line wrapped
      in one. */
  function LinesOf(text: CueText): seq<string> {
    match text
    case Line(line) => [line]
    case Lines(lines) => lines
  }

  // ------------------------------------------------------------- ordering

  predicate SortedByStart(cues: seq<Cue>) {
    forall i, j :: 0 <= i < j < |cues| ==> cues[i].start <= cues[j].start
  }

  /** A sorted list with one more cue, placed after every cue that does not
      start later than it. */
  function InsertByStart(sorted: seq<Cue>, cue: Cue): (r: seq<Cue>)
    ensures |r| == |sorted| + 1
    decreases |sorted|
  {
    if sorted == [] || sorted[|sorted| - 1].start <= cue.start then sorted + [cue]
    else InsertByStart(sorted[..|sorted| - 1], cue) + [sorted[|sorted| - 1]]
  }

  /** usort with the comparator on start: a stable sort (as usort is), so cues
      that start together keep their order. */
  function SortByStart(cues: seq<Cue>): (r: seq<Cue>)
    ensures |r| == |cues|
    decreases |cues|
  {
    if cues == [] then [] else InsertByStart(SortByStart(cues[..|cues| - 1]), cues[|cues| - 1])
  }

  /** Inserting adds the cue and keeps every cue of the list. */
  lemma {:induction false} InsertPermutes(sorted: seq<Cue>, cue: Cue)
    ensures multiset(InsertByStart(sorted, cue)) == multiset(sorted) + multiset{cue}
    decreases |sorted|
  {
    if sorted != [] && sorted[|sorted| - 1].start > cue.start {
      var init, last := sorted[..|sorted| - 1], sorted[|sorted| - 1];
      assert sorted == init + [last];
      InsertPermutes(init, cue);
    }
  }

  /** Inserting into a list in order of start keeps it in order. */
  lemma {:induction false} InsertSorted(sorted: seq<Cue>, cue: Cue)
    requires SortedByStart(sorted)
    ensures SortedByStart(InsertByStart(sorted, cue))
    decreases |sorted|
  {
    if sorted != [] && sorted[|sorted| - 1].start > cue.start {
      var init, last := sorted[..|sorted| - 1], sorted[|sorted| - 1];
      assert sorted == init + [last];
      InsertSorted(init, cue);
      assert forall i :: 0 <= i < |init| ==> init[i].start <= last.start;
      InsertBelow(init, cue, last.start);
      SortedSnoc(InsertByStart(init, cue), last);
    }
  }

  /** Inserting a cue that starts no later than a bound into a list whose cues
      all do keeps that so. */
  lemma InsertBelow(cues: seq<Cue>, cue: Cue, bound: real)
    requires forall i :: 0 <= i < |cues| ==> cues[i].start <= bound
    requires cue.start <= bound
    ensures forall i :: 0 <= i < |InsertByStart(cues, cue)| ==> InsertByStart(cues, cue)[i].start <= bound
  {
    InsertPermutes(cues, cue);
    var r := InsertByStart(cues, cue);
    forall i | 0 <= i < |r|
      ensures r[i].start <= bound
    {
      assert r[i] in multiset(r);
      assert r[i] in multiset(cues) || r[i] == cue;
    }
  }

  /** A cue that starts no earlier than every cue of a sorted list can follow it. */
  lemma SortedSnoc(front: seq<Cue>, last: Cue)
    requires SortedByStart(front)
    requires forall i :: 0 <= i < |front| ==> front[i].start <= last.start
    ensures SortedByStart(front + [last])
  {
  }

  /** The sort puts the cues in order of start. */
  lemma {:induction false} SortSorted(cues: seq<Cue>)
    ensures SortedByStart(SortByStart(cues))
    ensures multiset(SortByStart(cues)) == multiset(cues)
    decreases |cues|
  {
    if cues != [] {
      var init, last := cues[..|cues| - 1], cues[|cues| - 1];
      assert cues == init + [last];
      SortSorted(init);
      InsertSorted(SortByStart(init), last);
      InsertPermutes(SortByStart(init), last);
    }
  }

  /** The cues that start at time t, in list order. */
  function StartingAt(cues: seq<Cue>, t: real): seq<Cue>
    decreases |cues|
  {
    if cues == [] then []
    else
      var last := cues[|cues| - 1];
      StartingAt(cues[..|cues| - 1], t) + (if last.start == t then [last] else [])
  }

  lemma {:induction false} InsertStartingAt(sorted: seq<Cue>, cue: Cue, t: real)
    requires SortedByStart(sorted)
    ensures StartingAt(InsertByStart(sorted, cue), t) ==
      StartingAt(sorted, t) + (if cue.start == t then [cue] else [])
    decreases |sorted|
  {
    if sorted == [] || sorted[|sorted| - 1].start <= cue.start {
      assert (sorted + [cue])[..|sorted|] == sorted;
    } else {
      var init, last := sorted[..|sorted| - 1], sorted[|sorted| - 1];
      InsertStartingAt(init, cue, t);
      var front := InsertByStart(init, cue);
      assert (front + [last])[..|front|] == front;
    }
  }

  /** The sort is stable: the cues that start together come out in the order
      they went in. */
  lemma {:induction false} SortStable(cues: seq<Cue>, t: real)
    ensures StartingAt(SortByStart(cues), t) == StartingAt(cues, t)
    decreases |cues|
  {
    if cues != [] {
      var init, last := cues[..|cues| - 1], cues[|cues| - 1];
      SortSorted(init);
      SortStable(init, t);
      InsertStartingAt(SortByStart(init), last, t);
    }
  }

  /** A list already in order is left as it is. */
  lemma {:induction false} SortKeepsSorted(cues: seq<Cue>)
    requires SortedByStart(cues)
    ensures SortByStart(cues) == cues
    decreases |cues|
  {
    if cues != [] {
      var init := cues[..|cues| - 1];
      assert SortedByStart(init);
      SortKeepsSorted(init);
      assert cues == init + [cues[|cues| - 1]];
    }
  }

  // ------------------------------------------------------------- removal

  /** shouldBlockBeRemoved: the cue starts or ends strictly inside the
      interval from..till. */
  predicate ShouldBlockBeRemoved(cue: Cue, from: real, till: real) {
    (from < cue.start && cue.start < till) || (from < cue.end && cue.end < till)
  }

  /** The cues remove leaves, in their order, renumbered from 0. */
  function Survivors(cues: seq<Cue>, from: real, till: real): (r: seq<Cue>)
    ensures |r| <= |cues|
    decreases |cues|
  {
    if cues == [] then []
    else
      var last := cues[|cues| - 1];
      Survivors(cues[..|cues| - 1], from, till) + (if ShouldBlockBeRemoved(last, from, till) then [] else [last])
  }

  /** remove deletes exactly the cues that start or end inside the interval. */
  lemma {:induction false} SurvivorsMembers(cues: seq<Cue>, from: real, till: real)
    ensures forall c :: c in Survivors(cues, from, till) <==> c in cues && !ShouldBlockBeRemoved(c, from, till)
    decreases |cues|
  {
    if cues != [] {
      var init := cues[..|cues| - 1];
      SurvivorsMembers(init, from, till);
      assert cues == init + [cues[|cues| - 1]];
    }
  }

  /** remove keeps the order of the list: it filters each part on its own. */
  lemma {:induction false} SurvivorsAppend(a: seq<Cue>, b: seq<Cue>, from: real, till: real)
    ensures Survivors(a + b, from, till) == Survivors(a, from, till) + Survivors(b, from, till)
    decreases |b|
  {
    if b == [] {
      assert a + b == a;
    } else {
      var init, last := b[..|b| - 1], b[|b| - 1];
      assert (a + b)[..|a + b| - 1] == a + init;
      SurvivorsAppend(a, init, from, till);
    }
  }

  /** A list in order of start stays in order. */
  lemma {:induction false} SurvivorsSorted(cues: seq<Cue>, from: real, till: real)
    requires SortedByStart(cues)
    ensures SortedByStart(Survivors(cues, from, till))
    decreases |cues|
  {
    if cues != [] {
      var init, last := cues[..|cues| - 1], cues[|cues| - 1];
      assert SortedByStart(init);
      SurvivorsSorted(init, from, till);
      SurvivorsMembers(init, from, till);
      var kept := Survivors(init, from, till);
      forall i | 0 <= i < |kept|
        ensures kept[i].start <= last.start
      {
        assert kept[i] in init;
      }
    }
  }

  // ------------------------------------------------------------- times

  /** maxTime: the latest end, or 0 when no cue ends later than 0. */
  function MaxEnd(cues: seq<Cue>): real
    decreases |cues|
  {
    if cues == [] then 0.0
    else
      var before := MaxEnd(cues[..|cues| - 1]);
      var last := cues[|cues| - 1];
      if before < last.end then last.end else before
  }

  /** The latest end is at least 0, no cue ends later, and unless it is 0
      some cue ends there. */
  lemma {:induction false} MaxEndIsLatest(cues: seq<Cue>)
    ensures MaxEnd(cues) >= 0.0
    ensures forall i :: 0 <= i < |cues| ==> cues[i].end <= MaxEnd(cues)
    ensures MaxEnd(cues) == 0.0 || exists i :: 0 <= i < |cues| && cues[i].end == MaxEnd(cues)
    decreases |cues|
  {
    if cues != [] {
      var init := cues[..|cues| - 1];
      MaxEndIsLatest(init);
      if MaxEnd(cues) != 0.0 && MaxEnd(cues) == MaxEnd(init) {
        var i :| 0 <= i < |init| && init[i].end == MaxEnd(init);
        assert cues[i] == init[i];
      }
    }
  }

  /** A cue moved by some seconds. */
  function ShiftCue(cue: Cue, seconds: real): Cue {
    Cue(cue.start + seconds, cue.end + seconds, cue.lines)
  }

  /** The list with the cues selected by their start and end moved by some
      seconds, before it is sorted again. */
  function Shifted(cues: seq<Cue>, seconds: real, selects: (real, real) -> bool): (r: seq<Cue>)
    ensures |r| == |cues|
    decreases |cues|
  {
    if cues == [] then []
    else
      var last := cues[|cues| - 1];
      Shifted(cues[..|cues| - 1], seconds, selects) + [if selects(last.start, last.end) then ShiftCue(last, seconds) else last]
  }

  /** Each selected cue has both its times moved; every other cue, and the
      lines of every cue, stay as they were. */
  lemma {:induction false} ShiftedCues(cues: seq<Cue>, seconds: real, selects: (real, real) -> bool)
    ensures forall i :: 0 <= i < |cues| ==>
      (Shifted(cues, seconds, selects)[i] ==
        if selects(cues[i].start, cues[i].end) then Cue(cues[i].start + seconds, cues[i].end + seconds, cues[i].lines) else cues[i])
    decreases |cues|
  {
    if cues != [] {
      ShiftedCues(cues[..|cues| - 1], seconds, selects);
    }
  }

  /** Two shifts of every cue are one shift by the sum. */
  lemma {:induction false} ShiftTwice(cues: seq<Cue>, a: real, b: real, selects: (real, real) -> bool)
    requires forall s, e :: selects(s, e)
    ensures Shifted(Shifted(cues, a, selects), b, selects) == Shifted(cues, a + b, selects)
    decreases |cues|
  {
    if cues != [] {
      var init := cues[..|cues| - 1];
      ShiftTwice(init, a, b, selects);
      var once := Shifted(cues, a, selects);
      assert once[..|once| - 1] == Shifted(init, a, selects);
    }
  }

  /** A shift by 0 changes nothing. */
  lemma {:induction false} ShiftByZero(cues: seq<Cue>, selects: (real, real) -> bool)
    ensures Shifted(cues, 0.0, selects) == cues
    decreases |cues|
  {
    if cues != [] {
      ShiftByZero(cues[..|cues| - 1], selects);
      assert cues == cues[..|cues| - 1] + [cues[|cues| - 1]];
    }
  }

  // ------------------------------------------------------------- the document

  class Subtitles {
    /** The cues in the internal format. */
    var internalFormat: seq<Cue>

    constructor()
      ensures internalFormat == []
    {
      internalFormat := [];
    }

    /** add: append one cue, then sort again. */
    method Add(start: real, end: real, text: CueText)
      modifies this
      ensures internalFormat == SortByStart(old(internalFormat) + [Cue(start, end, LinesOf(text))])
      ensures SortedByStart(internalFormat)
      ensures multiset(internalFormat) == multiset(old(internalFormat)) + multiset{Cue(start, end, LinesOf(text))}
    {
      var cue := Cue(start, end, LinesOf(text));
      internalFormat := internalFormat + [cue];
      SortInternalFormat();
    }

    /** sortInternalFormat: usort by start. */
    method SortInternalFormat()
      modifies this
      ensures internalFormat == SortByStart(old(internalFormat))
      ensures SortedByStart(internalFormat) && multiset(internalFormat) == multiset(old(internalFormat))
    {
      SortSorted(internalFormat);
      internalFormat := SortByStart(internalFormat);
    }

    /** remove: every cue that starts or ends strictly inside from..till is
      unset, then the rest are renumbered. */
    method Remove(from: real, till: real)
      modifies this
      ensures internalFormat == Survivors(old(internalFormat), from, till)
    {
      var kept := [];
      var k := 0;
      while k < |internalFormat|
        invariant 0 <= k <= |internalFormat|
        invariant kept == Survivors(internalFormat[..k], from, till)
      {
        var block := internalFormat[k];
        assert internalFormat[..k + 1][..k] == internalFormat[..k];
        if !ShouldBlockBeRemoved(block, from, till) {
          kept := kept + [block];
        }
        k := k + 1;
      }
      assert internalFormat[..k] == internalFormat;
      internalFormat := kept;
    }

    /** maxTime: the latest end of a cue, starting from 0. */
    method MaxTime() returns (maxTime: real)
      ensures maxTime == MaxEnd(internalFormat)
      ensures maxTime >= 0.0 && forall i :: 0 <= i < |internalFormat| ==> internalFormat[i].end <= maxTime
      ensures maxTime == 0.0 || exists i :: 0 <= i < |internalFormat| && internalFormat[i].end == maxTime
    {
      maxTime := 0.0;
      var k := 0;
      while k < |internalFormat|
        invariant 0 <= k <= |internalFormat|
        invariant maxTime == MaxEnd(internalFormat[..k])
      {
        assert internalFormat[..k + 1][..k] == internalFormat[..k];
        if maxTime < internalFormat[k].end {
          maxTime := internalFormat[k].end;
        }
        k := k + 1;
      }
      assert internalFormat[..k] == internalFormat;
      MaxEndIsLatest(internalFormat);
    }

    /** trim: remove what starts or ends between 0 and startTime, then what
      starts or ends between endTime and the latest end left. */
    method Trim(startTime: real, endTime: real)
      modifies this
      ensures var first := Survivors(old(internalFormat), 0.0, startTime);
        internalFormat == Survivors(first, endTime, MaxEnd(first))
    {
      Remove(0.0, startTime);
      var maxTime := MaxTime();
      Remove(endTime, maxTime);
    }

    /** shiftTime: move the cues the selection picks by some seconds, then sort
      again. selects(start, end) stands for shouldBlockTimeBeShifted with
      the call's from and till. */
    method ShiftTime(seconds: real, selects: (real, real) -> bool)
      modifies this
      ensures internalFormat == SortByStart(Shifted(old(internalFormat), seconds, selects))
    {
      var k := 0;
      while k < |internalFormat|
        invariant 0 <= k <= |internalFormat| == |old(internalFormat)|
        invariant internalFormat == Shifted(old(internalFormat)[..k], seconds, selects) + old(internalFormat)[k..]
      {
        var block := internalFormat[k];
        ShiftStep(old(internalFormat), k, seconds, selects, internalFormat);
        if selects(block.start, block.end) {
          internalFormat := internalFormat[k := ShiftCue(block, seconds)];
        }
        k := k + 1;
      }
      assert old(internalFormat)[..k] == old(internalFormat);
      assert old(internalFormat)[k..] == [];
      assert internalFormat == Shifted(old(internalFormat), seconds, selects);
      SortInternalFormat();
    }

    /** One more turn of the shiftTime loop: cue k is moved if selected. */
    static lemma ShiftStep(before: seq<Cue>, k: nat, seconds: real, selects: (real, real) -> bool, current: seq<Cue>)
      requires k < |before| && current == Shifted(before[..k], seconds, selects) + before[k..]
      ensures current[k] == before[k]
      ensures (if selects(before[k].start, before[k].end) then current[k := ShiftCue(before[k], seconds)] else current)
        == Shifted(before[..k + 1], seconds, selects) + before[k + 1..]
    {
      assert before[..k + 1][..k] == before[..k];
      assert before[k..] == [before[k]] + before[k + 1..];
    }

    /** getInternalFormat. */
    function GetInternalFormat(): seq<Cue>
      reads this
    {
      internalFormat
    }

    /** setInternalFormat: what is set is what get returns. */
    method SetInternalFormat(cues: seq<Cue>)
      modifies this
      ensures GetInternalFormat() == cues
    {
      internalFormat := cues;
    }
  }

  // ------------------------------------------------------------- trim

  /** A cue that lies within startTime..endTime survives trim. */
  lemma TrimKeepsCuesInside(cues: seq<Cue>, startTime: real, endTime: real, c: Cue)
    requires c in cues && startTime <= c.start <= c.end <= endTime
    ensures var first := Survivors(cues, 0.0, startTime);
      c in Survivors(first, endTime, MaxEnd(first))
  {
    var first := Survivors(cues, 0.0, startTime);
    SurvivorsMembers(cues, 0.0, startTime);
    SurvivorsMembers(first, endTime, MaxEnd(first));
  }

  /** A cue that ends before startTime, or starts after endTime without
      ending last, is gone after trim. */
  lemma TrimRemovesCuesOutside(cues: seq<Cue>, startTime: real, endTime: real, c: Cue)
    requires c in cues && 0.0 < c.start <= c.end
    requires c.end < startTime || (endTime < c.start && exists d :: d in cues && startTime <= d.start && startTime <= d.end && c.end < d.end)
    ensures var first := Survivors(cues, 0.0, startTime);
      c !in Survivors(first, endTime, MaxEnd(first))
  {
    var first := Survivors(cues, 0.0, startTime);
    SurvivorsMembers(cues, 0.0, startTime);
    SurvivorsMembers(first, endTime, MaxEnd(first));
    if c in first && endTime < c.start {
      var d :| d in cues && startTime <= d.start && startTime <= d.end && c.end < d.end;
      assert d in first;
      MaxEndIsLatest(first);
      var i :| 0 <= i < |first| && first[i] == d;
      assert c.end < MaxEnd(first);
    }
  }
}
