/** Broadcast timecodes of the SCC converter: HH:MM:SS:FF at 29.97 frames per
    second, against times in seconds. */
module SccTime {
  import opened Numerals
  import opened Text

  /** The frame rate. 29.97 is an exact rational here, not a binary float. */
  const Fps: real := 29.97

  /** What the record scan admits as a timecode: four two-digit fields
      separated by colons. */
  predicate IsTimecode(t: string) {
    |t| == 11 && t[2] == ':' && t[5] == ':' && t[8] == ':' &&
    AllDigits(t[0..2]) && AllDigits(t[3..5]) && AllDigits(t[6..8]) && AllDigits(t[9..11])
  }

  /** Field k (hours, minutes, seconds, frames) of a timecode. */
  function Field(t: string, k: nat): nat
    requires IsTimecode(t) && k < 4
  {
    DecimalValue(t[3 * k..3 * k + 2])
  }

  lemma NoColonInDigits(s: string)
    requires AllDigits(s)
    ensures ':' !in s
  {
  }

  lemma {:induction false} SplitTimecode(t: string)
    requires IsTimecode(t)
    ensures Split(t, ':') == [t[0..2], t[3..5], t[6..8], t[9..11]]
  {
    NoColonInDigits(t[0..2]);
    NoColonInDigits(t[3..5]);
    NoColonInDigits(t[6..8]);
    NoColonInDigits(t[9..11]);
    var rest2 := t[6..8] + [':'] + t[9..11];
    var rest1 := t[3..5] + [':'] + rest2;
    assert t == t[0..2] + [':'] + rest1;
    SplitAround(t[0..2], rest1, ':');
    SplitAround(t[3..5], rest2, ':');
    SplitAround(t[6..8], t[9..11], ':');
    SplitWithout(t[0..2], ':');
    SplitWithout(t[3..5], ':');
    SplitWithout(t[6..8], ':');
    SplitWithout(t[9..11], ':');
  }

  /** sccTimeToInternal: the fields are read off the pieces of explode(':'),
      and the time is H*3600 + M*60 + S + F/29.97 seconds. */
  function SccTimeToInternal(t: string): (r: real)
    requires IsTimecode(t)
    ensures r == (Field(t, 0) * 3600 + Field(t, 1) * 60 + Field(t, 2)) as real + Field(t, 3) as real / Fps
  {
    SplitTimecode(t);
    var parts := Split(t, ':');
    (DecimalValue(parts[0]) * 3600 + DecimalValue(parts[1]) * 60 + DecimalValue(parts[2])) as real
      + DecimalValue(parts[3]) as real / Fps
  }

  /** (int) of the part of a time's string form before the '.': truncation
      toward zero. */
  function Trunc(t: real): int {
    if t >= 0.0 then t.Floor else -((-t).Floor)
  }

  /** round() of a non-negative number: halves go up. */
  function Round(x: real): int
    requires x >= 0.0
  {
    (x + 0.5).Floor
  }

  /** The largest frame number written: floor(29.97). */
  const MaxFrame: int := Fps.Floor

  /** sprintf("%02d") of four fields joined by colons. */
  function Timecode(h: nat, m: nat, s: nat, f: nat): string
    requires h < 100 && m < 100 && s < 100 && f < 100
  {
    Pad2(h) + ":" + Pad2(m) + ":" + Pad2(s) + ":" + Pad2(f)
  }

  /** The fields written are the fields read. */
  lemma TimecodeFields(h: nat, m: nat, s: nat, f: nat)
    requires h < 100 && m < 100 && s < 100 && f < 100
    ensures IsTimecode(Timecode(h, m, s, f))
    ensures Field(Timecode(h, m, s, f), 0) == h && Field(Timecode(h, m, s, f), 1) == m
    ensures Field(Timecode(h, m, s, f), 2) == s && Field(Timecode(h, m, s, f), 3) == f
  {
    var r := Timecode(h, m, s, f);
    Pad2Value(h);
    Pad2Value(m);
    Pad2Value(s);
    Pad2Value(f);
    assert r[0..2] == Pad2(h) && r[3..5] == Pad2(m);
    assert r[6..8] == Pad2(s) && r[9..11] == Pad2(f);
  }

  /** A timecode is written back from its own fields. */
  lemma TimecodeOfFields(tc: string)
    requires IsTimecode(tc)
    ensures Field(tc, 0) < 100 && Field(tc, 1) < 100 && Field(tc, 2) < 100 && Field(tc, 3) < 100
    ensures Timecode(Field(tc, 0), Field(tc, 1), Field(tc, 2), Field(tc, 3)) == tc
  {
    Pad2OfDecimal(tc[0..2]);
    Pad2OfDecimal(tc[3..5]);
    Pad2OfDecimal(tc[6..8]);
    Pad2OfDecimal(tc[9..11]);
    assert tc == tc[0..2] + ":" + tc[3..5] + ":" + tc[6..8] + ":" + tc[9..11];
  }

  /** The frame of a fraction of a second: round(fraction * 29.97), capped
      at floor(29.97) = 29. */
  function Frame(decimal: real): (f: int)
    requires 0.0 <= decimal < 1.0
    ensures 0 <= f <= 29
  {
    var rounded := Round(decimal * Fps);
    if rounded < MaxFrame then rounded else MaxFrame
  }

  /** gmdate("H:i:s") of a count of seconds within one day, followed by the
      frame field. */
  function ClockTimecode(day: int, f: int): string
    requires 0 <= day < 86400 && 0 <= f <= 29
  {
    Timecode(day / 3600, day / 60 % 60, day % 60, f)
  }

  /** The fields of a time of day's timecode are those of a clock. */
  lemma ClockTimecodeFields(day: int, f: int)
    requires 0 <= day < 86400 && 0 <= f <= 29
    ensures var r := ClockTimecode(day, f);
      IsTimecode(r) && Field(r, 0) < 24 && Field(r, 1) < 60 && Field(r, 2) < 60 && Field(r, 3) <= 29
  {
    TimecodeFields(day / 3600, day / 60 % 60, day % 60, f);
  }

  /** internalTimeToScc: the whole seconds go through gmdate("H:i:s"), which
      shows the time of day (the hours wrap at 24, a negative count wraps
      back from midnight); the fraction becomes round(fraction * 29.97)
      frames, capped at floor(29.97) = 29 so that it never carries into the
      next second. */
  function InternalTimeToScc(t: real): string
  {
    var whole := Trunc(t);
    var decimal := if t - whole as real >= 0.0 then t - whole as real else whole as real - t;
    ClockTimecode(whole % 86400, Frame(decimal))
  }

  /** Every time, negative or past a day, is written as a timecode of a time
      of day whose frame field is at most 29. */
  lemma InternalTimeToSccFields(t: real)
    ensures var r := InternalTimeToScc(t);
      IsTimecode(r) && Field(r, 0) < 24 && Field(r, 1) < 60 && Field(r, 2) < 60 && Field(r, 3) <= 29
  {
    var whole := Trunc(t);
    var decimal := if t - whole as real >= 0.0 then t - whole as real else whole as real - t;
    ClockTimecodeFields(whole % 86400, Frame(decimal));
  }

  /** A time of day splits into hours, minutes and seconds and back. */
  lemma DayDecomposition(day: int)
    requires 0 <= day < 86400
    ensures day / 3600 * 3600 + day / 60 % 60 * 60 + day % 60 == day
  {
  }

  /** The time of a timecode whose frame field is below 30 has the timecode's
      whole seconds as its integer part, and its frames as the frame of its
      fraction. */
  lemma WholeAndFrames(n: nat, f: nat)
    requires f <= 29
    ensures var t := n as real + f as real / Fps;
      t.Floor == n && t - n as real == f as real / Fps && Frame(f as real / Fps) == f
  {
    var t := n as real + f as real / Fps;
    assert 0.0 <= f as real / Fps < 1.0;
    assert n as real <= t < n as real + 1.0;
    assert (f as real / Fps) * Fps == f as real;
    assert MaxFrame == 29;
  }

  lemma DayFields(h: nat, m: nat, s: nat)
    requires h < 24 && m < 60 && s < 60
    ensures var n := h * 3600 + m * 60 + s;
      n < 86400 && n / 3600 == h && n / 60 % 60 == m && n % 60 == s
  {
    var n := h * 3600 + m * 60 + s;
    assert 0 <= m * 60 + s < 3600;
    assert n / 60 == h * 60 + m;
  }

  /** The frame of a fraction is within half a frame of it, or, capped, in
      the last half frame of the second. */
  lemma FrameWithin(decimal: real)
    requires 0.0 <= decimal < 1.0
    ensures -1.0 < Frame(decimal) as real - decimal * Fps <= 0.5
    ensures Frame(decimal) < MaxFrame ==> -0.5 < Frame(decimal) as real - decimal * Fps
    ensures Frame(decimal) == MaxFrame ==> 28.5 <= decimal * Fps
  {
    var rounded := Round(decimal * Fps);
    assert rounded as real <= decimal * Fps + 0.5 < rounded as real + 1.0;
    assert MaxFrame == 29;
    if rounded >= MaxFrame {
      assert 28.5 <= decimal * Fps < Fps;
    }
  }

  /** A time within the first day is written from its whole seconds and the
      frame of its fraction. */
  lemma SccOfDayTime(t: real)
    requires 0.0 <= t < 86400.0
    ensures var whole := t.Floor;
      0 <= whole < 86400 && 0.0 <= t - whole as real < 1.0 &&
      InternalTimeToScc(t) == ClockTimecode(whole, Frame(t - whole as real))
  {
    var whole := t.Floor;
    assert Trunc(t) == whole;
    assert 0 <= whole < 86400;
    assert whole % 86400 == whole;
    assert t - whole as real >= 0.0;
  }

  /** The timecode of a time of day reads back as that many seconds plus its
      frames. */
  lemma ClockTimecodeTime(day: int, f: int)
    requires 0 <= day < 86400 && 0 <= f <= 29
    ensures IsTimecode(ClockTimecode(day, f))
    ensures SccTimeToInternal(ClockTimecode(day, f)) == day as real + f as real / Fps
  {
    TimecodeFields(day / 3600, day / 60 % 60, day % 60, f);
    DayDecomposition(day);
  }

  /** Writing a time and reading it back stays within the same second and
      within one frame of the time: the cap at frame 29 moves a time in the
      last half frame of a second down, never into the next second. */
  lemma {:induction false} FormatThenParseWithinFrame(t: real)
    requires 0.0 <= t < 86400.0
    ensures var p := SccTimeToInternal(InternalTimeToScc(t));
      t.Floor as real <= p < t.Floor as real + 1.0 && -1.0 / Fps < p - t < 1.0 / Fps
  {
    var whole := t.Floor;
    var decimal := t - whole as real;
    SccOfDayTime(t);
    var f := Frame(decimal);
    ClockTimecodeTime(whole, f);
    var p := SccTimeToInternal(InternalTimeToScc(t));
    assert p == whole as real + f as real / Fps;
    FrameWithin(decimal);
    assert p - t == (f as real - decimal * Fps) / Fps;
  }

  /** A timecode of a valid time of day with a frame below 30 is read and
      written back unchanged. */
  lemma {:induction false} ParseThenFormat(tc: string)
    requires IsTimecode(tc)
    requires Field(tc, 0) < 24 && Field(tc, 1) < 60 && Field(tc, 2) < 60 && Field(tc, 3) <= 29
    ensures InternalTimeToScc(SccTimeToInternal(tc)) == tc
  {
    var h, m, s, f := Field(tc, 0), Field(tc, 1), Field(tc, 2), Field(tc, 3);
    var n := h * 3600 + m * 60 + s;
    var t := SccTimeToInternal(tc);
    assert t.Floor == n && t - n as real == f as real / Fps && Frame(f as real / Fps) == f by {
      WholeAndFrames(n, f);
    }
    calc {
      InternalTimeToScc(t);
    == { SccOfDayTime(t); }
      ClockTimecode(t.Floor, Frame(t - t.Floor as real));
    ==
      ClockTimecode(n, f);
    == { ClockOfFields(h, m, s, f); }
      Timecode(h, m, s, f);
    == { TimecodeOfFields(tc); }
      tc;
    }
  }

  /** The timecode of h hours, m minutes and s seconds shows those fields. */
  lemma ClockOfFields(h: nat, m: nat, s: nat, f: nat)
    requires h < 24 && m < 60 && s < 60 && f <= 29
    ensures h * 3600 + m * 60 + s < 86400
    ensures ClockTimecode(h * 3600 + m * 60 + s, f) == Timecode(h, m, s, f)
  {
    DayFields(h, m, s);
  }
}
