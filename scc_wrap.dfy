/** The line wrapper of the SCC encoder (splitLongLines): a caption row holds
    at most 32 characters. Lengths are counted in characters; the source
    counts bytes, which is the same for single-byte text. */
module SccWrap {
  import opened Wrappers

  /** The longest row an SCC caption can show. */
  const LineLimit: nat := 32

  /** strrpos($s, ' '): where the last space is, if any. */
  function LastSpace(s: string): (r: Option<nat>)
    ensures r.None? <==> ' ' !in s
    ensures r.Some? ==> r.value < |s| && s[r.value] == ' ' && ' ' !in s[r.value + 1..]
    decreases |s|
  {
    if s == [] then None
    else if s[|s| - 1] == ' ' then Some(|s| - 1)
    else
      var r := LastSpace(s[..|s| - 1]);
      assert s == s[..|s| - 1] + [s[|s| - 1]];
      r
  }

  /** The rows one line is cut into: while the rest is too long, cut at the
      last space among its first 32 characters and drop that space, or cut
      after exactly 32 characters when there is none. */
  function WrapLine(line: string): (r: seq<string>)
    ensures |r| >= 1
    decreases |line|
  {
    if |line| <= LineLimit then [line]
    else match LastSpace(line[..LineLimit])
      case None => [line[..LineLimit]] + WrapLine(line[LineLimit..])
      case Some(p) => [line[..p]] + WrapLine(line[p + 1..])
  }

  /** The rows of all lines, line after line. */
  function WrapLines(lines: seq<string>): (r: seq<string>)
    ensures |r| >= |lines|
    decreases |lines|
  {
    if lines == [] then []
    else WrapLines(lines[..|lines| - 1]) + WrapLine(lines[|lines| - 1])
  }

  /** Every row of a wrapped line fits. */
  lemma {:induction false} WrapLineFits(line: string)
    ensures forall i :: 0 <= i < |WrapLine(line)| ==> |WrapLine(line)[i]| <= LineLimit
    decreases |line|
  {
    if |line| > LineLimit {
      match LastSpace(line[..LineLimit])
      case None => WrapLineFits(line[LineLimit..]);
      case Some(p) => WrapLineFits(line[p + 1..]);
    }
  }

  /** Every row of the wrapped lines fits. */
  lemma {:induction false} WrapLinesFit(lines: seq<string>)
    ensures forall i :: 0 <= i < |WrapLines(lines)| ==> |WrapLines(lines)[i]| <= LineLimit
    decreases |lines|
  {
    if lines != [] {
      WrapLinesFit(lines[..|lines| - 1]);
      WrapLineFits(lines[|lines| - 1]);
    }
  }

  /** splitLongLines, as the source runs it: a loop over the lines that
      shortens the current line piece by piece. */
  method SplitLongLines(lines: seq<string>) returns (result: seq<string>)
    ensures result == WrapLines(lines)
  {
    result := [];
    var i := 0;
    while i < |lines|
      invariant 0 <= i <= |lines|
      invariant result == WrapLines(lines[..i])
    {
      var line := lines[i];
      assert lines[..i + 1][..i] == lines[..i];
      while |line| > LineLimit
        invariant result + WrapLine(line) == WrapLines(lines[..i + 1])
        decreases |line|
      {
        var pos := LastSpace(line[..LineLimit]);
        var row, rest;
        if pos.None? {
          row, rest := line[..LineLimit], line[LineLimit..];
        } else {
          row, rest := line[..pos.value], line[pos.value + 1..];
        }
        assert WrapLine(line) == [row] + WrapLine(rest);
        result, line := result + [row], rest;
      }
      result := result + [line];
      i := i + 1;
    }
    assert lines[..i] == lines;
  }

  /** The lines of a concatenation wrap to the concatenation of the rows. */
  lemma {:induction false} WrapLinesAppend(a: seq<string>, b: seq<string>)
    ensures WrapLines(a + b) == WrapLines(a) + WrapLines(b)
    decreases |b|
  {
    if b != [] {
      assert (a + b)[..|a + b| - 1] == a + b[..|b| - 1];
      WrapLinesAppend(a, b[..|b| - 1]);
    } else {
      assert a + b == a;
    }
  }

  /** Lines that already fit are left as they are. */
  lemma {:induction false} WrapLinesKeepsShortLines(lines: seq<string>)
    requires forall i :: 0 <= i < |lines| ==> |lines[i]| <= LineLimit
    ensures WrapLines(lines) == lines
    decreases |lines|
  {
    if lines != [] {
      WrapLinesKeepsShortLines(lines[..|lines| - 1]);
    }
  }

  /** Wrapping is idempotent: wrapped rows wrap to themselves. */
  lemma WrapLinesIdempotent(lines: seq<string>)
    ensures WrapLines(WrapLines(lines)) == WrapLines(lines)
  {
    WrapLinesFit(lines);
    WrapLinesKeepsShortLines(WrapLines(lines));
  }

  /** Where each cut was made: true for a cut at a space (the space is
      dropped), false for a hard cut after 32 characters. */
  function Cuts(line: string): seq<bool>
    decreases |line|
  {
    if |line| <= LineLimit then []
    else match LastSpace(line[..LineLimit])
      case None => [false] + Cuts(line[LineLimit..])
      case Some(p) => [true] + Cuts(line[p + 1..])
  }

  /** Glues rows back together, putting a space back at each cut made at a
      space. */
  function Rejoin(rows: seq<string>, cuts: seq<bool>): string
    requires |rows| == |cuts| + 1
    decreases |cuts|
  {
    if cuts == [] then rows[0]
    else rows[0] + (if cuts[0] then " " else "") + Rejoin(rows[1..], cuts[1..])
  }

  /** Wrapping loses no character but the one space at each cut made at a
      space; a hard cut comes after exactly 32 characters and a cut at a
      space leaves fewer than 32 before it. */
  lemma {:induction false} WrapLineLosesOnlyCutSpaces(line: string)
    ensures |Cuts(line)| + 1 == |WrapLine(line)|
    ensures Rejoin(WrapLine(line), Cuts(line)) == line
    ensures forall k :: 0 <= k < |Cuts(line)| ==>
      if Cuts(line)[k] then |WrapLine(line)[k]| < LineLimit else |WrapLine(line)[k]| == LineLimit
    decreases |line|
  {
    if |line| > LineLimit {
      match LastSpace(line[..LineLimit])
      case None =>
        var rest := line[LineLimit..];
        WrapLineLosesOnlyCutSpaces(rest);
        assert line == line[..LineLimit] + rest;
      case Some(p) =>
        var rest := line[p + 1..];
        WrapLineLosesOnlyCutSpaces(rest);
        assert line == line[..p] + " " + rest;
    }
  }
}
