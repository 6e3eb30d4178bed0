/** The PHP string functions the converters rely on, on strings of characters. */
module Text {

  /** explode() with a one-character delimiter: the pieces between delimiters,
      always at least one. */
  function Split(s: string, sep: char): (r: seq<string>)
    ensures |r| >= 1
    decreases |s|
  {
    if s == [] then [""]
    else
      var rest := Split(s[1..], sep);
      if s[0] == sep then [""] + rest
      else [[s[0]] + rest[0]] + rest[1..]
  }

  /** No piece of explode() holds the delimiter. */
  lemma {:induction false} SplitPiecesLackSeparator(s: string, sep: char)
    ensures forall i :: 0 <= i < |Split(s, sep)| ==> sep !in Split(s, sep)[i]
    decreases |s|
  {
    if s != [] {
      SplitPiecesLackSeparator(s[1..], sep);
    }
  }

  /** The strings f gives for the parts, concatenated in order. */
  function ConcatMap(f: string -> string, parts: seq<string>): string
    decreases |parts|
  {
    if parts == [] then "" else ConcatMap(f, parts[..|parts| - 1]) + f(parts[|parts| - 1])
  }

  lemma {:induction false} ConcatMapAppend(f: string -> string, xs: seq<string>, ys: seq<string>)
    ensures ConcatMap(f, xs + ys) == ConcatMap(f, xs) + ConcatMap(f, ys)
    decreases |ys|
  {
    if ys == [] {
      assert xs + ys == xs;
    } else {
      var init, last := ys[..|ys| - 1], ys[|ys| - 1];
      calc {
        ConcatMap(f, xs + ys);
      == { assert xs + ys == (xs + init) + [last]; }
        ConcatMap(f, (xs + init) + [last]);
      == { ConcatMapSnoc(f, xs + init, last); }
        ConcatMap(f, xs + init) + f(last);
      == { ConcatMapAppend(f, xs, init); }
        ConcatMap(f, xs) + ConcatMap(f, init) + f(last);
      == { assert ys == init + [last]; ConcatMapSnoc(f, init, last); }
        ConcatMap(f, xs) + ConcatMap(f, ys);
      }
    }
  }

  /** One more part adds its string at the end. */
  lemma {:induction false} ConcatMapSnoc(f: string -> string, xs: seq<string>, x: string)
    ensures ConcatMap(f, xs + [x]) == ConcatMap(f, xs) + f(x)
  {
    assert (xs + [x])[..|xs|] == xs;
  }

  /** implode() with a one-character glue. */
  function Join(parts: seq<string>, sep: char): string
    decreases |parts|
  {
    if |parts| == 0 then ""
    else if |parts| == 1 then parts[0]
    else parts[0] + [sep] + Join(parts[1..], sep)
  }

  /** Imploding two lists joins their strings with one more glue character between them. */
  lemma {:induction false} JoinAppend(a: seq<string>, b: seq<string>, sep: char)
    requires |a| >= 1 && |b| >= 1
    ensures Join(a + b, sep) == Join(a, sep) + [sep] + Join(b, sep)
    decreases |a|
  {
    if |a| == 1 {
      assert (a + b)[1..] == b;
    } else {
      assert (a + b)[1..] == a[1..] + b;
      JoinAppend(a[1..], b, sep);
    }
  }

  /** Splitting at a delimiter that is present splits the two sides apart. */
  lemma {:induction false} SplitAround(a: string, b: string, sep: char)
    ensures Split(a + [sep] + b, sep) == Split(a, sep) + Split(b, sep)
    decreases |a|
  {
    if a == [] {
      assert a + [sep] + b == [sep] + b;
      assert ([sep] + b)[1..] == b;
    } else {
      SplitAround(a[1..], b, sep);
      SplitAroundStep(a, b, sep);
    }
  }

  /** The inductive step of SplitAround: from the rest of a to all of it. */
  lemma {:induction false} SplitAroundStep(a: string, b: string, sep: char)
    requires a != []
    requires Split(a[1..] + [sep] + b, sep) == Split(a[1..], sep) + Split(b, sep)
    ensures Split(a + [sep] + b, sep) == Split(a, sep) + Split(b, sep)
  {
    var s := a + [sep] + b;
    assert s[0] == a[0] && s[1..] == a[1..] + [sep] + b;
    SplitFirst(s, sep);
    SplitFirst(a, sep);
    var ra, rb, sa, ss := Split(a[1..], sep), Split(b, sep), Split(a, sep), Split(s, sep);
    if a[0] == sep {
      PiecesAfterSeparator(ra, rb, sa, ss);
    } else {
      PiecesAfterChar([a[0]], ra, rb, sa, ss);
    }
  }

  /** The list reasoning of SplitAroundStep when a starts with the delimiter. */
  lemma {:induction false} PiecesAfterSeparator(ra: seq<string>, rb: seq<string>, sa: seq<string>, ss: seq<string>)
    requires sa == [""] + ra && ss == [""] + (ra + rb)
    ensures ss == sa + rb
  {
  }

  /** The list reasoning of SplitAroundStep when a's first character grows
      the first piece. */
  lemma {:induction false} PiecesAfterChar(c: string, ra: seq<string>, rb: seq<string>, sa: seq<string>, ss: seq<string>)
    requires ra != []
    requires sa == [c + ra[0]] + ra[1..] && ss == [c + (ra + rb)[0]] + (ra + rb)[1..]
    ensures ss == sa + rb
  {
    assert (ra + rb)[0] == ra[0];
    assert (ra + rb)[1..] == ra[1..] + rb;
  }

  /** explode() on a non-empty string: the first character opens or extends
      the first piece. */
  lemma {:induction false} SplitFirst(s: string, sep: char)
    requires s != []
    ensures var rest := Split(s[1..], sep);
      Split(s, sep) == if s[0] == sep then [""] + rest else [[s[0]] + rest[0]] + rest[1..]
  {
  }

  /** A string without the delimiter is one piece. */
  lemma {:induction false} SplitWithout(a: string, sep: char)
    requires sep !in a
    ensures Split(a, sep) == [a]
    decreases |a|
  {
    if a != [] {
      SplitWithout(a[1..], sep);
      assert [a[0]] + a[1..] == a;
    }
  }

  /** explode undoes implode when no piece holds the delimiter. */
  lemma {:induction false} SplitJoin(parts: seq<string>, sep: char)
    requires |parts| >= 1
    requires forall i :: 0 <= i < |parts| ==> sep !in parts[i]
    ensures Split(Join(parts, sep), sep) == parts
    decreases |parts|
  {
    SplitWithout(parts[0], sep);
    if |parts| > 1 {
      SplitAround(parts[0], Join(parts[1..], sep), sep);
      SplitJoin(parts[1..], sep);
    }
  }

  /** implode undoes explode. */
  lemma {:induction false} JoinSplit(s: string, sep: char)
    ensures Join(Split(s, sep), sep) == s
    decreases |s|
  {
    if s != [] {
      JoinSplit(s[1..], sep);
      SplitFirst(s, sep);
      JoinPieces(s[0], sep, Split(s[1..], sep), s[1..], Split(s, sep));
      assert [s[0]] + s[1..] == s;
    }
  }

  /** The inductive step of JoinSplit, with the pieces named. */
  lemma {:induction false} JoinPieces(c: char, sep: char, rest: seq<string>, t: string, ss: seq<string>)
    requires |rest| >= 1 && Join(rest, sep) == t
    requires ss == if c == sep then [""] + rest else [[c] + rest[0]] + rest[1..]
    ensures Join(ss, sep) == [c] + t
  {
    if c == sep {
      assert ss[1..] == rest;
    } else if |rest| > 1 {
      assert ss[1..] == rest[1..];
      assert t == rest[0] + [sep] + Join(rest[1..], sep);
    }
  }

  /** The characters PHP's trim() removes by default. */
  predicate IsTrimmed(c: char) {
    c == ' ' || c == '\t' || c == '\n' || c == '\r' || c == '\0' || c == '\U{000B}'
  }

  /** ltrim(): drops the trimmable characters at the front. */
  function TrimLeft(s: string): (r: string)
    ensures |r| <= |s|
    decreases |s|
  {
    if s != [] && IsTrimmed(s[0]) then TrimLeft(s[1..]) else s
  }

  /** ltrim() drops trimmable characters from the front, and only those: what
      is left is a suffix that starts with a character trim() keeps. */
  lemma {:induction false} TrimLeftSuffix(s: string)
    ensures var r := TrimLeft(s);
      r == s[|s| - |r|..] && (r == [] || !IsTrimmed(r[0])) &&
      forall k :: 0 <= k < |s| - |r| ==> IsTrimmed(s[k])
    decreases |s|
  {
    if s != [] && IsTrimmed(s[0]) {
      TrimLeftSuffix(s[1..]);
      var r := TrimLeft(s[1..]);
      assert s[1..][|s| - 1 - |r|..] == s[|s| - |r|..];
    }
  }

  /** rtrim(): drops the trimmable characters at the back. */
  function TrimRight(s: string): (r: string)
    ensures |r| <= |s|
    decreases |s|
  {
    if s != [] && IsTrimmed(s[|s| - 1]) then TrimRight(s[..|s| - 1]) else s
  }

  /** rtrim() drops trimmable characters from the back, and only those: what
      is left is a prefix that ends with a character trim() keeps. */
  lemma {:induction false} TrimRightPrefix(s: string)
    ensures var r := TrimRight(s);
      r == s[..|r|] && (r == [] || !IsTrimmed(r[|r| - 1])) &&
      forall k :: |r| <= k < |s| ==> IsTrimmed(s[k])
    decreases |s|
  {
    if s != [] && IsTrimmed(s[|s| - 1]) {
      TrimRightPrefix(s[..|s| - 1]);
      var r := TrimRight(s[..|s| - 1]);
      assert s[..|s| - 1][..|r|] == s[..|r|];
    }
  }

  /** trim(): both ends. */
  function Trim(s: string): string
  {
    TrimRight(TrimLeft(s))
  }

  /** A string with no trimmable character at either end is its own trim. */
  lemma TrimUntouched(s: string)
    requires s == [] || (!IsTrimmed(s[0]) && !IsTrimmed(s[|s| - 1]))
    ensures Trim(s) == s
  {
  }

  /** trim() removes a single trailing carriage return. */
  lemma TrimTrailingCR(s: string)
    requires s != [] && !IsTrimmed(s[0]) && !IsTrimmed(s[|s| - 1])
    ensures Trim(s + "\r") == s
  {
    var t := s + "\r";
    assert TrimLeft(t) == t;
    assert t[..|t| - 1] == s;
    assert TrimRight(t) == TrimRight(s);
  }

  /** s ends with t. */
  predicate EndsWith(s: string, t: string) {
    |t| <= |s| && s[|s| - |t|..] == t
  }

  /** A text still ends with t after anything is put in front of it. */
  lemma EndsWithAfter(head: string, tail: string, t: string)
    requires EndsWith(tail, t)
    ensures EndsWith(head + tail, t)
  {
    assert (head + tail)[|head + tail| - |t|..] == tail[|tail| - |t|..];
  }

  /** strpos($haystack, $needle) !== false */
  predicate Contains(haystack: string, needle: string) {
    exists i :: 0 <= i <= |haystack| && OccursAt(haystack, needle, i)
  }

  predicate OccursAt(haystack: string, needle: string, i: nat) {
    i + |needle| <= |haystack| && haystack[i..i + |needle|] == needle
  }

  /** A text without the first character of a needle does not contain it. */
  lemma LacksFirst(haystack: string, needle: string)
    requires needle != [] && needle[0] !in haystack
    ensures !Contains(haystack, needle)
  {
  }

  /** substr($s, $start, $length) for a non-negative start and length. */
  function Substr(s: string, start: nat, length: nat): (r: string)
    ensures |r| <= length
    ensures start + length <= |s| ==> r == s[start..start + length]
  {
    var from := if start <= |s| then start else |s|;
    var to := if start + length <= |s| then start + length else |s|;
    s[from..to]
  }
}
