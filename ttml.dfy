/** The TTML converter's time formats and the document it writes. */
module Ttml {
  import opened Wrappers
  import opened Text
  import opened Numerals
  import opened Cues

  // ---------------------------------------------------------------- reading times

  /** The value of the digits after a decimal point: the first digit counts
      tenths, the next hundredths, and so on. */
  function FractionValue(d: string): (v: real)
    requires AllDigits(d)
    ensures 0.0 <= v <= 1.0
  {
    if d == [] then 0.0 else ((d[0] as int - '0' as int) as real + FractionValue(d[1..])) / 10.0
  }

  /** The value of an unsigned decimal numeral: digits, optionally followed by a
      point and more digits; None for anything else. */
  function UnsignedValue(s: string): Option<real> {
    PiecesValue(Split(s, '.'))
  }

  /** The value of a numeral cut at its points: one piece of digits, or two. */
  function PiecesValue(parts: seq<string>): Option<real> {
    if |parts| == 1 && parts[0] != [] && AllDigits(parts[0]) then
      Some(DecimalValue(parts[0]) as real)
    else if |parts| == 2 && parts[0] != [] && AllDigits(parts[0]) && parts[1] != [] && AllDigits(parts[1]) then
      Some(DecimalValue(parts[0]) as real + FractionValue(parts[1]))
    else None
  }

  /** The value PHP gives a numeric string in arithmetic, for the numerals a
      time is written with: an optional minus sign and an unsigned numeral. */
  function NumberValue(s: string): Option<real> {
    if s != [] && s[0] == '-' then
      match UnsignedValue(s[1..])
      case Some(v) => Some(-v)
      case None => None
    else UnsignedValue(s)
  }

  /** The digits a string starts with. */
  function LeadingDigits(s: string): (r: string)
    ensures AllDigits(r)
    decreases |s|
  {
    if s == [] || !IsDigit(s[0]) then "" else [s[0]] + LeadingDigits(s[1..])
  }

  /** An (int) cast of a string: an optional sign and the digits after it, 0
      when there are none. */
  function IntCast(s: string): int {
    if s != [] && s[0] == '-' then -(DecimalValue(LeadingDigits(s[1..])) as int)
    else if s != [] && s[0] == '+' then DecimalValue(LeadingDigits(s[1..]))
    else DecimalValue(LeadingDigits(s))
  }

  /** rtrim($t, 's'): the string without its trailing run of 's'. */
  function TrimTrailingS(s: string): (r: string)
    ensures r == [] || r[|r| - 1] != 's'
    decreases |s|
  {
    if s != [] && s[|s| - 1] == 's' then TrimTrailingS(s[..|s| - 1]) else s
  }

  /** The (int) of a clock field, 0 when the time has fewer fields. */
  function Field(parts: seq<string>, i: nat): int {
    if i < |parts| then IntCast(parts[i]) else 0
  }

  /** Ticks per second of a time written in ticks. */
  const TickRate: real := 10000000.0

  /** A TTML time in seconds: ticks ending in 't', seconds ending in 's', or
      a clock time hours:minutes:seconds whose fields are read as integers.
      A time in ticks is None where PHP's division would reject the numeral.
      A time in seconds is, in PHP, the trimmed string itself, returned
      without a conversion or a warning; the model reads it as a number, so
      None there marks a string PHP would return as it is. */
  function TtmlTimeToInternal(ttml: string): Option<real> {
    if ttml != [] && ttml[|ttml| - 1] == 't' then
      match NumberValue(ttml[..|ttml| - 1])
      case Some(v) => Some(v / TickRate)
      case None => None
    else if ttml != [] && ttml[|ttml| - 1] == 's' then
      NumberValue(TrimTrailingS(ttml))
    else
      Some(ClockValue(Split(ttml, ':')) as real)
  }

  /** The seconds a clock time's fields spell: hours, minutes and seconds. */
  function ClockValue(parts: seq<string>): int {
    Field(parts, 0) * 3600 + Field(parts, 1) * 60 + Field(parts, 2)
  }

  /** A time in ticks is the tick count divided by ten million. */
  lemma TicksTime(count: string)
    ensures TtmlTimeToInternal(count + "t") ==
      match NumberValue(count)
      case Some(v) => Some(v / TickRate)
      case None => None
  {
    assert (count + "t")[..|count|] == count;
  }

  /** A run of n letters 's'. */
  function Esses(n: nat): (r: string)
    ensures |r| == n && forall i :: 0 <= i < n ==> r[i] == 's'
  {
    seq(n, _ => 's')
  }

  /** rtrim takes off exactly the run of 's' appended to a string that does
      not end in 's'. */
  lemma {:induction false} TrimAppendedEsses(numeral: string, n: nat)
    requires numeral == [] || numeral[|numeral| - 1] != 's'
    ensures TrimTrailingS(numeral + Esses(n)) == numeral
  {
    if n == 0 {
      assert numeral + Esses(n) == numeral;
    } else {
      assert (numeral + Esses(n))[..|numeral| + n - 1] == numeral + Esses(n - 1);
      TrimAppendedEsses(numeral, n - 1);
    }
  }

  /** A time in seconds is the numeral before its suffix, however many 's'
      the suffix repeats. */
  lemma SecondsTime(numeral: string, n: nat)
    requires n >= 1
    requires numeral == [] || numeral[|numeral| - 1] != 's'
    ensures TtmlTimeToInternal(numeral + Esses(n)) == NumberValue(numeral)
  {
    var t := numeral + Esses(n);
    assert t[|t| - 1] == 's';
    TrimAppendedEsses(numeral, n);
  }

  /** The digits a string of digits starts with, before a character that is
      not a digit, are that string. */
  lemma {:induction false} LeadingDigitsBefore(s: string, rest: string)
    requires AllDigits(s)
    requires rest == [] || !IsDigit(rest[0])
    ensures LeadingDigits(s + rest) == s
    decreases |s|
  {
    if s == [] {
      assert s + rest == rest;
    } else {
      assert IsDigit(s[0]);
      assert (s + rest)[1..] == s[1..] + rest;
      LeadingDigitsBefore(s[1..], rest);
    }
  }

  /** The (int) of a string of digits followed by something that is neither
      a digit nor a sign is the value of the digits. */
  lemma IntCastOfDigits(s: string, rest: string)
    requires AllDigits(s)
    requires rest == [] || (!IsDigit(rest[0]) && rest[0] != '-' && rest[0] != '+')
    ensures IntCast(s + rest) == DecimalValue(s)
  {
    LeadingDigitsBefore(s, rest);
    if s == [] {
      assert s + rest == rest;
    } else {
      assert (s + rest)[0] == s[0];
      assert IsDigit(s[0]);
    }
  }

  /** The (int) of a string of digits is its decimal value. */
  lemma IntCastOfAllDigits(s: string)
    requires AllDigits(s)
    ensures IntCast(s) == DecimalValue(s)
  {
    IntCastOfDigits(s, "");
    assert s + "" == s;
  }

  /** explode() of three pieces joined by a delimiter none of them holds. */
  lemma SplitThree(a: string, b: string, c: string, sep: char)
    requires sep !in a && sep !in b && sep !in c
    ensures Split(a + [sep] + b + [sep] + c, sep) == [a, b, c]
  {
    SplitWithout(a, sep);
    SplitWithout(b, sep);
    SplitWithout(c, sep);
    SplitAround(b, c, sep);
    SplitAround(a, b + [sep] + c, sep);
    assert a + [sep] + b + [sep] + c == a + [sep] + (b + [sep] + c);
  }

  /** A time without suffix is a clock time, read field by field. */
  lemma ClockForm(t: string)
    requires t != [] && t[|t| - 1] != 't' && t[|t| - 1] != 's'
    ensures TtmlTimeToInternal(t) == Some(ClockValue(Split(t, ':')) as real)
  {
  }

  /** Three fields are hours, minutes and seconds. */
  lemma ThreeFields(h: string, m: string, s: string)
    ensures ClockValue([h, m, s]) == IntCast(h) * 3600 + IntCast(m) * 60 + IntCast(s)
  {
  }

  /** A string of digits holds no other character. */
  lemma DigitsLack(s: string, c: char)
    requires AllDigits(s) && !IsDigit(c)
    ensures c !in s
  {
    forall i | 0 <= i < |s| ensures s[i] != c {
      assert IsDigit(s[i]);
    }
  }

  /** Three fields of digits count their decimal values. */
  lemma DigitFields(h: string, m: string, s: string)
    requires AllDigits(h) && AllDigits(m) && AllDigits(s)
    ensures ClockValue([h, m, s]) as real == (DecimalValue(h) * 3600 + DecimalValue(m) * 60 + DecimalValue(s)) as real
  {
    ThreeFields(h, m, s);
    IntCastOfAllDigits(h);
    IntCastOfAllDigits(m);
    IntCastOfAllDigits(s);
  }

  /** hours:minutes:seconds with digit fields is the number of seconds it spells. */
  lemma ClockTime(h: string, m: string, s: string)
    requires AllDigits(h) && AllDigits(m) && AllDigits(s)
    ensures TtmlTimeToInternal(h + ":" + m + ":" + s) ==
      Some((DecimalValue(h) * 3600 + DecimalValue(m) * 60 + DecimalValue(s)) as real)
  {
    var t := h + [':'] + m + [':'] + s;
    if s == [] {
      assert t[|t| - 1] == ':';
    } else {
      assert t[|t| - 1] == s[|s| - 1];
      assert IsDigit(s[|s| - 1]);
    }
    DigitsLack(h, ':');
    DigitsLack(m, ':');
    DigitsLack(s, ':');
    SplitThree(h, m, s, ':');
    ClockOfFields(t, h, m, s);
    assert h + ":" + m + ":" + s == t;
  }

  /** A clock time whose fields are digits, read through its fields. */
  lemma ClockOfFields(t: string, h: string, m: string, s: string)
    requires AllDigits(h) && AllDigits(m) && AllDigits(s)
    requires t != [] && t[|t| - 1] != 't' && t[|t| - 1] != 's'
    requires Split(t, ':') == [h, m, s]
    ensures TtmlTimeToInternal(t) == Some((DecimalValue(h) * 3600 + DecimalValue(m) * 60 + DecimalValue(s)) as real)
  {
    ClockForm(t);
    assert TtmlTimeToInternal(t) == Some(ClockValue([h, m, s]) as real);
    DigitFields(h, m, s);
  }

  /** A fraction of a second on a clock time is ignored. */
  lemma ClockDropsFraction(h: string, m: string, s: string, fraction: string)
    requires AllDigits(h) && AllDigits(m) && AllDigits(s)
    requires AllDigits(fraction) && fraction != []
    ensures TtmlTimeToInternal(h + ":" + m + ":" + s + "." + fraction) ==
      TtmlTimeToInternal(h + ":" + m + ":" + s)
  {
    var sf := s + ['.'] + fraction;
    FractionFields(h, m, s, fraction);
    ClockFields(h, m, sf);
    ClockFields(h, m, s);
    assert h + ":" + m + ":" + s + "." + fraction == h + [':'] + m + [':'] + sf;
    assert h + ":" + m + ":" + s == h + [':'] + m + [':'] + s;
  }

  /** A clock time of three colon-free fields, the last ending in a digit, is
      read through those fields. */
  lemma ClockFields(h: string, m: string, s: string)
    requires ':' !in h && ':' !in m && ':' !in s
    requires s == [] || IsDigit(s[|s| - 1])
    ensures TtmlTimeToInternal(h + [':'] + m + [':'] + s) == Some(ClockValue([h, m, s]) as real)
  {
    var t := h + [':'] + m + [':'] + s;
    if s == [] {
      assert t[|t| - 1] == ':';
    } else {
      assert t[|t| - 1] == s[|s| - 1];
    }
    SplitThree(h, m, s, ':');
    ClockForm(t);
  }

  /** The fraction on the seconds field changes neither the fields' shape nor
      the count of seconds. */
  lemma FractionFields(h: string, m: string, s: string, fraction: string)
    requires AllDigits(h) && AllDigits(m) && AllDigits(s)
    requires AllDigits(fraction) && fraction != []
    ensures ':' !in h && ':' !in m && ':' !in s && ':' !in s + ['.'] + fraction
    ensures s == [] || IsDigit(s[|s| - 1])
    ensures IsDigit((s + ['.'] + fraction)[|s + ['.'] + fraction| - 1])
    ensures ClockValue([h, m, s + ['.'] + fraction]) == ClockValue([h, m, s])
  {
    var sf := s + ['.'] + fraction;
    assert sf[|sf| - 1] == fraction[|fraction| - 1];
    assert IsDigit(fraction[|fraction| - 1]);
    DigitsLack(h, ':');
    DigitsLack(m, ':');
    DigitsLack(s, ':');
    DigitsLack(fraction, ':');
    ThreeFields(h, m, sf);
    ThreeFields(h, m, s);
    IntCastOfDigits(s, "." + fraction);
    assert sf == s + ("." + fraction);
    IntCastOfAllDigits(s);
  }

  /** A bare number without suffix is read as hours: the missing minute and
      second fields count as 0. */
  lemma BareNumberIsHours(h: string)
    requires AllDigits(h) && h != []
    ensures TtmlTimeToInternal(h) == Some((DecimalValue(h) * 3600) as real)
  {
    assert IsDigit(h[|h| - 1]);
    DigitsLack(h, ':');
    SplitWithout(h, ':');
    IntCastOfAllDigits(h);
  }

  // ---------------------------------------------------------------- writing times

  /** PHP's round() to an integer: halves go away from zero. */
  function RoundHalfAway(x: real): (n: int)
    ensures x - 0.5 <= n as real <= x + 0.5
  {
    if x >= 0.0 then (x + 0.5).Floor else -((-x + 0.5).Floor)
  }

  /** number_format($t, 1, '.', ''): the time rounded to tenths of a second,
      one decimal after a point and no thousands separator. */
  function InternalTimeToTtml(t: real): string {
    TenthsText(RoundHalfAway(t * 10.0))
  }

  /** A count of tenths written as a decimal with one digit after the point. */
  function TenthsText(n: int): string {
    var a: nat := if n < 0 then -n else n;
    (if n < 0 then "-" else "") + NatToDecimal(a / 10) + "." + NatToDecimal(a % 10)
  }

  /** An integer part and a one-digit fraction read back as their value. */
  lemma UnsignedTenths(a: nat)
    ensures UnsignedValue(NatToDecimal(a / 10) + "." + NatToDecimal(a % 10)) == Some(a as real / 10.0)
  {
    PointNumeral(NatToDecimal(a / 10), NatToDecimal(a % 10));
    DecimalOfNatToDecimal(a / 10);
    LastDigitFraction(a % 10);
    TenthsSum(a);
  }

  /** A single digit after the point counts that many tenths. */
  lemma LastDigitFraction(r: nat)
    requires r < 10
    ensures FractionValue(NatToDecimal(r)) == r as real / 10.0
  {
    var d := NatToDecimal(r);
    assert d == [('0' as int + r) as char];
    assert d[1..] == [];
  }

  /** Whole tenths and the remainder make up the count. */
  lemma TenthsSum(a: nat)
    ensures (a / 10) as real + (a % 10) as real / 10.0 == a as real / 10.0
  {
    assert (a / 10) * 10 + a % 10 == a;
  }

  /** Digits, a point and digits read as the integer part plus the fraction. */
  lemma PointNumeral(i: string, d: string)
    requires AllDigits(i) && AllDigits(d) && i != [] && d != []
    ensures UnsignedValue(i + "." + d) ==
      Some(DecimalValue(i) as real + FractionValue(d))
  {
    PointSplit(i, d);
  }

  /** explode('.') of digits, a point and digits. */
  lemma PointSplit(i: string, d: string)
    requires AllDigits(i) && AllDigits(d)
    ensures Split(i + "." + d, '.') == [i, d]
  {
    DigitsLack(i, '.');
    DigitsLack(d, '.');
    SplitWithout(i, '.');
    SplitWithout(d, '.');
    SplitAround(i, d, '.');
    assert i + "." + d == i + ['.'] + d;
  }

  /** A count of tenths written out reads back as that many tenths. */
  lemma TenthsValue(n: int)
    ensures NumberValue(TenthsText(n)) == Some(n as real / 10.0)
  {
    var a: nat := if n < 0 then -n else n;
    var u := NatToDecimal(a / 10) + "." + NatToDecimal(a % 10);
    UnsignedTenths(a);
    if n < 0 {
      assert TenthsText(n) == "-" + u;
      assert ("-" + u)[1..] == u;
    } else {
      var first := NatToDecimal(a / 10);
      assert TenthsText(n) == u;
      assert u[0] == first[0];
      assert IsDigit(first[0]);
    }
  }

  /** A written count of tenths ends in a digit. */
  lemma TenthsEndInDigit(n: int)
    ensures var w := TenthsText(n); w != [] && IsDigit(w[|w| - 1])
  {
    var a: nat := if n < 0 then -n else n;
    var last := NatToDecimal(a % 10);
    var w := TenthsText(n);
    assert w[|w| - 1] == last[|last| - 1];
  }

  /** A written count of tenths with the seconds suffix reads back as that
      many tenths of a second. */
  lemma ReadTenths(n: int)
    ensures TtmlTimeToInternal(TenthsText(n) + "s") == Some(n as real / 10.0)
  {
    TenthsEndInDigit(n);
    SecondsTime(TenthsText(n), 1);
    assert Esses(1) == "s";
    TenthsValue(n);
  }

  /** A written time read back as seconds is the time rounded to tenths, no
      more than a twentieth of a second away from it. */
  lemma TimeRoundTrip(t: real)
    ensures var n := RoundHalfAway(t * 10.0);
      TtmlTimeToInternal(InternalTimeToTtml(t) + "s") == Some(n as real / 10.0) &&
      t - 0.05 <= n as real / 10.0 <= t + 0.05
  {
    ReadTenths(RoundHalfAway(t * 10.0));
  }

  // ---------------------------------------------------------------- the document

  /** The XML declaration. */
  const XmlDeclaration: string := "<?xml version=\"1.0\" encoding=\"utf-8\"?>"

  /** The root element, in the TTML namespace, with media time base and English language. */
  const TtOpen: string := "<tt xmlns=\"http://www.w3.org/ns/ttml\" xmlns:ttp=\"http://www.w3.org/ns/ttml#parameter\" ttp:timeBase=\"media\" xmlns:tts=\"http://www.w3.org/ns/ttml#style\" xml:lang=\"en\" xmlns:ttm=\"http://www.w3.org/ns/ttml#metadata\">"
  const HeadOpen: string := "  <head>"
  const MetadataOpen: string := "    <metadata>"

  /** An empty title. */
  const Title: string := "      <ttm:title></ttm:title>"
  const MetadataClose: string := "    </metadata>"
  const StylingOpen: string := "    <styling>"

  /** The one style, s0: white 16-point sans-serif on black. */
  const Style: string := "      <style id=\"s0\" tts:backgroundColor=\"black\" tts:fontStyle=\"normal\" tts:fontSize=\"16\" tts:fontFamily=\"sansSerif\" tts:color=\"white\" />"
  const StylingClose: string := "    </styling>"
  const HeadClose: string := "  </head>"

  /** The body, in style s0. */
  const BodyOpen: string := "  <body style=\"s0\">"
  const DivOpen: string := "    <div>"

  const DivClose: string := "    </div>"
  const BodyClose: string := "  </body>"
  const TtClose: string := "</tt>"

  /** The lines before the first paragraph. */
  const HeadLines: seq<string> := [
    XmlDeclaration, TtOpen, HeadOpen, MetadataOpen, Title, MetadataClose,
    StylingOpen, Style, StylingClose, HeadClose, BodyOpen, DivOpen
  ]

  /** The lines after the last paragraph. */
  const FootLines: seq<string> := [DivClose, BodyClose, TtClose]

  /** The text before the first paragraph: the head lines, each ended by a newline. */
  const Head: string := Join(HeadLines, '\n') + "\n"

  /** The text after the last paragraph: the foot lines, with no newline after the last. */
  const Foot: string := Join(FootLines, '\n')

  /** implode() with a glue string. */
  function Implode(parts: seq<string>, glue: string): string
    decreases |parts|
  {
    if |parts| == 0 then ""
    else if |parts| == 1 then parts[0]
    else parts[0] + glue + Implode(parts[1..], glue)
  }

  /** The paragraph of cue number k, from its written times and text. */
  function ParagraphText(k: nat, begin: string, end: string, text: string): string {
    "      <p begin=\"" + begin + "s\" id=\"p" + NatToDecimal(k) + "\" end=\"" + end + "s\">" + text + "</p>"
  }

  /** The paragraph of cue number k: its times to a tenth of a second, its
      lines joined by line breaks. */
  function Paragraph(k: nat, cue: Cue): string {
    ParagraphText(k, InternalTimeToTtml(cue.start), InternalTimeToTtml(cue.end), Implode(cue.lines, "<br />"))
  }

  /** Lines, each followed by a newline. */
  function Terminated(lines: seq<string>): string
    decreases |lines|
  {
    if lines == [] then "" else Terminated(lines[..|lines| - 1]) + lines[|lines| - 1] + "\n"
  }

  /** The paragraphs of the first n cues as lines. */
  function ParagraphLines(cues: seq<Cue>, n: nat): (r: seq<string>)
    requires n <= |cues|
    ensures |r| == n
  {
    if n == 0 then [] else ParagraphLines(cues, n - 1) + [Paragraph(n - 1, cues[n - 1])]
  }

  /** The document before its line endings are normalised. */
  function Document(cues: seq<Cue>): string {
    Head + Terminated(ParagraphLines(cues, |cues|)) + Foot
  }

  /** str_replace("\r", "", s). */
  function WithoutCR(s: string): string
    decreases |s|
  {
    if s == [] then ""
    else WithoutCR(s[..|s| - 1]) + (if s[|s| - 1] == '\r' then "" else [s[|s| - 1]])
  }

  /** str_replace("\n", "\r\n", s). */
  function CRLF(s: string): string
    decreases |s|
  {
    if s == [] then ""
    else CRLF(s[..|s| - 1]) + (if s[|s| - 1] == '\n' then "\r\n" else [s[|s| - 1]])
  }

  /** The file TTML output is: the document with every line ending "\r\n". */
  function FileContent(cues: seq<Cue>): string {
    CRLF(WithoutCR(Document(cues)))
  }

  /** Appending paragraph k to the text with the first k paragraphs gives
      the text with the first k + 1. */
  lemma BodyStep(written: string, cues: seq<Cue>, k: nat, content: string)
    requires k < |cues| && content == written + Terminated(ParagraphLines(cues, k))
    ensures content + (Paragraph(k, cues[k]) + "\n") == written + Terminated(ParagraphLines(cues, k + 1))
  {
    var lines, p := ParagraphLines(cues, k), Paragraph(k, cues[k]);
    assert ParagraphLines(cues, k + 1)[..k] == lines;
    assert Terminated(ParagraphLines(cues, k + 1)) == Terminated(lines) + p + "\n";
    AppendLine(written, Terminated(lines), p);
  }

  /** One more line after a prefix and a body. */
  lemma AppendLine(head: string, body: string, line: string)
    ensures (head + body) + (line + "\n") == head + (body + line + "\n")
  {
  }

  /** Writes the head, the paragraphs and the foot, then normalises the line ends. */
  method InternalFormatToFileContent(cues: seq<Cue>) returns (content: string)
    ensures content == FileContent(cues)
  {
    content := AppendParagraphs(Head, cues);
    content := content + Foot;
    content := WithoutCR(content);
    content := CRLF(content);
  }

  /** Appends one paragraph line per cue, in order, to the text written so far. */
  method AppendParagraphs(written: string, cues: seq<Cue>) returns (content: string)
    ensures content == written + Terminated(ParagraphLines(cues, |cues|))
  {
    content := written;
    var k := 0;
    while k < |cues|
      invariant 0 <= k <= |cues|
      invariant content == written + Terminated(ParagraphLines(cues, k))
    {
      var start := InternalTimeToTtml(cues[k].start);
      var end := InternalTimeToTtml(cues[k].end);
      var lines := Implode(cues[k].lines, "<br />");
      var paragraph := ParagraphText(k, start, end, lines);
      assert paragraph == Paragraph(k, cues[k]);
      BodyStep(written, cues, k, content);
      content := content + (paragraph + "\n");
      k := k + 1;
    }
  }

  // ---------------------------------------------------------------- properties of the document

  /** Paragraph k of the body is cue k's, and carries the id p{k}. */
  lemma ParagraphOrder(cues: seq<Cue>, n: nat, k: nat)
    requires k < n <= |cues|
    ensures ParagraphLines(cues, n)[k] == Paragraph(k, cues[k])
    ensures Contains(ParagraphLines(cues, n)[k], "id=\"p" + NatToDecimal(k) + "\"")
  {
    ParagraphAt(cues, n, k);
    ParagraphId(k, InternalTimeToTtml(cues[k].start), InternalTimeToTtml(cues[k].end), Implode(cues[k].lines, "<br />"));
  }

  /** A paragraph holds its id attribute. */
  lemma ParagraphId(k: nat, begin: string, end: string, text: string)
    ensures Contains(ParagraphText(k, begin, end, text), "id=\"p" + NatToDecimal(k) + "\"")
  {
    var before := "      <p begin=\"" + begin + "s\" ";
    var id := "id=\"p" + NatToDecimal(k) + "\"";
    var after := " end=\"" + end + "s\">" + text + "</p>";
    assert ParagraphText(k, begin, end, text) == before + id + after;
    assert (before + id + after)[|before|..|before| + |id|] == id;
    assert OccursAt(before + id + after, id, |before|);
  }

  /** The k-th paragraph line, by induction on the number of cues written. */
  lemma {:induction false} ParagraphAt(cues: seq<Cue>, n: nat, k: nat)
    requires k < n <= |cues|
    ensures ParagraphLines(cues, n)[k] == Paragraph(k, cues[k])
    decreases n
  {
    if k < n - 1 {
      ParagraphAt(cues, n - 1, k);
    }
  }

  /** Lines each followed by a newline, after joined lines ended by a newline,
      are all the lines joined, ended by a newline. */
  lemma {:induction false} TerminatedJoin(pre: seq<string>, lines: seq<string>)
    requires |pre| >= 1
    ensures Join(pre, '\n') + "\n" + Terminated(lines) == Join(pre + lines, '\n') + "\n"
    decreases |lines|
  {
    if lines == [] {
      assert pre + lines == pre;
    } else {
      var init, p := lines[..|lines| - 1], lines[|lines| - 1];
      TerminatedJoin(pre, init);
      JoinStep(pre, init, Terminated(init), p);
      assert pre + lines == pre + init + [p];
      assert Terminated(lines) == Terminated(init) + p + "\n";
    }
  }

  /** The inductive step of TerminatedJoin, with the pieces named. */
  lemma JoinStep(pre: seq<string>, lines: seq<string>, body: string, p: string)
    requires |pre| >= 1
    requires Join(pre, '\n') + "\n" + body == Join(pre + lines, '\n') + "\n"
    ensures Join(pre, '\n') + "\n" + (body + p + "\n") == Join(pre + lines + [p], '\n') + "\n"
  {
    JoinAppend(pre + lines, [p], '\n');
    JoinLine(Join(pre, '\n'), body, Join(pre + lines, '\n'), p);
  }

  /** One more line after a joined text, in the shapes TerminatedJoin uses. */
  lemma JoinLine(j: string, body: string, joined: string, p: string)
    requires j + "\n" + body == joined + "\n"
    ensures j + "\n" + (body + p + "\n") == joined + ['\n'] + p + "\n"
  {
    assert j + "\n" + (body + p + "\n") == (j + "\n" + body) + p + "\n";
  }

  /** The document is its head lines, one line per paragraph and its foot
      lines, joined by newlines. */
  lemma DocumentJoin(cues: seq<Cue>)
    ensures Document(cues) == Join(HeadLines + ParagraphLines(cues, |cues|) + FootLines, '\n')
  {
    var lines := HeadLines + ParagraphLines(cues, |cues|);
    TerminatedJoin(HeadLines, ParagraphLines(cues, |cues|));
    JoinAppend(lines, FootLines, '\n');
  }

  /** implode() keeps out a character that neither the parts nor the glue hold. */
  lemma {:induction false} ImplodeLacks(parts: seq<string>, glue: string, c: char)
    requires c !in glue && forall i :: 0 <= i < |parts| ==> c !in parts[i]
    ensures c !in Implode(parts, glue)
    decreases |parts|
  {
    if |parts| > 1 {
      ImplodeLacks(parts[1..], glue, c);
    }
  }

  /** A written time is a single line. */
  lemma TenthsOneLine(n: int)
    ensures '\n' !in TenthsText(n)
  {
    var a: nat := if n < 0 then -n else n;
    DigitsLack(NatToDecimal(a / 10), '\n');
    DigitsLack(NatToDecimal(a % 10), '\n');
  }

  /** A paragraph is a single line when its cue's lines are. */
  lemma ParagraphOneLine(k: nat, cue: Cue)
    requires forall j :: 0 <= j < |cue.lines| ==> '\n' !in cue.lines[j]
    ensures '\n' !in Paragraph(k, cue)
  {
    TenthsOneLine(RoundHalfAway(cue.start * 10.0));
    TenthsOneLine(RoundHalfAway(cue.end * 10.0));
    DigitsLack(NatToDecimal(k), '\n');
    ImplodeLacks(cue.lines, "<br />", '\n');
  }

  /** Every '\r' is directly followed by '\n', and every '\n' directly follows a '\r'. */
  predicate CrlfOnly(s: string) {
    (forall i :: 0 <= i < |s| && s[i] == '\r' ==> i + 1 < |s| && s[i + 1] == '\n') &&
    (forall i :: 0 <= i < |s| && s[i] == '\n' ==> 0 < i && s[i - 1] == '\r')
  }

  /** str_replace("\r", "", s) leaves no '\r' and keeps everything else. */
  lemma {:induction false} WithoutCRDropsCR(s: string)
    ensures '\r' !in WithoutCR(s)
    ensures '\r' !in s ==> WithoutCR(s) == s
    decreases |s|
  {
    if s != [] {
      WithoutCRDropsCR(s[..|s| - 1]);
      assert s == s[..|s| - 1] + [s[|s| - 1]];
    }
  }

  /** Joining two texts with CRLF line ends keeps that property, when the
      second does not start with a '\n'. */
  lemma CrlfOnlyAppend(x: string, y: string)
    requires CrlfOnly(x) && CrlfOnly(y)
    ensures CrlfOnly(x + y)
  {
    var s := x + y;
    forall i | 0 <= i < |s| && s[i] == '\r' ensures i + 1 < |s| && s[i + 1] == '\n' {
      if i < |x| {
        assert x[i] == '\r';
      } else {
        assert y[i - |x|] == '\r';
      }
    }
    forall i | 0 <= i < |s| && s[i] == '\n' ensures 0 < i && s[i - 1] == '\r' {
      if i < |x| {
        assert x[i] == '\n';
      } else {
        assert y[i - |x|] == '\n';
      }
    }
  }

  /** str_replace("\n", "\r\n", s) on a text without '\r' gives CRLF line
      ends only. */
  lemma {:induction false} CrlfOfText(s: string)
    requires '\r' !in s
    ensures CrlfOnly(CRLF(s))
    decreases |s|
  {
    if s != [] {
      var init, c := s[..|s| - 1], s[|s| - 1];
      NoCRInPrefix(s);
      CrlfOfText(init);
      CrlfTail(c);
      CrlfOnlyAppend(CRLF(init), if c == '\n' then "\r\n" else [c]);
    }
  }

  /** Taking the '\r' out again after str_replace("\n", "\r\n", s) restores
      a text without '\r'. */
  lemma {:induction false} UndoCrlf(s: string)
    requires '\r' !in s
    ensures WithoutCR(CRLF(s)) == s
    decreases |s|
  {
    if s != [] {
      var init, c := s[..|s| - 1], s[|s| - 1];
      NoCRInPrefix(s);
      UndoCrlf(init);
      CrlfTail(c);
      WithoutCRAppend(CRLF(init), if c == '\n' then "\r\n" else [c]);
      assert s == init + [c];
    }
  }

  /** A prefix of a text without '\r' has none either. */
  lemma NoCRInPrefix(s: string)
    requires s != [] && '\r' !in s
    ensures '\r' !in s[..|s| - 1] && s[|s| - 1] != '\r'
  {
    var init := s[..|s| - 1];
    forall i | 0 <= i < |init| ensures init[i] != '\r' {
      assert init[i] == s[i];
    }
  }

  /** What str_replace("\n", "\r\n", s) writes for one character other than '\r'. */
  lemma CrlfTail(c: char)
    requires c != '\r'
    ensures var tail := if c == '\n' then "\r\n" else [c];
      CrlfOnly(tail) && WithoutCR(tail) == [c]
  {
    var tail := if c == '\n' then "\r\n" else [c];
    if c == '\n' {
      assert tail[..1] == "\r";
      assert WithoutCR(tail[..1]) == "";
    } else {
      assert tail[..0] == [];
    }
  }

  /** Taking the '\r' out of two texts one after the other. */
  lemma {:induction false} WithoutCRAppend(x: string, y: string)
    ensures WithoutCR(x + y) == WithoutCR(x) + WithoutCR(y)
    decreases |y|
  {
    if y == [] {
      assert x + y == x;
    } else {
      var init := y[..|y| - 1];
      assert (x + y)[..|x + y| - 1] == x + init;
      WithoutCRAppend(x, init);
    }
  }

  /** The file has CRLF line ends only; taking the '\r' out of it gives the
      document with the '\r' of the cue text taken out; and when the cue text
      holds no '\r' that is the document itself. */
  lemma FileContentLineEnds(cues: seq<Cue>)
    ensures CrlfOnly(FileContent(cues))
    ensures WithoutCR(FileContent(cues)) == WithoutCR(Document(cues))
    ensures '\r' !in Document(cues) ==> WithoutCR(FileContent(cues)) == Document(cues)
  {
    WithoutCRDropsCR(Document(cues));
    CrlfOfText(WithoutCR(Document(cues)));
    UndoCrlf(WithoutCR(Document(cues)));
  }

  /** Normalising the line ends twice is normalising them once. */
  lemma NormaliseIdempotent(s: string)
    ensures CRLF(WithoutCR(CRLF(WithoutCR(s)))) == CRLF(WithoutCR(s))
  {
    WithoutCRDropsCR(s);
    UndoCrlf(WithoutCR(s));
  }

  /** str_replace("\n", "\r\n", ...) works on two texts one after the other. */
  lemma {:induction false} CrlfAppend(x: string, y: string)
    ensures CRLF(x + y) == CRLF(x) + CRLF(y)
    decreases |y|
  {
    if y == [] {
      assert x + y == x;
    } else {
      var init := y[..|y| - 1];
      assert (x + y)[..|x + y| - 1] == x + init;
      CrlfAppend(x, init);
    }
  }

  /** Normalising the line ends of three texts one after the other. */
  lemma Normalise3(a: string, b: string, c: string)
    ensures CRLF(WithoutCR(a + b + c)) == CRLF(WithoutCR(a)) + CRLF(WithoutCR(b)) + CRLF(WithoutCR(c))
  {
    WithoutCRAppend(a + b, c);
    WithoutCRAppend(a, b);
    CrlfAppend(WithoutCR(a) + WithoutCR(b), WithoutCR(c));
    CrlfAppend(WithoutCR(a), WithoutCR(b));
  }

  /** The file is the normalised head, body and foot: the head and the foot
      are the same for every list of cues. */
  lemma FileContentFrame(cues: seq<Cue>)
    ensures FileContent(cues) == CRLF(WithoutCR(Head)) + CRLF(WithoutCR(Terminated(ParagraphLines(cues, |cues|)))) + CRLF(WithoutCR(Foot))
  {
    Normalise3(Head, Terminated(ParagraphLines(cues, |cues|)), Foot);
  }

  /** A text without line ends is left as it is by the normalisation. */
  lemma {:induction false} PlainText(s: string)
    requires '\r' !in s && '\n' !in s
    ensures CRLF(WithoutCR(s)) == s
  {
    WithoutCRDropsCR(s);
    CrlfNoBreak(s);
  }

  /** str_replace("\n", "\r\n", s) leaves a text without '\n' as it is. */
  lemma {:induction false} CrlfNoBreak(s: string)
    requires '\n' !in s
    ensures CRLF(s) == s
    decreases |s|
  {
    if s != [] {
      var init := s[..|s| - 1];
      assert '\n' !in init by {
        forall i | 0 <= i < |init| ensures init[i] != '\n' { assert init[i] == s[i]; }
      }
      CrlfNoBreak(init);
      assert s == init + [s[|s| - 1]];
    }
  }

  /** Three lines joined, normalised: the last one, without line ends, comes
      out as it is. */
  lemma JoinLast(d: string, b: string, t: string)
    requires '\r' !in t && '\n' !in t
    ensures CRLF(WithoutCR(Join([d, b, t], '\n'))) == CRLF(WithoutCR(d + "\n" + b + "\n")) + t
  {
    JoinThree(d, b, t);
    LastPlain(d + "\n" + b + "\n", t);
  }

  /** implode() of three lines. */
  lemma JoinThree(d: string, b: string, t: string)
    ensures Join([d, b, t], '\n') == d + "\n" + b + "\n" + t
  {
    assert [d, b, t][1..] == [b, t];
    assert [b, t][1..] == [t];
    assert Join([b, t], '\n') == b + ['\n'] + t;
    assert Join([d, b, t], '\n') == d + ['\n'] + (b + ['\n'] + t);
  }

  /** A text without line ends at the end of another is normalised to itself. */
  lemma LastPlain(u: string, t: string)
    requires '\r' !in t && '\n' !in t
    ensures CRLF(WithoutCR(u + t)) == CRLF(WithoutCR(u)) + t
  {
    WithoutCRAppend(u, t);
    CrlfAppend(WithoutCR(u), WithoutCR(t));
    PlainText(t);
  }

  /** The closing tag of the root element is a single line. */
  lemma TtClosePlain()
    ensures '\r' !in TtClose && '\n' !in TtClose
  {
  }

  /** The normalised foot ends with the closing tag of the root element. */
  lemma FootEnds()
    ensures EndsWith(CRLF(WithoutCR(Foot)), "</tt>")
  {
    TtClosePlain();
    JoinLast(DivClose, BodyClose, TtClose);
    Suffix(CRLF(WithoutCR(DivClose + "\n" + BodyClose + "\n")), "</tt>");
  }

  /** The file ends with the closing tag of the root element, whatever the
      cues. */
  lemma FileContentEnds(cues: seq<Cue>)
    ensures EndsWith(FileContent(cues), "</tt>")
  {
    FileContentFrame(cues);
    FootEnds();
    EndsWithAfter(CRLF(WithoutCR(Head)) + CRLF(WithoutCR(Terminated(ParagraphLines(cues, |cues|)))), CRLF(WithoutCR(Foot)), "</tt>");
  }

  /** The last part of a text made of two. */
  lemma Suffix(x: string, e: string)
    ensures (x + e)[|x + e| - |e|..] == e
  {
  }
}
