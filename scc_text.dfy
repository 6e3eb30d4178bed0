/** The payload codec of the SCC converter: one caption line to a string of
    four-digit hex codes (lineToText, addSpaceAfter4Characters), and a record
    payload back to caption lines (sccToLines, removeEmptyLinesFromArray). */
module SccText {
  import opened Wrappers
  import opened Text
  import opened Numerals
  import opened SccTables

  // ---------------------------------------------------------------- encoding

  /** A byte of a code: a character code is one byte, a special or extended
      code two. */
  type Byte = b: nat | b < 0x100

  /** The hex digits of a sequence of bytes, two per byte. */
  function HexString(bytes: seq<Byte>): (r: string)
    ensures |r| == 2 * |bytes| && ' ' !in r
    decreases |bytes|
  {
    if bytes == [] then "" else HexString(bytes[..|bytes| - 1]) + Hex2(bytes[|bytes| - 1])
  }

  /** Two digits per byte: the digits fill whole blocks exactly when the
      bytes come in pairs. */
  lemma HexStringBlocks(bytes: seq<Byte>)
    ensures |HexString(bytes)| % 4 == 0 <==> |bytes| % 2 == 0
    ensures |HexString(bytes)| % 4 == 2 <==> |bytes| % 2 == 1
  {
    var n := |bytes|;
    assert n % 2 == 0 ==> 2 * n == 4 * (n / 2);
    assert n % 2 == 1 ==> 2 * n == 4 * (n / 2) + 2;
  }

  lemma HexStringSnoc(bytes: seq<Byte>, b: Byte)
    ensures HexString(bytes + [b]) == HexString(bytes) + Hex2(b)
  {
    assert (bytes + [b])[..|bytes|] == bytes;
  }

  /** '#', which stands in for a character no table holds, has a code. */
  lemma NoSymbolCode()
    ensures CharacterCode('#').Some?
    ensures Character(CharacterCode('#').value) == Some("#")
  {
    assert Character(0x23) == Some("#");
    LastKeyOfIsLast(Character, "#", ByteKeys);
  }

  /** The padding byte 0x80, appended when the bytes so far end in the middle
      of a two-byte block. */
  function Fill(bytes: seq<Byte>): (r: seq<Byte>)
    ensures |r| % 2 == 0
  {
    if |bytes| % 2 == 1 then bytes + [0x80] else bytes
  }

  /** The bytes one character adds: its character code when the character
      table has it; else its special or extended code, after a fill when
      that code would not start a block; else the code of '#'. */
  function AppendCode(bytes: seq<Byte>, c: char): seq<Byte> {
    match CharacterCode(c)
    case Some(b) => bytes + [b as Byte]
    case None =>
      match SpecialCode(c)
      case Some(w) => Fill(bytes) + [(w / 0x100) as Byte, (w % 0x100) as Byte]
      case None =>
        match ExtendedCode(c)
        case Some(w) => Fill(bytes) + [(w / 0x100) as Byte, (w % 0x100) as Byte]
        case None =>
          match CharacterCode('#')
          case Some(b) => bytes + [b as Byte]
          case None => bytes
  }

  /** The bytes of a whole line, before the final fill. */
  function Codes(line: string): seq<Byte>
    decreases |line|
  {
    if line == [] then [] else AppendCode(Codes(line[..|line| - 1]), line[|line| - 1])
  }

  /** A string cut into four-character pieces (the last may be shorter). */
  function Chunks4(s: string): (r: seq<string>)
    ensures |r| >= 1
    ensures forall i :: 0 <= i < |r| ==> |r[i]| <= 4 && forall c :: c in r[i] ==> c in s
    decreases |s|
  {
    if |s| <= 4 then [s] else [s[..4]] + Chunks4(s[4..])
  }

  /** What addSpaceAfter4Characters returns: the four-character groups of a
      string separated by single spaces. */
  function Grouped(s: string): string {
    Join(Chunks4(s), ' ')
  }

  /** The space that addSpaceAfter4Characters writes before character i. */
  function SpaceBefore(i: nat): string {
    if i > 0 && i % 4 == 0 then " " else ""
  }

  lemma {:induction false} GroupedSnoc(s: string, c: char)
    ensures Grouped(s + [c]) == Grouped(s) + SpaceBefore(|s|) + [c]
    decreases |s|
  {
    if |s| < 4 {
    } else if |s| == 4 {
      assert (s + [c])[..4] == s && (s + [c])[4..] == [c];
      assert Chunks4(s + [c]) == [s, [c]];
      assert Join([s, [c]], ' ') == s + [' '] + Join([[c]], ' ');
    } else {
      var t := s[4..];
      assert (s + [c])[..4] == s[..4] && (s + [c])[4..] == t + [c];
      GroupedSnoc(t, c);
      assert |t| % 4 == |s| % 4;
    }
  }

  /** addSpaceAfter4Characters, as the source runs it. */
  method AddSpaceAfter4Characters(s: string) returns (result: string)
    ensures result == Grouped(s)
  {
    result := "";
    var i := 0;
    while i < |s|
      invariant 0 <= i <= |s|
      invariant result == Grouped(s[..i])
    {
      GroupedSnoc(s[..i], s[i]);
      assert s[..i + 1] == s[..i] + [s[i]];
      if i > 0 && i % 4 == 0 {
        result := result + " ";
      }
      result := result + [s[i]];
      i := i + 1;
    }
    assert s[..i] == s;
  }

  /** The digits lineToText appends for one code byte, for a fill, and for
      a four-digit code. */
  lemma HexOfFill(bytes: seq<Byte>)
    ensures HexString(Fill(bytes)) ==
      if |HexString(bytes)| % 4 == 2 then HexString(bytes) + "80" else HexString(bytes)
  {
    HexStringBlocks(bytes);
    if |bytes| % 2 == 1 {
      HexStringSnoc(bytes, 0x80);
    }
  }

  lemma HexOfWide(bytes: seq<Byte>, w: nat)
    requires w < 0x10000
    ensures HexString(bytes + [(w / 0x100) as Byte, (w % 0x100) as Byte]) == HexString(bytes) + Hex4(w)
  {
    var hi: Byte := (w / 0x100) as Byte;
    var lo: Byte := (w % 0x100) as Byte;
    assert bytes + [hi, lo] == (bytes + [hi]) + [lo];
    HexStringSnoc(bytes, hi);
    HexStringSnoc(bytes + [hi], lo);
  }

  lemma CodesSnoc(line: string, i: nat)
    requires i < |line|
    ensures Codes(line[..i + 1]) == AppendCode(Codes(line[..i]), line[i])
  {
    assert line[..i + 1][..i] == line[..i];
  }

  /** lineToText: the codes of one caption line, as the source builds them,
      character by character. */
  method LineToText(line: string) returns (codes: string)
    ensures codes == Grouped(HexString(Fill(Codes(line))))
  {
    var digits := "";
    var i := 0;
    while i < |line|
      invariant 0 <= i <= |line|
      invariant digits == HexString(Codes(line[..i]))
    {
      var c := line[i];
      ghost var before := Codes(line[..i]);
      ghost var after := Codes(line[..i + 1]);
      var code := CharacterCode(c);
      if code.Some? {
        assert digits + Hex2(code.value) == HexString(after) by {
          CodesSnoc(line, i);
          assert after == before + [code.value as Byte];
          HexStringSnoc(before, code.value as Byte);
        }
        digits := digits + Hex2(code.value);
      } else {
        var special := SpecialCode(c);
        if special.Some? {
          var w := special.value;
          assert HexString(after) == HexString(Fill(before)) + Hex4(w) by {
            CodesSnoc(line, i);
            assert after == Fill(before) + [(w / 0x100) as Byte, (w % 0x100) as Byte];
            HexOfWide(Fill(before), w);
          }
          HexOfFill(before);
          if |digits| % 4 == 2 {
            digits := digits + "80";
          }
          assert digits == HexString(Fill(before));
          digits := digits + Hex4(w);
        } else {
          var extended := ExtendedCode(c);
          if extended.Some? {
            var w := extended.value;
            assert HexString(after) == HexString(Fill(before)) + Hex4(w) by {
              CodesSnoc(line, i);
              assert after == Fill(before) + [(w / 0x100) as Byte, (w % 0x100) as Byte];
              HexOfWide(Fill(before), w);
            }
            HexOfFill(before);
            if |digits| % 4 == 2 {
              digits := digits + "80";
            }
            assert digits == HexString(Fill(before));
            digits := digits + Hex4(w);
          } else {
            var noSymbol := CharacterCode('#');
            if noSymbol.Some? {
              assert digits + Hex2(noSymbol.value) == HexString(after) by {
                CodesSnoc(line, i);
                assert after == before + [noSymbol.value as Byte];
                HexStringSnoc(before, noSymbol.value as Byte);
              }
              digits := digits + Hex2(noSymbol.value);
            } else {
              assert after == before by {
                CodesSnoc(line, i);
              }
            }
          }
        }
      }
      i := i + 1;
    }
    assert line[..i] == line;
    HexOfFill(Codes(line));
    if |digits| % 4 == 2 {
      digits := digits + "80";
    }
    codes := AddSpaceAfter4Characters(digits);
  }

  // ---------------------------------------------------------------- decoding

  /** A four-digit block looked up in a table keyed by four-digit codes. */
  function LookupWide(table: int -> Option<string>, block: string): Option<string> {
    match ParseHex4(block)
    case Some(w) => table(w)
    case None => None
  }

  /** self::$characters[$part]: a missing key reads as null, which
      concatenates as the empty string. */
  function LookupCharacter(part: string): string {
    match ParseHex2(part)
    case Some(b) => (match Character(b) case Some(v) => v case None => "")
    case None => ""
  }

  /** True of a command whose semantics include a line break. */
  predicate IsBreak(command: string) {
    Contains(command, "break")
  }

  /** What one block of a payload adds to the text: a command adds a newline
      if it breaks the line and nothing otherwise; then the extended table,
      then the special table, are tried; anything else is read as two
      two-digit character codes. */
  function DecodeBlock(block: string): string {
    var command := LookupWide(Command, block);
    if command.Some? then (if IsBreak(command.value) then "\n" else "")
    else
      var extended := LookupWide(ExtendedChar, block);
      if extended.Some? then extended.value
      else
        var special := LookupWide(SpecialChar, block);
        if special.Some? then special.value
        else LookupCharacter(Substr(block, 0, 2)) + LookupCharacter(Substr(block, 2, 2))
  }

  /** A command block adds a newline exactly when its command breaks the
      line. */
  lemma DecodeCommand(block: string, w: int, command: string)
    requires ParseHex4(block) == Some(w) && Command(w) == Some(command)
    ensures DecodeBlock(block) == if IsBreak(command) then "\n" else ""
  {
  }

  /** Miscellaneous control codes add no text: the roll-up and carriage
      return of the sample record in the source's comments, a tab offset,
      and the end of italics. */
  lemma SilentControls()
    ensures DecodeBlock("9425") == "" && DecodeBlock("94ad") == ""
    ensures DecodeBlock("97a1") == "" && DecodeBlock("9120") == ""
  {
    assert ParseHex4("9425") == Some(0x9425) by { assert "9425"[..2] == "94" && "9425"[2..] == "25"; }
    assert ParseHex4("94ad") == Some(0x94ad) by { assert "94ad"[..2] == "94" && "94ad"[2..] == "ad"; }
    assert ParseHex4("97a1") == Some(0x97a1) by { assert "97a1"[..2] == "97" && "97a1"[2..] == "a1"; }
    DecodeCommand("9425", 0x9425, "");
    DecodeCommand("94ad", 0x94ad, "");
    DecodeCommand("97a1", 0x97a1, "");
    EndItalicsSilent();
  }

  /** The end-of-italics command holds no "break". */
  lemma EndItalicsSilent()
    ensures DecodeBlock("9120") == ""
  {
    assert ParseHex4("9120") == Some(0x9120) by { assert "9120"[..2] == "91" && "9120"[2..] == "20"; }
    var command := "<$>{end-italic}<$>";
    LacksFirst(command, "break");
    DecodeCommand("9120", 0x9120, command);
  }

  /** The text of a sequence of blocks. */
  function DecodeBlocks(blocks: seq<string>): string {
    ConcatMap(DecodeBlock, blocks)
  }


  /** True of a line that trim() leaves non-empty. */
  predicate NonBlank(line: string) {
    Trim(line) != ""
  }

  /** removeEmptyLinesFromArray: array_filter keeps the lines that are not
      blank, array_values renumbers them. */
  function RemoveEmptyLines(lines: seq<string>): (r: seq<string>)
    ensures |r| <= |lines|
    decreases |lines|
  {
    if lines == [] then []
    else if NonBlank(lines[0]) then [lines[0]] + RemoveEmptyLines(lines[1..])
    else RemoveEmptyLines(lines[1..])
  }

  /** The filter keeps exactly the lines that are not blank. */
  lemma {:induction false} RemoveEmptyLinesMembers(lines: seq<string>)
    ensures forall x :: x in RemoveEmptyLines(lines) <==> x in lines && NonBlank(x)
    decreases |lines|
  {
    if lines != [] {
      RemoveEmptyLinesMembers(lines[1..]);
      assert lines == [lines[0]] + lines[1..];
    }
  }

  /** The filter keeps the order of the lines: it filters each part of a
      split list on its own. */
  lemma {:induction false} RemoveEmptyLinesAppend(a: seq<string>, b: seq<string>)
    ensures RemoveEmptyLines(a + b) == RemoveEmptyLines(a) + RemoveEmptyLines(b)
    decreases |a|
  {
    if a == [] {
      assert a + b == b;
    } else {
      assert (a + b)[0] == a[0] && (a + b)[1..] == a[1..] + b;
      RemoveEmptyLinesAppend(a[1..], b);
    }
  }

  /** The caption lines of a record payload: the blocks of the trimmed
      payload, decoded one after the other into a text, cut at the newlines,
      without the blank lines. */
  function DecodePayload(data: string): seq<string> {
    RemoveEmptyLines(Split(DecodeBlocks(Split(Trim(data), ' ')), '\n'))
  }

  /** sccToLines, as the source runs it: a loop over the blocks that appends
      what each one decodes to. */
  method SccToLines(data: string) returns (lines: seq<string>)
    ensures lines == DecodePayload(data)
  {
    var blocks := Split(Trim(data), ' ');
    var text := "";
    var i := 0;
    while i < |blocks|
      invariant 0 <= i <= |blocks|
      invariant text == DecodeBlocks(blocks[..i])
    {
      assert blocks[..i + 1][..i] == blocks[..i];
      text := text + DecodeBlock(blocks[i]);
      i := i + 1;
    }
    assert blocks[..i] == blocks;
    lines := RemoveEmptyLines(Split(text, '\n'));
  }

  // ------------------------------------------------------------ round trip

  /** The character a line shows once encoded: itself when one of the tables
      holds it, '#' otherwise. */
  function Printable(c: char): char {
    if CharacterCode(c).Some? || SpecialCode(c).Some? || ExtendedCode(c).Some? then c else '#'
  }

  function Printed(line: string): (r: string)
    ensures |r| == |line|
    decreases |line|
  {
    if line == [] then "" else Printed(line[..|line| - 1]) + [Printable(line[|line| - 1])]
  }

  /** No character of a line is shown as a newline: the tables hold none. */
  lemma PrintableNotNewline(c: char)
    ensures Printable(c) != '\n'
  {
    if c == '\n' {
      NoNewlineCharacter();
      NoNewlineSpecial();
      NoNewlineExtended();
      assert CharacterCode(c).None?;
      assert SpecialCode(c).None?;
      assert ExtendedCode(c).None?;
    }
  }

  lemma {:induction false} PrintedHasNoNewline(line: string)
    ensures '\n' !in Printed(line)
    decreases |line|
  {
    if line != [] {
      PrintedHasNoNewline(line[..|line| - 1]);
      PrintableNotNewline(line[|line| - 1]);
    }
  }

  /** The text of a digit string read in four-digit blocks. */
  function Decoded(digits: string): string {
    DecodeBlocks(Chunks4(digits))
  }

  /** The text of one block of two bytes. */
  function PairText(x: Byte, y: Byte): string {
    DecodeBlock(Hex2(x) + Hex2(y))
  }

  /** The text of an even number of bytes read two at a time. */
  function PairsText(bytes: seq<Byte>): string
    requires |bytes| % 2 == 0
    decreases |bytes|
  {
    if bytes == [] then ""
    else PairsText(bytes[..|bytes| - 2]) + PairText(bytes[|bytes| - 2], bytes[|bytes| - 1])
  }

  lemma PairsTextSnoc(bytes: seq<Byte>, x: Byte, y: Byte)
    requires |bytes| % 2 == 0
    ensures PairsText(bytes + [x, y]) == PairsText(bytes) + PairText(x, y)
  {
    var more := bytes + [x, y];
    assert more[..|more| - 2] == bytes;
  }

  lemma HexStringPair(bytes: seq<Byte>, x: Byte, y: Byte)
    ensures HexString(bytes + [x, y]) == HexString(bytes) + (Hex2(x) + Hex2(y))
  {
    assert bytes + [x, y] == (bytes + [x]) + [y];
    HexStringSnoc(bytes, x);
    HexStringSnoc(bytes + [x], y);
  }

  /** A block whose first byte is no control lead is read as two character
      codes; padding in the second half reads as nothing. */
  lemma DecodeCharacterPair(h: Byte, l: Byte)
    requires NotControlLead(h) && Character(l).Some?
    ensures PairText(h, l) == LookupCharacter(Hex2(h)) + Character(l).value
  {
    var block := Hex2(h) + Hex2(l);
    ParseHex4OfHex2Pair(h, l);
    ParseHex2OfHex2(l);
    var w := h * 0x100 + l;
    assert w / 0x100 == h;
    CommandKeys();
    SpecialKeys();
    ExtendedKeys();
    ExtendedNotCommand();
    assert Substr(block, 0, 2) == Hex2(h);
    assert Substr(block, 2, 2) == Hex2(l);
  }

  /** A character code read back through the character table. */
  lemma LookupCharacterCode(b: Byte, x: string)
    requires Character(b) == Some(x)
    ensures LookupCharacter(Hex2(b)) == x && NotControlLead(b)
  {
    ParseHex2OfHex2(b);
    CharacterKeys();
  }

  /** A special or extended code decodes to its character. */
  lemma DecodeWideCode(w: nat, x: string)
    requires w < 0x10000
    requires SpecialChar(w) == Some(x) || ExtendedChar(w) == Some(x)
    ensures PairText((w / 0x100) as Byte, (w % 0x100) as Byte) == x
  {
    ParseHex4OfHex4(w);
    SpecialKeys();
    ExtendedKeys();
    ExtendedNotCommand();
  }

  lemma {:induction false} ChunksAppend(a: string, b: string)
    requires |a| % 4 == 0 && a != [] && b != []
    ensures Chunks4(a + b) == Chunks4(a) + Chunks4(b)
    decreases |a|
  {
    assert (a + b)[..4] == a[..4];
    assert (a + b)[4..] == a[4..] + b;
    if |a| > 4 {
      ChunksAppend(a[4..], b);
    }
  }

  lemma SingleBlock(block: string)
    ensures DecodeBlocks([block]) == DecodeBlock(block)
  {
    assert [block][..0] == [];
    assert ConcatMap(DecodeBlock, [block]) == ConcatMap(DecodeBlock, []) + DecodeBlock(block);
  }

  /** A digit string that ends on a block boundary decodes separately from
      the block that follows. */
  lemma DecodedAppendBlock(a: string, block: string)
    requires |a| % 4 == 0 && |block| == 4
    ensures Decoded(a + block) == Decoded(a) + DecodeBlock(block)
  {
    assert Chunks4(block) == [block];
    SingleBlock(block);
    if a == [] {
      assert a + block == block;
    } else {
      ChunksAppend(a, block);
      ConcatMapAppend(DecodeBlock, Chunks4(a), Chunks4(block));
    }
  }

  lemma LastTwo(bytes: seq<Byte>)
    requires |bytes| >= 2
    ensures bytes == bytes[..|bytes| - 2] + [bytes[|bytes| - 2], bytes[|bytes| - 1]]
  {
  }

  lemma DecodedEmpty()
    ensures Decoded("") == ""
  {
    assert Chunks4("") == [""];
    SingleBlock("");
    assert ParseHex4("") == None && ParseHex2(Substr("", 0, 2)) == None;
  }

  lemma DecodedHexPair(bytes: seq<Byte>, x: Byte, y: Byte)
    requires |bytes| % 2 == 0
    ensures Decoded(HexString(bytes + [x, y])) == Decoded(HexString(bytes)) + PairText(x, y)
  {
    HexStringPair(bytes, x, y);
    HexStringBlocks(bytes);
    DecodedAppendBlock(HexString(bytes), Hex2(x) + Hex2(y));
  }

  /** The hex digits of an even number of bytes decode two bytes at a time. */
  lemma {:induction false} DecodedHex(bytes: seq<Byte>)
    requires |bytes| % 2 == 0
    ensures Decoded(HexString(bytes)) == PairsText(bytes)
    decreases |bytes|
  {
    if bytes == [] {
      DecodedEmpty();
    } else {
      var init := bytes[..|bytes| - 2];
      var x := bytes[|bytes| - 2];
      var y := bytes[|bytes| - 1];
      DecodedHex(init);
      LastTwo(bytes);
      DecodedHexPair(init, x, y);
      PairsTextSnoc(init, x, y);
    }
  }

  /** The shape the bytes keep while lineToText appends: a half-full block
      starts with a byte that is no control lead. */
  predicate Aligned(bytes: seq<Byte>) {
    |bytes| % 2 == 1 ==> NotControlLead(bytes[|bytes| - 1])
  }

  /** A character code that starts a block: the fill completes it. */
  lemma OpenBlock(bytes: seq<Byte>, b: Byte, x: string)
    requires |bytes| % 2 == 0 && Character(b) == Some(x)
    ensures Aligned(bytes + [b])
    ensures PairsText(Fill(bytes + [b])) == PairsText(Fill(bytes)) + x
  {
    LookupCharacterCode(b, x);
    PaddingIsEmpty();
    assert Fill(bytes + [b]) == bytes + [b, 0x80];
    PairsTextSnoc(bytes, b, 0x80);
    DecodeCharacterPair(b, 0x80);
  }

  lemma LastOne(bytes: seq<Byte>, b: Byte)
    requires |bytes| >= 1
    ensures bytes + [b] == bytes[..|bytes| - 1] + [bytes[|bytes| - 1], b]
    ensures Fill(bytes) == bytes[..|bytes| - 1] + [bytes[|bytes| - 1], 0x80] <== |bytes| % 2 == 1
  {
  }

  /** A block of a byte that is no control lead and a character code. */
  lemma PairBlock(init: seq<Byte>, b0: Byte, b: Byte)
    requires |init| % 2 == 0 && NotControlLead(b0) && Character(b).Some?
    ensures PairsText(init + [b0, b]) == PairsText(init) + LookupCharacter(Hex2(b0)) + Character(b).value
  {
    PairsTextSnoc(init, b0, b);
    DecodeCharacterPair(b0, b);
  }

  /** A half-full block is completed by the fill, which reads as nothing. */
  lemma FillHalfBlock(bytes: seq<Byte>)
    requires |bytes| % 2 == 1 && Aligned(bytes)
    ensures PairsText(Fill(bytes)) ==
      PairsText(bytes[..|bytes| - 1]) + LookupCharacter(Hex2(bytes[|bytes| - 1]))
  {
    LastOne(bytes, 0x80);
    PaddingIsEmpty();
    PairBlock(bytes[..|bytes| - 1], bytes[|bytes| - 1], 0x80);
  }

  /** A half-full block completed by a character code. */
  lemma CompleteHalfBlock(bytes: seq<Byte>, b: Byte, x: string)
    requires |bytes| % 2 == 1 && Aligned(bytes) && Character(b) == Some(x)
    ensures PairsText(Fill(bytes + [b])) ==
      PairsText(bytes[..|bytes| - 1]) + LookupCharacter(Hex2(bytes[|bytes| - 1])) + x
  {
    LastOne(bytes, b);
    PairBlock(bytes[..|bytes| - 1], bytes[|bytes| - 1], b);
  }

  /** A character code that completes a half-full block, in place of the fill. */
  lemma CloseBlock(bytes: seq<Byte>, b: Byte, x: string)
    requires |bytes| % 2 == 1 && Aligned(bytes) && Character(b) == Some(x)
    ensures Aligned(bytes + [b])
    ensures PairsText(Fill(bytes + [b])) == PairsText(Fill(bytes)) + x
  {
    FillHalfBlock(bytes);
    CompleteHalfBlock(bytes, b, x);
  }

  lemma AppendCharacterCode(bytes: seq<Byte>, b: Byte, x: string)
    requires Aligned(bytes) && Character(b) == Some(x)
    ensures Aligned(bytes + [b])
    ensures PairsText(Fill(bytes + [b])) == PairsText(Fill(bytes)) + x
  {
    if |bytes| % 2 == 0 {
      OpenBlock(bytes, b, x);
    } else {
      CloseBlock(bytes, b, x);
    }
  }

  /** A special or extended code appended after the fill. */
  lemma AppendWideCode(bytes: seq<Byte>, w: nat, x: string)
    requires w < 0x10000
    requires SpecialChar(w) == Some(x) || ExtendedChar(w) == Some(x)
    ensures Aligned(Fill(bytes) + [(w / 0x100) as Byte, (w % 0x100) as Byte])
    ensures PairsText(Fill(Fill(bytes) + [(w / 0x100) as Byte, (w % 0x100) as Byte]))
      == PairsText(Fill(bytes)) + x
  {
    var filled := Fill(bytes);
    var next := filled + [(w / 0x100) as Byte, (w % 0x100) as Byte];
    assert Fill(next) == next;
    PairsTextSnoc(filled, (w / 0x100) as Byte, (w % 0x100) as Byte);
    DecodeWideCode(w, x);
  }

  /** A character with a character code decodes to itself. */
  lemma NarrowCharDecode(bytes: seq<Byte>, c: char, b: int)
    requires Aligned(bytes) && CharacterCode(c) == Some(b)
    ensures Aligned(AppendCode(bytes, c))
    ensures PairsText(Fill(AppendCode(bytes, c))) == PairsText(Fill(bytes)) + [Printable(c)]
  {
    assert AppendCode(bytes, c) == bytes + [b as Byte];
    assert Printable(c) == c;
    AppendCharacterCode(bytes, b as Byte, [c]);
  }

  lemma SpecialCharDecode(bytes: seq<Byte>, c: char, w: int)
    requires CharacterCode(c).None? && SpecialCode(c) == Some(w)
    ensures Aligned(AppendCode(bytes, c))
    ensures PairsText(Fill(AppendCode(bytes, c))) == PairsText(Fill(bytes)) + [Printable(c)]
  {
    assert AppendCode(bytes, c) == Fill(bytes) + [(w / 0x100) as Byte, (w % 0x100) as Byte];
    assert Printable(c) == c;
    AppendWideCode(bytes, w, [c]);
  }

  lemma ExtendedCharDecode(bytes: seq<Byte>, c: char, w: int)
    requires CharacterCode(c).None? && SpecialCode(c).None? && ExtendedCode(c) == Some(w)
    ensures Aligned(AppendCode(bytes, c))
    ensures PairsText(Fill(AppendCode(bytes, c))) == PairsText(Fill(bytes)) + [Printable(c)]
  {
    assert AppendCode(bytes, c) == Fill(bytes) + [(w / 0x100) as Byte, (w % 0x100) as Byte];
    assert Printable(c) == c;
    AppendWideCode(bytes, w, [c]);
  }

  /** A character no table holds decodes to '#'. */
  lemma UnknownCharDecode(bytes: seq<Byte>, c: char)
    requires Aligned(bytes)
    requires CharacterCode(c).None? && SpecialCode(c).None? && ExtendedCode(c).None?
    ensures Aligned(AppendCode(bytes, c))
    ensures PairsText(Fill(AppendCode(bytes, c))) == PairsText(Fill(bytes)) + [Printable(c)]
  {
    NoSymbolCode();
    var b := CharacterCode('#').value;
    assert AppendCode(bytes, c) == bytes + [b as Byte];
    assert Printable(c) == '#';
    AppendCharacterCode(bytes, b as Byte, "#");
  }

  /** One more character of a line decodes to its printable form. */
  lemma AppendCodeDecode(bytes: seq<Byte>, c: char)
    requires Aligned(bytes)
    ensures Aligned(AppendCode(bytes, c))
    ensures PairsText(Fill(AppendCode(bytes, c))) == PairsText(Fill(bytes)) + [Printable(c)]
  {
    if CharacterCode(c).Some? {
      NarrowCharDecode(bytes, c, CharacterCode(c).value);
    } else if SpecialCode(c).Some? {
      SpecialCharDecode(bytes, c, SpecialCode(c).value);
    } else if ExtendedCode(c).Some? {
      ExtendedCharDecode(bytes, c, ExtendedCode(c).value);
    } else {
      UnknownCharDecode(bytes, c);
    }
  }

  /** The codes of a line decode to the printable form of the line. */
  lemma {:induction false} CodesDecode(line: string)
    ensures Aligned(Codes(line))
    ensures PairsText(Fill(Codes(line))) == Printed(line)
    decreases |line|
  {
    if line != [] {
      var init := line[..|line| - 1];
      var c := line[|line| - 1];
      CodesDecode(init);
      AppendCodeDecode(Codes(init), c);
    }
  }

  /** Decoding the codes lineToText writes for a line gives the line back,
      with '#' for every character no table holds. */
  lemma LineRoundTrip(line: string)
    ensures DecodeBlocks(Split(Grouped(HexString(Fill(Codes(line)))), ' ')) == Printed(line)
  {
    var digits := HexString(Fill(Codes(line)));
    SplitJoin(Chunks4(digits), ' ');
    DecodedHex(Fill(Codes(line)));
    CodesDecode(line);
  }
}
