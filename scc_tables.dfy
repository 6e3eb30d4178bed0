/** The CEA-608 code tables of the Scenarist (SCC) converter.

    The source keeps each table as a PHP array keyed by a lower-case hex
    string: two digits for a character, four for a command or a special or
    extended character. Here each table is a function from the number that
    key denotes to the value, None standing for a missing key. The decoder
    only looks a block up after reading it as exactly two or four lower-case
    hex digits, which is the same test as the string lookup because every key
    in the source tables has that form.

    All four tables are complete.
    */
module SccTables {
  import opened Wrappers

  /** Command codes. The value names the control semantics ("{break}",
      "{italic}", ...) and is empty for a code with no effect on the text.
      The table is the source's, grouped by the code's first byte: a group
      of miscellaneous control codes for some first bytes, and the
      preamble address codes, which are the same second bytes under seven
      first bytes (0x10 has only the first half of them). */
  function Command(w: int): Option<string> {
    if 0 <= w < 0x10000 then CommandOf(w / 0x100, w % 0x100) else None
  }

  /** The command whose first byte is lead and second byte is low. */
  function CommandOf(lead: int, low: int): Option<string> {
    match lead
      case 0x94 => if MiscControl(low).Some? then MiscControl(low) else Preamble(low)
      case 0x97 => if MiscControl97(low).Some? then MiscControl97(low) else Preamble(low)
      case 0x91 => if MiscControl91(low).Some? then MiscControl91(low) else Preamble(low)
      case 0x10 => if MiscControl(low).Some? then MiscControl(low) else if low % 0x80 < 0x60 then Preamble(low) else None
      case 0x92 => Preamble(low)
      case 0x13 => Preamble(low)
      case 0x15 => Preamble(low)
      case 0x16 => Preamble(low)
      case _ => None
  }

  /** The second bytes of the miscellaneous control codes under 0x94 and
      0x10, none of which changes the text. */
  function MiscControl(low: int): Option<string> {
    match low
      case 0x20 => Some("")
      case 0x23 => Some("")
      case 0x25 => Some("")
      case 0x26 => Some("")
      case 0x29 => Some("")
      case 0x2a => Some("")
      case 0x2c => Some("")
      case 0x2f => Some("")
      case 0xa1 => Some("")
      case 0xa2 => Some("")
      case 0xa4 => Some("")
      case 0xa7 => Some("")
      case 0xa8 => Some("")
      case 0xab => Some("")
      case 0xad => Some("")
      case 0xae => Some("")
      case _ => None
  }

  /** The miscellaneous control codes under 0x97. */
  function MiscControl97(low: int): Option<string> {
    match low
      case 0x23 => Some("")
      case 0x25 => Some("")
      case 0x26 => Some("")
      case 0x29 => Some("")
      case 0x2a => Some("")
      case 0x2f => Some("")
      case 0xa1 => Some("")
      case 0xa2 => Some("")
      case 0xa4 => Some("")
      case 0xa7 => Some("")
      case 0xa8 => Some("")
      case 0xad => Some("")
      case 0xae => Some("")
      case _ => None
  }

  /** The miscellaneous control codes under 0x91, among them the italic
      switches. */
  function MiscControl91(low: int): Option<string> {
    match low
      case 0x20 => Some("<$>{end-italic}<$>")
      case 0x23 => Some("")
      case 0x25 => Some("")
      case 0x26 => Some("")
      case 0x29 => Some("")
      case 0x2a => Some("")
      case 0x2c => Some("")
      case 0xa1 => Some("")
      case 0xa2 => Some("")
      case 0xa4 => Some("")
      case 0xa7 => Some("")
      case 0xa8 => Some("")
      case 0xab => Some("")
      case 0xad => Some("")
      case 0x2f => Some("<$>{italic}<$>")
      case 0xae => Some("<$>{italic}<$>")
      case _ => None
  }

  /** The second bytes of the preamble address codes: each starts a new row,
      four of them in italics. */
  function Preamble(low: int): Option<string> {
    match low
      case 0x40 => Some("<$>{break}<$>")
      case 0x43 => Some("<$>{break}<$>")
      case 0x45 => Some("<$>{break}<$>")
      case 0x46 => Some("<$>{break}<$>")
      case 0x49 => Some("<$>{break}<$>")
      case 0x4a => Some("<$>{break}<$>")
      case 0x4c => Some("<$>{break}<$>")
      case 0x51 => Some("<$>{break}<$>")
      case 0x52 => Some("<$>{break}<$>")
      case 0x54 => Some("<$>{break}<$>")
      case 0x57 => Some("<$>{break}<$>")
      case 0x58 => Some("<$>{break}<$>")
      case 0x5b => Some("<$>{break}<$>")
      case 0x5d => Some("<$>{break}<$>")
      case 0x5e => Some("<$>{break}<$>")
      case 0x61 => Some("<$>{break}<$>")
      case 0x62 => Some("<$>{break}<$>")
      case 0x64 => Some("<$>{break}<$>")
      case 0x67 => Some("<$>{break}<$>")
      case 0x68 => Some("<$>{break}<$>")
      case 0x6b => Some("<$>{break}<$>")
      case 0x6d => Some("<$>{break}<$>")
      case 0x70 => Some("<$>{break}<$>")
      case 0x73 => Some("<$>{break}<$>")
      case 0x75 => Some("<$>{break}<$>")
      case 0x76 => Some("<$>{break}<$>")
      case 0x79 => Some("<$>{break}<$>")
      case 0x7a => Some("<$>{break}<$>")
      case 0x7f => Some("<$>{break}<$>")
      case 0xc1 => Some("<$>{break}<$>")
      case 0xc2 => Some("<$>{break}<$>")
      case 0xc4 => Some("<$>{break}<$>")
      case 0xc7 => Some("<$>{break}<$>")
      case 0xc8 => Some("<$>{break}<$>")
      case 0xcb => Some("<$>{break}<$>")
      case 0xcd => Some("<$>{break}<$>")
      case 0xd0 => Some("<$>{break}<$>")
      case 0xd3 => Some("<$>{break}<$>")
      case 0xd5 => Some("<$>{break}<$>")
      case 0xd6 => Some("<$>{break}<$>")
      case 0xd9 => Some("<$>{break}<$>")
      case 0xda => Some("<$>{break}<$>")
      case 0xdc => Some("<$>{break}<$>")
      case 0xdf => Some("<$>{break}<$>")
      case 0xe0 => Some("<$>{break}<$>")
      case 0xe3 => Some("<$>{break}<$>")
      case 0xe5 => Some("<$>{break}<$>")
      case 0xe6 => Some("<$>{break}<$>")
      case 0xe9 => Some("<$>{break}<$>")
      case 0xea => Some("<$>{break}<$>")
      case 0xec => Some("<$>{break}<$>")
      case 0xf1 => Some("<$>{break}<$>")
      case 0xf2 => Some("<$>{break}<$>")
      case 0xf4 => Some("<$>{break}<$>")
      case 0xf7 => Some("<$>{break}<$>")
      case 0xf8 => Some("<$>{break}<$>")
      case 0xfb => Some("<$>{break}<$>")
      case 0xfc => Some("<$>{break}<$>")
      case 0xfd => Some("<$>{break}<$>")
      case 0xfe => Some("<$>{break}<$>")
      case 0x4f => Some("<$>{break}<$>{italic}<$>")
      case 0x6e => Some("<$>{break}<$>{italic}<$>")
      case 0xce => Some("<$>{break}<$>{italic}<$>")
      case 0xef => Some("<$>{break}<$>{italic}<$>")
      case _ => None
  }

  /** Two-digit character codes (odd parity, so 'A' is 0xc1). The padding
      codes 0x7f and 0x80 stand for no character at all. */
  function Character(b: int): Option<string> {
    match b
      case 0x20 => Some(" ")
      case 0xa1 => Some("!")
      case 0xa2 => Some("\"")
      case 0x23 => Some("#")
      case 0xa4 => Some("$")
      case 0x25 => Some("%")
      case 0x26 => Some("&")
      case 0xa7 => Some("'")
      case 0xa8 => Some("(")
      case 0x29 => Some(")")
      case 0x2a => Some("\U{00e1}")
      case 0xab => Some("+")
      case 0x2c => Some(",")
      case 0xad => Some("-")
      case 0xae => Some(".")
      case 0x2f => Some("/")
      case 0xb0 => Some("0")
      case 0x31 => Some("1")
      case 0x32 => Some("2")
      case 0xb3 => Some("3")
      case 0x34 => Some("4")
      case 0xb5 => Some("5")
      case 0xb6 => Some("6")
      case 0x37 => Some("7")
      case 0x38 => Some("8")
      case 0xb9 => Some("9")
      case 0xba => Some(":")
      case 0x3b => Some(";")
      case 0xbc => Some("<")
      case 0x3d => Some("=")
      case 0x3e => Some(">")
      case 0xbf => Some("?")
      case 0x40 => Some("@")
      case 0xc1 => Some("A")
      case 0xc2 => Some("B")
      case 0x43 => Some("C")
      case 0xc4 => Some("D")
      case 0x45 => Some("E")
      case 0x46 => Some("F")
      case 0xc7 => Some("G")
      case 0xc8 => Some("H")
      case 0x49 => Some("I")
      case 0x4a => Some("J")
      case 0xcb => Some("K")
      case 0x4c => Some("L")
      case 0xcd => Some("M")
      case 0xce => Some("N")
      case 0x4f => Some("O")
      case 0xd0 => Some("P")
      case 0x51 => Some("Q")
      case 0x52 => Some("R")
      case 0xd3 => Some("S")
      case 0x54 => Some("T")
      case 0xd5 => Some("U")
      case 0xd6 => Some("V")
      case 0x57 => Some("W")
      case 0x58 => Some("X")
      case 0xd9 => Some("Y")
      case 0xda => Some("Z")
      case 0x5b => Some("[")
      case 0xdc => Some("\U{00e9}")
      case 0x5d => Some("]")
      case 0x5e => Some("\U{00ed}")
      case 0xdf => Some("\U{00f3}")
      case 0xe0 => Some("\U{00fa}")
      case 0x61 => Some("a")
      case 0x62 => Some("b")
      case 0xe3 => Some("c")
      case 0x64 => Some("d")
      case 0xe5 => Some("e")
      case 0xe6 => Some("f")
      case 0x67 => Some("g")
      case 0x68 => Some("h")
      case 0xe9 => Some("i")
      case 0xea => Some("j")
      case 0x6b => Some("k")
      case 0xec => Some("l")
      case 0x6d => Some("m")
      case 0x6e => Some("n")
      case 0xef => Some("o")
      case 0x70 => Some("p")
      case 0xf1 => Some("q")
      case 0xf2 => Some("r")
      case 0x73 => Some("s")
      case 0xf4 => Some("t")
      case 0x75 => Some("u")
      case 0x76 => Some("v")
      case 0xf7 => Some("w")
      case 0xf8 => Some("x")
      case 0x79 => Some("y")
      case 0x7a => Some("z")
      case 0xfb => Some("\U{00e7}")
      case 0x7c => Some("\U{00f7}")
      case 0xfd => Some("\U{00d1}")
      case 0xfe => Some("\U{00f1}")
      case 0x7f => Some("")
      case 0x80 => Some("")
      case _ => None
  }

  /** Four-digit special characters (0x91xx). */
  function SpecialChar(w: int): Option<string> {
    match w
      case 0x91b0 => Some("\U{00ae}")
      case 0x9131 => Some("\U{00b0}")
      case 0x9132 => Some("\U{00bd}")
      case 0x91b3 => Some("\U{00bf}")
      case 0x9134 => Some("\U{2122}")
      case 0x91b5 => Some("\U{00a2}")
      case 0x91b6 => Some("\U{00a3}")
      case 0x9137 => Some("\U{266a}")
      case 0x9138 => Some("\U{00e0}")
      case 0x91b9 => Some(" ")
      case 0x91ba => Some("\U{00e8}")
      case 0x913b => Some("\U{00e2}")
      case 0x91bc => Some("\U{00ea}")
      case 0x913d => Some("\U{00ee}")
      case 0x913e => Some("\U{00f4}")
      case 0x91bf => Some("\U{00fb}")
      case _ => None
  }

  /** Four-digit extended characters (0x92xx and 0x13xx). */
  function ExtendedChar(w: int): Option<string> {
    match w
      case 0x9220 => Some("\U{00c1}")
      case 0x92a1 => Some("\U{00c9}")
      case 0x92a2 => Some("\U{00d3}")
      case 0x9223 => Some("\U{00da}")
      case 0x92a4 => Some("\U{00dc}")
      case 0x9225 => Some("\U{00fc}")
      case 0x9226 => Some("\U{2018}")
      case 0x92a7 => Some("\U{00a1}")
      case 0x92a8 => Some("*")
      case 0x9229 => Some("\U{2019}")
      case 0x922a => Some("\U{2014}")
      case 0x92ab => Some("\U{00a9}")
      case 0x922c => Some("\U{2120}")
      case 0x92ad => Some("\U{2022}")
      case 0x92ae => Some("\U{201c}")
      case 0x922f => Some("\U{201d}")
      case 0x92b0 => Some("\U{00c0}")
      case 0x9231 => Some("\U{00c2}")
      case 0x9232 => Some("\U{00c7}")
      case 0x92b3 => Some("\U{00c8}")
      case 0x9234 => Some("\U{00ca}")
      case 0x92b5 => Some("\U{00cb}")
      case 0x92b6 => Some("\U{00eb}")
      case 0x9237 => Some("\U{00ce}")
      case 0x9238 => Some("\U{00cf}")
      case 0x92b9 => Some("\U{00ef}")
      case 0x92ba => Some("\U{00d4}")
      case 0x923b => Some("\U{00d9}")
      case 0x92bc => Some("\U{00f9}")
      case 0x923d => Some("\U{00db}")
      case 0x923e => Some("\U{00ab}")
      case 0x92bf => Some("\U{00bb}")
      case 0x1320 => Some("\U{00c3}")
      case 0x13a1 => Some("\U{00e3}")
      case 0x13a2 => Some("\U{00cd}")
      case 0x1323 => Some("\U{00cc}")
      case 0x13a4 => Some("\U{00ec}")
      case 0x1325 => Some("\U{00d2}")
      case 0x1326 => Some("\U{00f2}")
      case 0x13a7 => Some("\U{00d5}")
      case 0x13a8 => Some("\U{00f5}")
      case 0x1329 => Some("{")
      case 0x132a => Some("}")
      case 0x13ab => Some("\\")
      case 0x132c => Some("^")
      case 0x13ad => Some("_")
      case 0x13ae => Some("\U{00a6}")
      case 0x132f => Some("~")
      case 0x13b0 => Some("\U{00c4}")
      case 0x1331 => Some("\U{00e4}")
      case 0x1332 => Some("\U{00d6}")
      case 0x13b3 => Some("\U{00f6}")
      case 0x1334 => Some("\U{00df}")
      case 0x13b5 => Some("\U{00a5}")
      case 0x13b6 => Some("\U{00a4}")
      case 0x1337 => Some("|")
      case 0x1338 => Some("\U{00c5}")
      case 0x13b9 => Some("\U{00e5}")
      case 0x13ba => Some("\U{00d8}")
      case 0x133b => Some("\U{00f8}")
      case 0x13bc => Some("\U{250c}")
      case 0x133d => Some("\U{2510}")
      case 0x133e => Some("\U{2514}")
      case 0x13bf => Some("\U{2518}")
      case _ => None
  }

  /** True of a byte whose high nibble is neither 1 nor 9: such a byte never
      starts a command, special or extended code. */
  predicate NotControlLead(b: int) { b / 0x10 != 0x1 && b / 0x10 != 0x9 }

  /** Every character code is a byte that cannot start a four-digit code,
      and stands for at most one character. */
  lemma CharacterKeys()
    ensures forall b :: Character(b).Some? ==>
      0 <= b < 0x100 && NotControlLead(b) && |Character(b).value| <= 1
  {
  }

  /** Only the two padding codes stand for nothing. */
  lemma PaddingIsEmpty()
    ensures Character(0x80) == Some("") && Character(0x7f) == Some("")
    ensures forall b :: Character(b) == Some("") ==> b == 0x80 || b == 0x7f
  {
  }

  /** Every command is a 16-bit code starting with 0x1 or 0x9. */
  lemma CommandKeys()
    ensures forall w :: Command(w).Some? ==> 0 <= w < 0x10000 && !NotControlLead(w / 0x100)
  {
  }

  /** The two runs of 16 codes the special characters live in. */
  predicate SpecialRange(w: int) {
    0x9130 <= w < 0x9140 || 0x91b0 <= w < 0x91c0
  }

  lemma SpecialInRange()
    ensures forall w :: SpecialChar(w).Some? ==> SpecialRange(w) && |SpecialChar(w).value| == 1
  {
  }

  /** A command's second byte is a miscellaneous control byte (0x20-0x2f
      and 0xa0-0xaf) or a preamble address byte (0x40-0x7f and 0xc0-0xff). */
  lemma CommandLows(w: int)
    requires Command(w).Some?
    ensures var low := w % 0x100; 0x20 <= low % 0x80 < 0x30 || 0x40 <= low % 0x80
  {
    var low := w % 0x100;
    assert MiscControl(low).Some? || MiscControl97(low).Some? || MiscControl91(low).Some? || Preamble(low).Some?;
  }

  lemma CommandOutsideSpecialRange()
    ensures forall w :: Command(w).Some? ==> !SpecialRange(w)
  {
    forall w | Command(w).Some? ensures !SpecialRange(w) {
      CommandLows(w);
    }
  }

  /** Special characters: 16-bit codes starting with 0x9, one character each,
      and neither a command nor an extended character. */
  lemma SpecialKeys()
    ensures forall w :: SpecialChar(w).Some? ==>
      0 <= w < 0x10000 && !NotControlLead(w / 0x100) && |SpecialChar(w).value| == 1
      && Command(w).None? && ExtendedChar(w).None?
  {
    SpecialInRange();
    CommandOutsideSpecialRange();
    ExtendedInRange();
  }

  /** Extended characters: 16-bit codes starting with 0x1 or 0x9, one
      character each. */
  lemma ExtendedKeys()
    ensures forall w :: ExtendedChar(w).Some? ==>
      0 <= w < 0x10000 && !NotControlLead(w / 0x100) && |ExtendedChar(w).value| == 1
  {
  }

  /** The four runs of 32 codes the extended characters live in. */
  predicate ExtendedRange(w: int) {
    0x9220 <= w < 0x9240 || 0x92a0 <= w < 0x92c0 || 0x1320 <= w < 0x1340 || 0x13a0 <= w < 0x13c0
  }

  lemma ExtendedInRange()
    ensures forall w :: ExtendedChar(w).Some? ==> ExtendedRange(w)
  {
  }

  lemma CommandOutsideExtendedRange()
    ensures forall w :: Command(w).Some? ==> !ExtendedRange(w)
  {
    forall w | Command(w).Some? ensures !ExtendedRange(w) {
      CommandLows(w);
    }
  }

  /** No extended character is also a command. */
  lemma ExtendedNotCommand()
    ensures forall w :: ExtendedChar(w).Some? ==> Command(w).None?
  {
    ExtendedInRange();
    CommandOutsideExtendedRange();
  }

  /** No table holds a newline, so a newline in a caption line is never
      written as itself. */
  lemma NoNewlineCharacter()
    ensures forall b :: Character(b) != Some("\n")
  {
  }

  lemma NoNewlineSpecial()
    ensures forall w :: SpecialChar(w) != Some("\n")
  {
  }

  lemma NoNewlineExtended()
    ensures forall w :: ExtendedChar(w) != Some("\n")
  {
  }

  /** The flipped tables (array_flip) as a search for the key that holds a
      value: the highest key below n, so for the one value two keys share
      (the empty padding value of 0x7f and 0x80) it is the later key, as with
      array_flip. */
  function LastKeyOf(table: int -> Option<string>, v: string, n: nat): (r: Option<int>)
    ensures r.Some? ==> 0 <= r.value < n && table(r.value) == Some(v)
    decreases n
  {
    if n == 0 then None
    else if table(n - 1) == Some(v) then Some(n - 1)
    else LastKeyOf(table, v, n - 1)
  }

  /** The search finds the last key holding the value, and misses only a
      value no key below n holds. */
  lemma {:induction false} LastKeyOfIsLast(table: int -> Option<string>, v: string, n: nat)
    ensures LastKeyOf(table, v, n).Some? ==>
      forall k :: LastKeyOf(table, v, n).value < k < n ==> table(k) != Some(v)
    ensures LastKeyOf(table, v, n).None? ==> forall k :: 0 <= k < n ==> table(k) != Some(v)
    decreases n
  {
    if n > 0 && table(n - 1) != Some(v) {
      LastKeyOfIsLast(table, v, n - 1);
    }
  }

  /** The key ranges searched: two-digit and four-digit hex codes. */
  const ByteKeys: nat := 0x100
  const WordKeys: nat := 0x10000

  /** array_flip of the character table, looked up with one character. */
  function CharacterCode(c: char): Option<int> {
    LastKeyOf(Character, [c], ByteKeys)
  }

  /** array_flip of the special-character table. */
  function SpecialCode(c: char): Option<int> {
    LastKeyOf(SpecialChar, [c], WordKeys)
  }

  /** array_flip of the extended-character table. */
  function ExtendedCode(c: char): Option<int> {
    LastKeyOf(ExtendedChar, [c], WordKeys)
  }
}
