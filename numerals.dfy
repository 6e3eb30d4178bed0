/** Decimal and hexadecimal numerals: the two-digit fields of a timecode, the
    numbers in TTML times and ids, and the hex codes of an SCC payload. */
module Numerals {
  import opened Wrappers

  predicate IsDigit(c: char) { '0' <= c <= '9' }

  predicate AllDigits(s: string) { forall i :: 0 <= i < |s| ==> IsDigit(s[i]) }

  /** The value of a string of decimal digits, most significant first. */
  function DecimalValue(s: string): nat
    requires AllDigits(s)
    decreases |s|
  {
    if s == [] then 0
    else DecimalValue(s[..|s| - 1]) * 10 + (s[|s| - 1] as int - '0' as int)
  }

  /** The shortest decimal numeral of n (PHP's string form of an integer). */
  function NatToDecimal(n: nat): (r: string)
    ensures |r| >= 1 && AllDigits(r)
    decreases n
  {
    var d := [('0' as int + n % 10) as char];
    if n < 10 then d else NatToDecimal(n / 10) + d
  }

  lemma {:induction false} DecimalOfNatToDecimal(n: nat)
    ensures DecimalValue(NatToDecimal(n)) == n
    decreases n
  {
    var r := NatToDecimal(n);
    if n >= 10 {
      DecimalOfNatToDecimal(n / 10);
      assert r[..|r| - 1] == NatToDecimal(n / 10);
    }
  }

  /** sprintf("%02d", n) for 0 <= n < 100. */
  function Pad2(n: nat): (r: string)
    requires n < 100
  {
    [('0' as int + n / 10) as char, ('0' as int + n % 10) as char]
  }

  lemma Pad2Value(n: nat)
    requires n < 100
    ensures |Pad2(n)| == 2 && AllDigits(Pad2(n)) && DecimalValue(Pad2(n)) == n
  {
    var r := Pad2(n);
    assert r[..1][..0] == [];
    assert DecimalValue(r[..1]) == n / 10;
    assert r[..|r| - 1] == r[..1];
  }

  /** Two digits read and written back are the same two digits. */
  lemma Pad2OfDecimal(s: string)
    requires |s| == 2 && AllDigits(s)
    ensures DecimalValue(s) < 100 && Pad2(DecimalValue(s)) == s
  {
    assert s[..1][..0] == [];
    assert s[..|s| - 1] == s[..1];
    var d0, d1 := s[0] as int - '0' as int, s[1] as int - '0' as int;
    var v := DecimalValue(s);
    assert DecimalValue(s[..1]) == DecimalValue(s[..1][..0]) * 10 + d0;
    assert v == d0 * 10 + d1;
    assert v / 10 == d0 && v % 10 == d1;
    assert Pad2(v)[0] == s[0] && Pad2(v)[1] == s[1];
  }

  /** The value of a lower-case hex digit; upper case is not a digit here,
      since every code in the tables is written in lower case. */
  function HexDigit(c: char): Option<nat> {
    if '0' <= c <= '9' then Some(c as int - '0' as int)
    else if 'a' <= c <= 'f' then Some(c as int - 'a' as int + 10)
    else None
  }

  function HexChar(d: nat): (c: char)
    requires d < 16
    ensures HexDigit(c) == Some(d)
  {
    if d < 10 then ('0' as int + d) as char else ('a' as int + d - 10) as char
  }

  /** A byte as two lower-case hex digits. */
  function Hex2(b: nat): (r: string)
    requires b < 0x100
    ensures |r| == 2 && ' ' !in r && '\n' !in r
  {
    [HexChar(b / 16), HexChar(b % 16)]
  }

  /** A 16-bit code as four lower-case hex digits. */
  function Hex4(w: nat): (r: string)
    requires w < 0x10000
    ensures |r| == 4 && ' ' !in r
  {
    Hex2(w / 0x100) + Hex2(w % 0x100)
  }

  /** Reads exactly two lower-case hex digits. */
  function ParseHex2(s: string): Option<nat> {
    if |s| != 2 then None
    else match (HexDigit(s[0]), HexDigit(s[1]))
      case (Some(h), Some(l)) => Some(h * 16 + l)
      case _ => None
  }

  /** Reads exactly four lower-case hex digits. */
  function ParseHex4(s: string): Option<nat> {
    if |s| != 4 then None
    else match (ParseHex2(s[..2]), ParseHex2(s[2..]))
      case (Some(h), Some(l)) => Some(h * 0x100 + l)
      case _ => None
  }

  lemma ParseHex2OfHex2(b: nat)
    requires b < 0x100
    ensures ParseHex2(Hex2(b)) == Some(b)
  {
  }

  lemma ParseHex4OfHex2Pair(h: nat, l: nat)
    requires h < 0x100 && l < 0x100
    ensures ParseHex4(Hex2(h) + Hex2(l)) == Some(h * 0x100 + l)
  {
    var s := Hex2(h) + Hex2(l);
    assert s[..2] == Hex2(h) && s[2..] == Hex2(l);
  }

  lemma ParseHex4OfHex4(w: nat)
    requires w < 0x10000
    ensures ParseHex4(Hex4(w)) == Some(w)
  {
    ParseHex4OfHex2Pair(w / 0x100, w % 0x100);
  }
}
