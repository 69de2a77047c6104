/** Hexadecimal text as the C++ streams write and read it: `std::hex` with
    `setw(2)` and `setfill('0')` writes a byte as two lowercase digits, and
    extracting an `unsigned int` with `std::hex` reads the leading hex digits
    of a word. */
module Hex {
  import opened Ascii

  predicate IsHexDigit(c: char)
  {
    IsDigit(c) || 'a' <= c <= 'f' || 'A' <= c <= 'F'
  }

  function HexDigitValue(c: char): (v: nat)
    requires IsHexDigit(c)
    ensures v < 16
  {
    if IsDigit(c) then c as int - '0' as int
    else if 'a' <= c <= 'f' then c as int - 'a' as int + 10
    else c as int - 'A' as int + 10
  }

  /** Length of the run of hex digits that starts `t`. */
  function HexRun(t: String8): (n: nat)
    ensures n <= |t|
    ensures forall i :: 0 <= i < n ==> IsHexDigit(t[i])
  {
    if t == [] || !IsHexDigit(t[0]) then 0 else 1 + HexRun(t[1..])
  }

  /** The value of a string of hex digits, most significant first. */
  function DigitsValue(d: String8): nat
    requires forall i :: 0 <= i < |d| ==> IsHexDigit(d[i])
  {
    if d == [] then 0 else 16 * DigitsValue(d[..|d| - 1]) + HexDigitValue(d[|d| - 1])
  }

  /** What `ss >> std::hex >> byte` stores in an `unsigned int` from a word:
      the value of its leading hex digits, the largest `unsigned int` when
      that value does not fit, and 0 when the word has no leading digit. */
  function ExtractHex(t: String8): (v: nat)
    ensures v <= 0xFFFF_FFFF
  {
    var value := DigitsValue(t[..HexRun(t)]);
    if value > 0xFFFF_FFFF then 0xFFFF_FFFF else value
  }

  /** What extracting an `unsigned int` with `std::hex` stores from text:
      white space is skipped, then the word's leading digits are read. When
      nothing but white space is left, the extraction fails before any
      conversion and leaves the variable as it was; this function gives 0
      there, a value the source does not promise. */
  function ReadHex(s: String8): (v: nat)
    ensures v <= 0xFFFF_FFFF
  {
    if s != [] && IsSpace(s[0]) then ReadHex(s[1..]) else ExtractHex(s)
  }

  /** The two lowercase hex digits of a byte, high digit first. */
  function HexChar(v: nat): (c: Char8)
    requires v < 16
    ensures IsHexDigit(c) && HexDigitValue(c) == v
  {
    if v < 10 then ('0' as int + v) as char else ('a' as int + v - 10) as char
  }

  function Hex2(b: Byte): (r: String8)
    ensures |r| == 2
  {
    [HexChar(b / 16), HexChar(b % 16)]
  }

  /** A leading '0' does not change the value of a word. */
  lemma {:induction false} LeadingZero(t: String8)
    ensures HexRun(['0'] + t) == 1 + HexRun(t)
    ensures DigitsValue((['0'] + t)[..1 + HexRun(t)]) == DigitsValue(t[..HexRun(t)])
  {
    assert (['0'] + t)[1..] == t;
    var n := HexRun(t);
    LeadingZeroValue(t[..n]);
    assert (['0'] + t)[..1 + n] == ['0'] + t[..n];
  }

  lemma {:induction false} LeadingZeroValue(d: String8)
    requires forall i :: 0 <= i < |d| ==> IsHexDigit(d[i])
    ensures DigitsValue(['0'] + d) == DigitsValue(d)
  {
    if d != [] {
      var z := ['0'] + d;
      assert z[..|z| - 1] == ['0'] + d[..|d| - 1];
      LeadingZeroValue(d[..|d| - 1]);
    } else {
      assert (['0'] + d)[..0] == [];
    }
  }

  /** Two hex digits read as one word: the first is the sixteens digit. */
  lemma PairValue(a: Char8, b: Char8)
    requires IsHexDigit(a) && IsHexDigit(b)
    ensures ReadHex([a, b]) == 16 * HexDigitValue(a) + HexDigitValue(b)
  {
    var t := [a, b];
    assert !IsSpace(a);
    assert ReadHex(t) == ExtractHex(t);
    assert t[1..] == [b] && [b][1..] == [];
    assert HexRun([b]) == 1;
    assert HexRun(t) == 2;
    assert t[..2] == t && t[..1] == [a];
    assert [a][..0] == [];
    assert DigitsValue([a]) == HexDigitValue(a);
    assert DigitsValue(t) == 16 * DigitsValue([a]) + HexDigitValue(b);
  }

  /** A lowercase hex digit is the digit `HexChar` writes for its value. */
  lemma HexCharOfValue(c: Char8)
    requires IsHexDigit(c) && !IsUpper(c)
    ensures HexChar(HexDigitValue(c)) == c
  {
  }

  /** A byte's two digits, read as a word, are the byte. */
  lemma Hex2Value(b: Byte)
    ensures ExtractHex(Hex2(b)) == b
  {
    ReadHex2(b);
    assert !IsSpace(Hex2(b)[0]);
  }

  /** With nothing before them, a byte's two digits are read back as it. */
  lemma ReadHex2(b: Byte)
    ensures ReadHex(Hex2(b)) == b
  {
    PairValue(HexChar(b / 16), HexChar(b % 16));
  }
}
