/** Class `CryptoGenerator`: hexadecimal and Base64 (section 4 of RFC 4648)
    encoding of byte vectors, hexadecimal decoding, the password policy check,
    wiping a buffer, and the random generators. The generators draw from the
    class's Mersenne Twister engine; here a draw is an arbitrary value in the
    distribution's range, and the generator's state is the number of values
    its distributions have drawn. */
module CryptoGen {
  import opened Bits
  import opened Ascii
  import opened Hex
  import opened Results

  // ---------------------------------------------------------------------------
  // Hexadecimal

  /** What `toHex` writes: each byte as two lowercase hex digits, in order. */
  function HexString(data: seq<Byte>): (s: String8)
    ensures |s| == 2 * |data|
  {
    if data == [] then [] else HexString(data[..|data| - 1]) + Hex2(data[|data| - 1])
  }

  /** Byte i of `fromHex`: characters 2i and 2i + 1 extracted as an
      `unsigned int` with `std::hex`, then cut to eight bits. */
  function HexByte(hex: String8, i: nat): Byte
    requires 2 * i + 2 <= |hex|
  {
    ReadHex(hex[2 * i..2 * i + 2]) % 256
  }

  /** What `fromHex` returns: an error for odd length, otherwise one byte per
      pair of characters. */
  function HexDecoded(hex: String8): Result<seq<Byte>>
  {
    if |hex| % 2 != 0 then Failure("Hex inválido (longitud impar).")
    else Success(seq(|hex| / 2, i requires 0 <= i < |hex| / 2 => HexByte(hex, i)))
  }

  method ToHex(data: seq<Byte>) returns (hex: String8)
    ensures hex == HexString(data)
  {
    hex := [];
    for i := 0 to |data|
      invariant hex == HexString(data[..i])
    {
      assert data[..i + 1][..i] == data[..i];
      hex := hex + Hex2(data[i]);
    }
    assert data[..|data|] == data;
  }

  method FromHex(hex: String8) returns (r: Result<seq<Byte>>)
    ensures r == HexDecoded(hex)
  {
    if |hex| % 2 != 0 {
      return Failure("Hex inválido (longitud impar).");
    }
    var data := new Byte[|hex| / 2](_ => 0);
    for i := 0 to data.Length
      invariant forall k :: 0 <= k < i ==> data[k] == HexByte(hex, k)
    {
      var byte := ReadHex(hex[2 * i..2 * i + 2]);
      data[i] := byte % 256;
    }
    assert data[..] == HexDecoded(hex).value;
    r := Success(data[..]);
  }

  /** Characters 2i and 2i + 1 of the hex text are the digits of byte i. */
  lemma {:induction false} HexStringAt(data: seq<Byte>, i: nat)
    requires i < |data|
    ensures HexString(data)[2 * i..2 * i + 2] == Hex2(data[i])
  {
    var init := data[..|data| - 1];
    if i < |data| - 1 {
      HexStringAt(init, i);
      assert HexString(data)[2 * i..2 * i + 2] == HexString(init)[2 * i..2 * i + 2];
    }
  }

  /** Character k of the hex text is digit k % 2 of byte k / 2. */
  lemma HexStringChar(data: seq<Byte>, k: nat)
    requires k < 2 * |data|
    ensures HexString(data)[k] == Hex2(data[k / 2])[k % 2]
  {
    HexStringAt(data, k / 2);
    assert HexString(data)[k] == HexString(data)[2 * (k / 2)..2 * (k / 2) + 2][k % 2];
  }

  /** `toHex` writes only lowercase hex digits. */
  lemma HexStringDigits(data: seq<Byte>)
    ensures forall k :: 0 <= k < |HexString(data)| ==>
      IsHexDigit(HexString(data)[k]) && !IsUpper(HexString(data)[k])
  {
    forall k | 0 <= k < |HexString(data)|
      ensures IsHexDigit(HexString(data)[k]) && !IsUpper(HexString(data)[k])
    {
      HexStringChar(data, k);
    }
  }

  /** `fromHex(toHex(d)) == d`. */
  lemma FromHexOfToHex(data: seq<Byte>)
    ensures HexDecoded(HexString(data)) == Success(data)
  {
    var hex := HexString(data);
    forall i | 0 <= i < |data|
      ensures HexByte(hex, i) == data[i]
    {
      HexByteOfHexString(data, i);
    }
    assert HexDecoded(hex).value == data;
  }

  lemma HexByteOfHexString(data: seq<Byte>, i: nat)
    requires i < |data|
    ensures HexByte(HexString(data), i) == data[i]
  {
    var b := data[i];
    HexStringAt(data, i);
    ReadHex2(b);
    ModSmall(b, 256);
  }

  /** A text of lowercase hex digits. */
  predicate IsLowerHex(s: String8)
  {
    forall k :: 0 <= k < |s| ==> IsHexDigit(s[k]) && !IsUpper(s[k])
  }

  /** `toHex(fromHex(h)) == h` for every even-length text of lowercase hex
      digits. */
  lemma ToHexOfFromHex(hex: String8)
    requires |hex| % 2 == 0 && IsLowerHex(hex)
    ensures HexDecoded(hex).Success? && HexString(HexDecoded(hex).value) == hex
  {
    var data := HexDecoded(hex).value;
    forall k | 0 <= k < |hex|
      ensures HexString(data)[k] == hex[k]
    {
      var i, j := k / 2, k % 2;
      assert k == 2 * i + j;
      HexCharAt(hex, data, i, j);
    }
  }

  lemma HexCharAt(hex: String8, data: seq<Byte>, i: nat, j: nat)
    requires |hex| % 2 == 0 && IsLowerHex(hex) && 2 * i + 2 <= |hex| && j < 2
    requires data == HexDecoded(hex).value
    ensures HexString(data)[2 * i + j] == hex[2 * i + j]
  {
    PairOfHexText(hex, i);
    assert data[i] == HexByte(hex, i);
    HexStringAt(data, i);
    assert HexString(data)[2 * i..2 * i + 2] == hex[2 * i..2 * i + 2];
    assert HexString(data)[2 * i + j] == HexString(data)[2 * i..2 * i + 2][j];
  }

  lemma PairOfHexText(hex: String8, i: nat)
    requires 2 * i + 2 <= |hex| && IsLowerHex(hex)
    ensures Hex2(HexByte(hex, i)) == hex[2 * i..2 * i + 2]
  {
    var a, b := hex[2 * i], hex[2 * i + 1];
    var pair := hex[2 * i..2 * i + 2];
    assert IsHexDigit(a) && !IsUpper(a) && IsHexDigit(b) && !IsUpper(b);
    assert pair == [a, b];
    PairRoundTrip(a, b);
    ModSmall(ReadHex(pair), 256);
  }

  /** Two lowercase hex digits read as a byte are written back the same. */
  lemma PairRoundTrip(a: Char8, b: Char8)
    requires IsHexDigit(a) && !IsUpper(a) && IsHexDigit(b) && !IsUpper(b)
    ensures ReadHex([a, b]) < 256 && Hex2(ReadHex([a, b])) == [a, b]
  {
    var hi, lo := HexDigitValue(a), HexDigitValue(b);
    PairValue(a, b);
    DivModUnique(lo, 16, hi);
    HexCharOfValue(a);
    HexCharOfValue(b);
  }

  // ---------------------------------------------------------------------------
  // Base64

  /** The Base64 alphabet, value v at index v. */
  const Base64Table: String8 := Base64Upper + Base64Lower + Base64Digits

  const Base64Upper: String8 := "ABCDEFGHIJKLMNOPQRSTUVWXYZ"
  const Base64Lower: String8 := "abcdefghijklmnopqrstuvwxyz"
  const Base64Digits: String8 := "0123456789+/"

  /** Character v of the alphabet. */
  function Base64Char(v: nat): (c: Char8)
    requires v < 64
  {
    if v < 26 then ('A' as int + v) as char
    else if v < 52 then ('a' as int + v - 26) as char
    else if v < 62 then ('0' as int + v - 52) as char
    else if v == 62 then '+'
    else '/'
  }

  lemma Base64TableIsAlphabet()
    ensures |Base64Table| == 64
    ensures forall v :: 0 <= v < 64 ==> Base64Table[v] == Base64Char(v)
  {
    UpperRun();
    LowerRun();
    DigitRun();
    forall v | 0 <= v < 64
      ensures Base64Table[v] == Base64Char(v)
    {
      if v < 26 {
        assert Base64Table[v] == Base64Upper[v];
      } else if v < 52 {
        assert Base64Table[v] == Base64Lower[v - 26];
      } else {
        assert Base64Table[v] == Base64Digits[v - 52];
      }
    }
  }

  lemma UpperRun()
    ensures |Base64Upper| == 26
    ensures forall v :: 0 <= v < 26 ==> Base64Upper[v] == Base64Char(v)
  {
  }

  lemma LowerRun()
    ensures |Base64Lower| == 26
    ensures forall v :: 0 <= v < 26 ==> Base64Lower[v] == Base64Char(v + 26)
  {
  }

  lemma DigitRun()
    ensures |Base64Digits| == 12
    ensures forall v :: 0 <= v < 12 ==> Base64Digits[v] == Base64Char(v + 52)
  {
  }

  /** The four characters of three bytes: their 24 bits, six at a time, most
      significant first. */
  function Quad(b0: Byte, b1: Byte, b2: Byte): (q: String8)
    ensures |q| == 4
  {
    [Base64Char(b0 / 4), Base64Char((b0 % 4) * 16 + b1 / 16),
     Base64Char((b1 % 16) * 4 + b2 / 64), Base64Char(b2 % 64)]
  }

  /** Section 4 of RFC 4648: each group of three bytes becomes four
      characters; a final pair becomes three characters and "=", a final
      single byte two characters and "==", the missing bits being zero. */
  function Base64(data: seq<Byte>): String8
  {
    if |data| >= 3 then Quad(data[0], data[1], data[2]) + Base64(data[3..])
    else if |data| == 2 then Quad(data[0], data[1], 0)[..3] + "="
    else if |data| == 1 then Quad(data[0], 0, 0)[..2] + "=="
    else []
  }

  /** The four 6-bit fields of the 24-bit block `(b0 << 16) | (b1 << 8) | b2`,
      read from the alphabet, are the characters of the group. */
  lemma BlockChars(b0: Byte, b1: Byte, b2: Byte, block: nat)
    requires block == b0 * 65536 + b1 * 256 + b2
    ensures [Base64Table[block / 262144 % 64], Base64Table[block / 4096 % 64],
             Base64Table[block / 64 % 64], Base64Table[block % 64]] == Quad(b0, b1, b2)
  {
    Base64TableIsAlphabet();
    BlockSextets(b0, b1, b2, block);
  }

  lemma BlockSextets(b0: Byte, b1: Byte, b2: Byte, block: nat)
    requires block == b0 * 65536 + b1 * 256 + b2
    ensures block / 262144 % 64 == b0 / 4
    ensures block / 4096 % 64 == (b0 % 4) * 16 + b1 / 16
    ensures block / 64 % 64 == (b1 % 16) * 4 + b2 / 64
    ensures block % 64 == b2 % 64
  {
    // bits 18..23
    assert b0 * 65536 == (b0 % 4) * 65536 + 262144 * (b0 / 4);
    DivModUnique((b0 % 4) * 65536 + b1 * 256 + b2, 262144, b0 / 4);
    // bits 12..17
    var high := b0 * 16 + b1 / 16;
    assert b1 * 256 == (b1 % 16) * 256 + 4096 * (b1 / 16);
    assert block == (b1 % 16) * 256 + b2 + 4096 * high;
    DivModUnique((b1 % 16) * 256 + b2, 4096, high);
    assert high == (b0 % 4) * 16 + b1 / 16 + 64 * (b0 / 4);
    DivModUnique((b0 % 4) * 16 + b1 / 16, 64, b0 / 4);
    // bits 0..11
    var mid := b0 * 1024 + b1 * 4 + b2 / 64;
    assert block == b2 % 64 + 64 * mid;
    DivModUnique(b2 % 64, 64, mid);
    assert b1 * 4 == (b1 % 16) * 4 + 64 * (b1 / 16);
    assert mid == (b1 % 16) * 4 + b2 / 64 + 64 * high;
    DivModUnique((b1 % 16) * 4 + b2 / 64, 64, high);
  }

  method ToBase64(data: seq<Byte>) returns (b64: String8)
    ensures b64 == Base64(data)
  {
    var table := Base64Table;
    assert |table| == 64;
    b64 := [];
    var i := 0;
    while i + 2 < |data|
      invariant 0 <= i <= |data|
      invariant b64 + Base64(data[i..]) == Base64(data)
    {
      // the three bytes occupy disjoint bits, so `|` is `+`
      var block: nat := data[i] as int * 65536 + data[i + 1] as int * 256 + data[i + 2];
      BlockChars(data[i], data[i + 1], data[i + 2], block);
      assert data[i..][3..] == data[i + 3..];
      assert Base64(data[i..]) == Quad(data[i], data[i + 1], data[i + 2]) + Base64(data[i + 3..]);
      b64 := b64 + [table[(block / 262144) % 64], table[(block / 4096) % 64],
                    table[(block / 64) % 64], table[block % 64]];
      i := i + 3;
    }
    assert |data[i..]| < 3;
    var tail := EncodeTail(table, data[i..]);
    b64 := b64 + tail;
  }

  /** The last one or two bytes, with '=' padding; nothing when none is left. */
  method EncodeTail(table: String8, rest: seq<Byte>) returns (b64: String8)
    requires table == Base64Table && |rest| < 3
    ensures b64 == Base64(rest)
  {
    b64 := [];
    if 0 < |rest| {
      var block: nat := rest[0] as int * 65536;
      if 1 < |rest| {
        block := block + rest[1] as int * 256;
        BlockChars(rest[0], rest[1], 0, block);
        b64 := b64 + [table[(block / 262144) % 64], table[(block / 4096) % 64],
                      table[(block / 64) % 64], '='];
      } else {
        BlockChars(rest[0], 0, 0, block);
        b64 := b64 + [table[(block / 262144) % 64], table[(block / 4096) % 64]] + "==";
      }
    }
  }

  /** The encoding of n bytes has 4 * ceil(n / 3) characters. */
  lemma {:induction false} Base64Length(data: seq<Byte>)
    ensures |Base64(data)| == 4 * ((|data| + 2) / 3)
    decreases |data|
  {
    if |data| >= 3 {
      Base64Length(data[3..]);
      GroupCountStep(|data| - 3);
      assert |Base64(data)| == 4 + |Base64(data[3..])|;
    } else if |data| == 2 {
      assert |Quad(data[0], data[1], 0)[..3] + "="| == 4;
    } else if |data| == 1 {
      assert |Quad(data[0], 0, 0)[..2] + "=="| == 4;
    }
  }

  /** Three more bytes make one more group. */
  lemma GroupCountStep(m: nat)
    ensures (m + 3 + 2) / 3 == (m + 2) / 3 + 1
  {
    DivModUnique((m + 2) % 3, 3, (m + 2) / 3 + 1);
  }

  /** Every character of `s` is in the table `t`, but for '=' padding in
      its last two places. */
  predicate PaddedOver(t: String8, s: String8)
  {
    forall k :: 0 <= k < |s| ==> s[k] in t || (s[k] == '=' && k >= |s| - 2)
  }

  /** The encoding uses only the alphabet, with '=' only in its last two
      places. */
  lemma {:induction false} Base64Alphabet(data: seq<Byte>)
    ensures PaddedOver(Base64Table, Base64(data))
    decreases |data|
  {
    if |data| >= 3 {
      Base64Alphabet(data[3..]);
      QuadInTable(data[0], data[1], data[2]);
      GroupPadded(Base64Table, Quad(data[0], data[1], data[2]), Base64(data[3..]));
    } else if |data| == 2 {
      QuadInTable(data[0], data[1], 0);
      TailPadded(Base64Table, Quad(data[0], data[1], 0));
    } else if |data| == 1 {
      QuadInTable(data[0], 0, 0);
      TailPadded(Base64Table, Quad(data[0], 0, 0));
    }
  }

  lemma QuadInTable(b0: Byte, b1: Byte, b2: Byte)
    ensures forall k :: 0 <= k < 4 ==> Quad(b0, b1, b2)[k] in Base64Table
  {
    Base64TableIsAlphabet();
    var q := Quad(b0, b1, b2);
    assert q[0] == Base64Table[b0 / 4];
    assert q[1] == Base64Table[(b0 % 4) * 16 + b1 / 16];
    assert q[2] == Base64Table[(b1 % 16) * 4 + b2 / 64];
    assert q[3] == Base64Table[b2 % 64];
  }

  /** A full group in front of a padded encoding keeps it padded. */
  lemma GroupPadded(t: String8, q: String8, rest: String8)
    requires |q| == 4 && forall k :: 0 <= k < 4 ==> q[k] in t
    requires PaddedOver(t, rest)
    ensures PaddedOver(t, q + rest)
  {
    var s := q + rest;
    forall k | 0 <= k < |s|
      ensures s[k] in t || (s[k] == '=' && k >= |s| - 2)
    {
      if k >= 4 {
        assert s[k] == rest[k - 4];
      }
    }
  }

  /** The padded last groups of two and of one byte. */
  lemma TailPadded(t: String8, q: String8)
    requires |q| == 4 && forall k :: 0 <= k < 4 ==> q[k] in t
    ensures PaddedOver(t, q[..3] + "=") && PaddedOver(t, q[..2] + "==")
  {
  }

  /** The value a character of the alphabet stands for. */
  function Base64Value(c: Char8): (v: nat)
    ensures v < 64
  {
    if 'A' <= c <= 'Z' then c as int - 'A' as int
    else if 'a' <= c <= 'z' then c as int - 'a' as int + 26
    else if '0' <= c <= '9' then c as int - '0' as int + 52
    else if c == '+' then 62
    else 63
  }

  lemma Base64ValueOfChar(v: nat)
    requires v < 64
    ensures Base64Value(Base64Char(v)) == v && Base64Char(v) != '='
  {
  }

  /** The three bytes four sextets stand for. */
  function Byte0(v0: nat, v1: nat): Byte requires v0 < 64 && v1 < 64 { v0 * 4 + v1 / 16 }

  function Byte1(v1: nat, v2: nat): Byte requires v1 < 64 && v2 < 64 { (v1 % 16) * 16 + v2 / 4 }

  function Byte2(v2: nat, v3: nat): Byte requires v2 < 64 && v3 < 64 { (v2 % 4) * 64 + v3 }

  /** Recombining the sextets of three bytes gives the bytes back. */
  lemma SextetsRecombine(b0: Byte, b1: Byte, b2: Byte)
    ensures Byte0(b0 / 4, (b0 % 4) * 16 + b1 / 16) == b0
    ensures Byte1((b0 % 4) * 16 + b1 / 16, (b1 % 16) * 4 + b2 / 64) == b1
    ensures Byte2((b1 % 16) * 4 + b2 / 64, b2 % 64) == b2
  {
    DivModUnique(b1 / 16, 16, b0 % 4);
    DivModUnique(b2 / 64, 4, b1 % 16);
  }

  /** A decoder for the encoding, written for this model: four characters
      give three bytes, and '=' padding ends the text early. It is not the
      class's `fromBase64`. */
  function Base64Decode(s: String8): seq<Byte>
    decreases |s|
  {
    if |s| < 4 then []
    else
      var v0, v1, v2, v3 := Base64Value(s[0]), Base64Value(s[1]), Base64Value(s[2]), Base64Value(s[3]);
      if s[2] == '=' then [Byte0(v0, v1)]
      else if s[3] == '=' then [Byte0(v0, v1), Byte1(v1, v2)]
      else [Byte0(v0, v1), Byte1(v1, v2), Byte2(v2, v3)] + Base64Decode(s[4..])
  }

  /** Decoding the encoding gives the bytes back. */
  lemma {:induction false} Base64RoundTrip(data: seq<Byte>)
    ensures Base64Decode(Base64(data)) == data
    decreases |data|
  {
    if |data| >= 3 {
      var rest := Base64(data[3..]);
      Base64RoundTrip(data[3..]);
      GroupDecode(data[0], data[1], data[2], rest);
      assert data == [data[0], data[1], data[2]] + data[3..];
    } else if |data| == 2 {
      PairDecode(data[0], data[1]);
      assert data == [data[0], data[1]];
    } else if |data| == 1 {
      SingleDecode(data[0]);
      assert data == [data[0]];
    }
  }

  /** The four characters of a full group decode to its three bytes. */
  lemma GroupDecode(b0: Byte, b1: Byte, b2: Byte, rest: String8)
    ensures Base64Decode(Quad(b0, b1, b2) + rest) == [b0, b1, b2] + Base64Decode(rest)
  {
    var s := Quad(b0, b1, b2) + rest;
    SextetsRecombine(b0, b1, b2);
    Base64ValueOfChar(b0 / 4);
    Base64ValueOfChar((b0 % 4) * 16 + b1 / 16);
    Base64ValueOfChar((b1 % 16) * 4 + b2 / 64);
    Base64ValueOfChar(b2 % 64);
    assert s[4..] == rest;
  }

  /** A final pair: three characters and one '=' decode to the two bytes. */
  lemma PairDecode(b0: Byte, b1: Byte)
    ensures Base64Decode(Quad(b0, b1, 0)[..3] + "=") == [b0, b1]
  {
    SextetsRecombine(b0, b1, 0);
    Base64ValueOfChar(b0 / 4);
    Base64ValueOfChar((b0 % 4) * 16 + b1 / 16);
    Base64ValueOfChar((b1 % 16) * 4);
  }

  /** A final single byte: two characters and "==" decode to the byte. */
  lemma SingleDecode(b0: Byte)
    ensures Base64Decode(Quad(b0, 0, 0)[..2] + "==") == [b0]
  {
    SextetsRecombine(b0, 0, 0);
    Base64ValueOfChar(b0 / 4);
    Base64ValueOfChar((b0 % 4) * 16);
  }

  // ---------------------------------------------------------------------------
  // Buffers and passwords

  /** `secureWipe`: every element becomes 0; the length cannot change. */
  method SecureWipe(data: array<Byte>)
    modifies data
    ensures forall k :: 0 <= k < data.Length ==> data[k] == 0
  {
    for i := 0 to data.Length
      invariant forall k :: 0 <= k < i ==> data[k] == 0
    {
      data[i] := 0;
    }
  }

  predicate HasUpper(p: String8) { exists i :: 0 <= i < |p| && IsUpper(p[i]) }

  predicate HasLower(p: String8) { exists i :: 0 <= i < |p| && IsLower(p[i]) }

  predicate HasDigit(p: String8) { exists i :: 0 <= i < |p| && IsDigit(p[i]) }

  predicate HasPunct(p: String8) { exists i :: 0 <= i < |p| && IsPunct(p[i]) }

  /** A password passes when it has at least eight characters and an
      uppercase letter, a lowercase letter, a digit and a punctuation mark. */
  method ValidatePassword(password: String8) returns (ok: bool)
    ensures ok <==> (|password| >= 8
      && HasUpper(password) && HasLower(password) && HasDigit(password) && HasPunct(password))
  {
    if |password| < 8 {
      return false;
    }
    var hasUpper, hasLower, hasDigit, hasSymbols := false, false, false, false;
    for k := 0 to |password|
      invariant hasUpper <==> exists i :: 0 <= i < k && IsUpper(password[i])
      invariant hasLower <==> exists i :: 0 <= i < k && IsLower(password[i])
      invariant hasDigit <==> exists i :: 0 <= i < k && IsDigit(password[i])
      invariant hasSymbols <==> exists i :: 0 <= i < k && IsPunct(password[i])
    {
      var c := password[k];
      if IsUpper(c) {
        hasUpper := true;
      } else if IsLower(c) {
        hasLower := true;
      } else if IsDigit(c) {
        hasDigit := true;
      } else if IsPunct(c) {
        hasSymbols := true;
      }
    }
    ok := hasUpper && hasLower && hasDigit && hasSymbols;
  }

  // ---------------------------------------------------------------------------
  // The generators

  const Uppers: String8 := "ABCDEFGHIJKLMNOPQRSTUVWXYZ"

  const Lowers: String8 := "abcdefghijklmnopqrstuvwxyz"

  const Digits: String8 := "0123456789"

  const Symbols: String8 := "!@#$%^&*()-_=+[]{}|;:',.<>?/"

  /** The characters `generatePassword` draws from. */
  function Pool(useUpper: bool, useLower: bool, useDigits: bool, useSymbols: bool): String8
  {
    (if useUpper then Uppers else []) + (if useLower then Lowers else [])
    + (if useDigits then Digits else []) + (if useSymbols then Symbols else [])
  }

  lemma UppersAreUpper(c: Char8)
    ensures c in Uppers <==> IsUpper(c)
  {
    assert forall v :: 0 <= v < 26 ==> Uppers[v] == ('A' as int + v) as char;
    if IsUpper(c) {
      assert Uppers[c as int - 'A' as int] == c;
    }
  }

  lemma LowersAreLower(c: Char8)
    ensures c in Lowers <==> IsLower(c)
  {
    assert forall v :: 0 <= v < 26 ==> Lowers[v] == ('a' as int + v) as char;
    if IsLower(c) {
      assert Lowers[c as int - 'a' as int] == c;
    }
  }

  lemma DigitsAreDigits(c: Char8)
    ensures c in Digits <==> IsDigit(c)
  {
    assert forall v :: 0 <= v < 10 ==> Digits[v] == ('0' as int + v) as char;
    if IsDigit(c) {
      assert Digits[c as int - '0' as int] == c;
    }
  }

  /** Every symbol is a punctuation character, so a password drawn with
      symbols enabled can meet the policy. */
  lemma SymbolsArePunctuation()
    ensures forall k :: 0 <= k < |Symbols| ==> IsPunct(Symbols[k])
  {
  }

  /** The pool is empty exactly when no character class is chosen. */
  lemma PoolEmpty(useUpper: bool, useLower: bool, useDigits: bool, useSymbols: bool)
    ensures |Pool(useUpper, useLower, useDigits, useSymbols)| == 0 <==>
      !(useUpper || useLower || useDigits || useSymbols)
  {
    assert |Uppers| == 26 && |Lowers| == 26 && |Digits| == 10 && |Symbols| > 0;
  }

  /** The pool holds exactly the characters of the enabled classes. */
  lemma PoolMembers(useUpper: bool, useLower: bool, useDigits: bool, useSymbols: bool, c: Char8)
    ensures c in Pool(useUpper, useLower, useDigits, useSymbols) <==>
      (useUpper && IsUpper(c)) || (useLower && IsLower(c)) || (useDigits && IsDigit(c))
      || (useSymbols && c in Symbols)
  {
    UppersAreUpper(c);
    LowersAreLower(c);
    DigitsAreDigits(c);
  }

  /** The default pool has no punctuation character, so every password
      drawn with `generatePassword`'s default arguments fails
      `validatePassword`, whatever its length. */
  lemma DefaultPasswordRejected(p: String8)
    requires forall k :: 0 <= k < |p| ==> p[k] in Pool(true, true, true, false)
    ensures !HasPunct(p)
    ensures !(|p| >= 8 && HasUpper(p) && HasLower(p) && HasDigit(p) && HasPunct(p))
  {
    forall k | 0 <= k < |p|
      ensures !IsPunct(p[k])
    {
      PoolMembers(true, true, true, false, p[k]);
    }
  }

  class CryptoGenerator {
    /** The number of values the distributions have drawn since construction.
        One value may take more than one step of the engine, so this counts
        draws, not engine steps. */
    var draws: nat

    /** Seeding the engine from `std::random_device` is not modelled. */
    constructor ()
      ensures draws == 0
    {
      draws := 0;
    }

    /** One value of `std::uniform_int_distribution(lo, hi)`. Callers learn
        only that it lies in range and that one more draw was made; the body's
        choice of `lo` stands for whichever value the distribution gives. */
    method Draw(lo: int, hi: int) returns (v: int)
      requires lo <= hi
      modifies this
      ensures lo <= v <= hi
      ensures draws == old(draws) + 1
    {
      v := lo;
      draws := draws + 1;
    }

    /** `generatePassword`, with its default arguments: letters of both cases
        and digits, no symbols. */
    method GeneratePassword(length: nat, useUpper: bool := true, useLower: bool := true,
                            useDigits: bool := true, useSymbols: bool := false)
      returns (r: Result<String8>)
      modifies this
      ensures r.Failure? <==> !(useUpper || useLower || useDigits || useSymbols)
      ensures r.Failure? ==> draws == old(draws)
      ensures r.Success? ==> |r.value| == length && draws == old(draws) + length
      ensures r.Success? ==> forall k :: 0 <= k < length ==>
        r.value[k] in Pool(useUpper, useLower, useDigits, useSymbols)
    {
      var pool: String8 := [];
      if useUpper { pool := pool + Uppers; }
      assert pool == (if useUpper then Uppers else []);
      if useLower { pool := pool + Lowers; }
      assert pool == (if useUpper then Uppers else []) + (if useLower then Lowers else []);
      if useDigits { pool := pool + Digits; }
      if useSymbols { pool := pool + Symbols; }
      assert pool == Pool(useUpper, useLower, useDigits, useSymbols);
      PoolEmpty(useUpper, useLower, useDigits, useSymbols);
      if |pool| == 0 {
        return Failure("No character types enabled for password generation.");
      }
      var password := DrawFrom(pool, length);
      r := Success(password);
    }

    /** The loop of `generatePassword`: `length` characters, each drawn
        uniformly from the pool. */
    method DrawFrom(pool: String8, length: nat) returns (password: String8)
      requires |pool| > 0
      modifies this
      ensures |password| == length && draws == old(draws) + length
      ensures forall k :: 0 <= k < length ==> password[k] in pool
    {
      password := [];
      for i := 0 to length
        invariant |password| == i && draws == old(draws) + i
        invariant forall k :: 0 <= k < i ==> password[k] in pool
      {
        var index := Draw(0, |pool| - 1);
        password := password + [pool[index]];
      }
    }

    method GenerateBytes(numBytes: nat) returns (bytes: seq<Byte>)
      modifies this
      ensures |bytes| == numBytes && draws == old(draws) + numBytes
    {
      var buffer := new Byte[numBytes](_ => 0);
      for i := 0 to numBytes
        invariant draws == old(draws) + i
      {
        var v := Draw(0, 255);
        buffer[i] := v;
      }
      bytes := buffer[..];
    }

    /** A key of `bits` bits: an error unless `bits` is a multiple of 8. */
    method GenerateKey(bits: nat) returns (r: Result<seq<Byte>>)
      modifies this
      ensures r.Failure? <==> bits % 8 != 0
      ensures r.Failure? ==> draws == old(draws)
      ensures r.Success? ==> |r.value| == bits / 8 && draws == old(draws) + bits / 8
    {
      if bits % 8 != 0 {
        return Failure("Bits debe ser múltiplo de 8.");
      }
      var key := GenerateBytes(bits / 8);
      r := Success(key);
    }

    method GenerateIV(blockSize: nat) returns (iv: seq<Byte>)
      modifies this
      ensures |iv| == blockSize && draws == old(draws) + blockSize
    {
      iv := GenerateBytes(blockSize);
    }

    method GenerateSalt(length: nat) returns (salt: seq<Byte>)
      modifies this
      ensures |salt| == length && draws == old(draws) + length
    {
      salt := GenerateBytes(length);
    }
  }
}
