/** Class `XOREncoder`: repeating-key XOR over 8-bit characters, a reader for
    whitespace-separated hexadecimal bytes, the readable-text test, and the
    key searches of the three attacks. The class has no state. An attack
    prints each key it accepts with the decoded text; here it returns them,
    in the order it would print them, as a sequence of `Candidate`s. */
module XorEncoder {
  import opened Bits
  import opened Ascii
  import opened Hex

  /** `a ^ b` on two 8-bit values, bit by bit. */
  function Xor8(a: Byte, b: Byte): Byte
  {
    var r := XorBits(NatToBits(a, 8), NatToBits(b, 8));
    BitsToNatBound(r);
    BitsToNat(r)
  }

  function XorChar(a: Char8, b: Char8): Char8
  {
    Xor8(a as int, b as int) as char
  }

  /** `data` XORed with `key` repeated to its length. The key is read only
      when there is data, so an empty key is harmless on empty data. */
  function RepeatXor(data: String8, key: String8): (r: String8)
    requires |key| > 0 || |data| == 0
    ensures |r| == |data|
  {
    seq(|data|, i requires 0 <= i < |data| => XorChar(data[i], key[i % |key|]))
  }

  /** The characters of a byte vector. */
  function ToChars(bytes: seq<Byte>): (s: String8)
    ensures |s| == |bytes|
  {
    seq(|bytes|, i requires 0 <= i < |bytes| => bytes[i] as char)
  }

  /** `isValidText`: every character printable or white space. */
  predicate IsValidText(data: String8)
  {
    forall i :: 0 <= i < |data| ==>
      IsPrint(data[i]) || IsSpace(data[i]) || data[i] == '\n' || data[i] == ' '
  }

  /** `encode`: an empty key divides by zero only once there is a byte to
      encode; empty input comes back empty under any key. */
  method Encode(input: String8, key: String8) returns (output: String8)
    requires |key| > 0 || |input| == 0
    ensures output == RepeatXor(input, key)
    ensures |input| == 0 ==> output == []
  {
    var out := new Char8[|input|](i requires 0 <= i < |input| => input[i]);
    for i := 0 to |input|
      invariant forall k :: 0 <= k < i ==> out[k] == RepeatXor(input, key)[k]
    {
      out[i] := XorChar(input[i], key[i % |key|]);
    }
    output := out[..];
  }

  // ---------------------------------------------------------------------------
  // Laws of the cipher

  lemma XorCharInvolution(a: Char8, b: Char8)
    ensures XorChar(XorChar(a, b), b) == a
    ensures XorChar(a, XorChar(a, b)) == b
  {
    assert Pow2(8) == 256;
    var x, y := NatToBits(a as int, 8), NatToBits(b as int, 8);
    var z := XorBits(x, y);
    BitsToNatToBits(z);
    assert XorBits(z, y) == x;
    assert XorBits(x, z) == y;
    NatToBitsToNat(a as int, 8);
    NatToBitsToNat(b as int, 8);
  }

  /** Encoding twice with the same key gives the input back. */
  lemma EncodeInvolution(data: String8, key: String8)
    requires |key| > 0
    ensures RepeatXor(RepeatXor(data, key), key) == data
  {
    forall i | 0 <= i < |data|
      ensures RepeatXor(RepeatXor(data, key), key)[i] == data[i]
    {
      XorCharInvolution(data[i], key[i % |key|]);
    }
  }

  /** A known plaintext and its encoding reveal the repeated key. */
  lemma KnownPlaintextRevealsKey(data: String8, key: String8, i: nat)
    requires |key| > 0 && i < |data|
    ensures XorChar(data[i], RepeatXor(data, key)[i]) == key[i % |key|]
  {
    XorCharInvolution(data[i], key[i % |key|]);
  }

  /** The readable characters are exactly the codes 9..13 and 32..126. */
  lemma ValidCharacters(c: Char8)
    ensures IsValidText([c]) <==> (9 <= c as int <= 13 || 32 <= c as int <= 126)
  {
    assert [c][0] == c;
  }

  /** Text is readable exactly when both of its parts are. */
  lemma ValidTextAppend(a: String8, b: String8)
    ensures IsValidText(a + b) <==> IsValidText(a) && IsValidText(b)
  {
    if IsValidText(a + b) {
      assert forall i :: 0 <= i < |a| ==> (a + b)[i] == a[i];
      assert forall i :: 0 <= i < |b| ==> (a + b)[|a| + i] == b[i];
    }
  }

  // ---------------------------------------------------------------------------
  // Reading hexadecimal bytes

  /** A one-character word gets a leading '0'. */
  function Padded(t: String8): String8
  {
    if |t| == 1 then ['0'] + t else t
  }

  /** `static_cast<unsigned char>` of the value read from a word. */
  function TokenByte(t: String8): Byte
  {
    ExtractHex(Padded(t)) % 256
  }

  function TokenBytes(ts: seq<String8>): (r: seq<Byte>)
    ensures |r| == |ts|
  {
    seq(|ts|, i requires 0 <= i < |ts| => TokenByte(ts[i]))
  }

  /** What `HexToBytes` returns: one byte per word of the input. */
  function HexBytes(input: String8): seq<Byte>
  {
    TokenBytes(Tokens(input))
  }

  method HexToBytes(input: String8) returns (bytes: seq<Byte>)
    ensures bytes == HexBytes(input)
  {
    bytes := [];
    var rest := input;
    ghost var read: seq<String8> := [];
    while true
      invariant Tokens(input) == read + Tokens(rest)
      invariant bytes == TokenBytes(read)
      decreases |rest|
    {
      var ok, hexValue, unread := Extract(rest);
      if !ok {
        break;
      }
      ghost var word := hexValue;
      if |hexValue| == 1 {
        hexValue := ['0'] + hexValue;
      }
      var byte := ExtractHex(hexValue);
      bytes := bytes + [byte % 256];
      read := read + [word];
      assert TokenBytes(read) == TokenBytes(read[..|read| - 1]) + [TokenByte(word)];
      rest := unread;
    }
    assert read == Tokens(input);
  }

  /** The text `printHex` writes: each byte as two lowercase hex digits
      followed by a space. */
  function HexText(data: seq<Byte>): String8
  {
    if data == [] then [] else Hex2(data[0]) + [' '] + HexText(data[1..])
  }

  /** A byte's two digits read back as the byte. */
  lemma TokenOfHex2(b: Byte)
    ensures TokenByte(Hex2(b)) == b
  {
    Hex2Value(b);
  }

  /** Padding a one-character word with '0' never changes its byte. */
  lemma PaddingKeepsValue(t: String8)
    requires |t| == 1
    ensures ExtractHex(['0'] + t) == ExtractHex(t)
  {
    LeadingZero(t);
  }

  lemma {:induction false} TokensOfHexText(data: seq<Byte>)
    ensures Tokens(HexText(data)) == seq(|data|, i requires 0 <= i < |data| => Hex2(data[i]))
  {
    if data != [] {
      var w := Hex2(data[0]);
      assert NoSpace(w);
      TokensAppend(w, HexText(data[1..]));
      WordLengthOfWord(w, []);
      assert w + [] == w;
      assert w[|w|..] == [];
      assert Tokens(w) == [w];
      TokensOfHexText(data[1..]);
    }
  }

  /** `HexToBytes` reads back what `printHex` writes. */
  lemma HexRoundTrip(data: seq<Byte>)
    ensures HexBytes(HexText(data)) == data
  {
    TokensOfHexText(data);
    forall i | 0 <= i < |data|
      ensures HexBytes(HexText(data))[i] == data[i]
    {
      TokenOfHex2(data[i]);
    }
  }

  // ---------------------------------------------------------------------------
  // The attacks

  /** A key an attack accepts, with the text it decodes the input to. */
  datatype Candidate = Candidate(key: String8, text: String8)

  predicate NonEmptyKeys(keys: seq<String8>)
  {
    forall k :: 0 <= k < |keys| ==> |keys[k]| > 0
  }

  /** The ciphertext bytes XORed with the repeated key. */
  function Decoded(cipher: seq<Byte>, key: String8): (r: String8)
    requires |key| > 0
    ensures |r| == |cipher|
  {
    RepeatXor(ToChars(cipher), key)
  }

  /** What an attack that tries `keys` in order reports: the keys whose
      decoded text is readable, in the order tried, with their texts. */
  function Reported(cipher: seq<Byte>, keys: seq<String8>): seq<Candidate>
    requires NonEmptyKeys(keys)
  {
    if keys == [] then []
    else
      var key := keys[|keys| - 1];
      var text := Decoded(cipher, key);
      Reported(cipher, keys[..|keys| - 1]) + (if IsValidText(text) then [Candidate(key, text)] else [])
  }

  /** The keys of `bruteForce_1Byte`: each byte 0..255, ascending. */
  const SingleByteKeys: seq<String8> := seq(256, k requires 0 <= k < 256 => [k as char])

  /** The keys of `bruteForce_2Byte`: pairs (b1, b2), b2 running fastest. */
  const TwoByteKeys: seq<String8> := seq(65536, n requires 0 <= n < 65536 => TwoByteKey(n))

  /** Key n of the two-byte attack: first byte n / 256, second byte n % 256. */
  function TwoByteKey(n: nat): (key: String8)
    requires n < 65536
    ensures |key| == 2
  {
    [(n / 256) as char, (n % 256) as char]
  }

  /** The list of `bruteForceByDictionary`. */
  const DictionaryKeys: seq<String8> :=
    ["clave", "admin", "1234", "root", "test", "abc", "hola"]
    + ["user", "pass", "12345", "0000", "password", "default"]

  /** The decoding loop each attack runs for one key. */
  method DecodeWith(cipher: seq<Byte>, key: String8) returns (result: String8)
    requires |key| > 0
    ensures result == Decoded(cipher, key)
  {
    result := [];
    for i := 0 to |cipher|
      invariant result == Decoded(cipher, key)[..i]
    {
      result := result + [XorChar(cipher[i] as char, key[i % |key|])];
    }
  }

  method BruteForce1Byte(cipher: seq<Byte>) returns (found: seq<Candidate>)
    ensures found == Reported(cipher, SingleByteKeys)
  {
    found := [];
    for clave := 0 to 256
      invariant found == Reported(cipher, SingleByteKeys[..clave])
    {
      var key := [clave as char];
      var result := DecodeWith(cipher, key);
      assert SingleByteKeys[..clave + 1] == SingleByteKeys[..clave] + [key];
      ReportedSnoc(cipher, SingleByteKeys[..clave], key);
      if IsValidText(result) {
        found := found + [Candidate(key, result)];
      }
    }
    assert SingleByteKeys[..256] == SingleByteKeys;
  }

  method BruteForce2Byte(cipher: seq<Byte>) returns (found: seq<Candidate>)
    ensures found == Reported(cipher, TwoByteKeys)
  {
    found := [];
    for b1 := 0 to 256
      invariant found == Reported(cipher, TwoByteKeys[..256 * b1])
    {
      found := TrySecondBytes(cipher, b1, found);
      TwoByteRows(b1);
      ReportedAppend(cipher, TwoByteKeys[..256 * b1], RowKeys(b1));
    }
    assert TwoByteKeys[..65536] == TwoByteKeys;
  }

  /** The keys (b1, 0), (b1, 1), ..., (b1, 255). */
  function RowKeys(b1: nat): (row: seq<String8>)
    requires b1 < 256
    ensures |row| == 256 && NonEmptyKeys(row)
  {
    seq(256, b2 requires 0 <= b2 < 256 => [b1 as char, b2 as char])
  }

  /** The inner loop of `bruteForce_2Byte`: every second byte after `b1`,
      the reports appended to those found so far. */
  method TrySecondBytes(cipher: seq<Byte>, b1: nat, found0: seq<Candidate>) returns (found: seq<Candidate>)
    requires b1 < 256
    ensures found == found0 + Reported(cipher, RowKeys(b1))
  {
    ghost var row := RowKeys(b1);
    found := found0;
    for b2 := 0 to 256
      invariant found == found0 + Reported(cipher, row[..b2])
    {
      var key := [b1 as char, b2 as char];
      var result := DecodeWith(cipher, key);
      assert row[b2] == key;
      PrefixSnoc(row, b2);
      ReportedSnoc(cipher, row[..b2], key);
      if IsValidText(result) {
        ghost var r := Reported(cipher, row[..b2]);
        assert found0 + (r + [Candidate(key, result)]) == (found0 + r) + [Candidate(key, result)];
        found := found + [Candidate(key, result)];
      }
    }
    assert row[..256] == row;
  }

  /** The two-byte keys run row by row. */
  lemma TwoByteRows(b1: nat)
    requires b1 < 256
    ensures TwoByteKeys[..256 * b1 + 256] == TwoByteKeys[..256 * b1] + RowKeys(b1)
  {
    var row := RowKeys(b1);
    forall b2 | 0 <= b2 < 256
      ensures TwoByteKeys[256 * b1 + b2] == row[b2]
    {
      TwoByteKeyAt(b1, b2);
    }
  }

  /** Key 256 * b1 + b2 of the two-byte attack is (b1, b2). */
  lemma TwoByteKeyAt(b1: nat, b2: nat)
    requires b1 < 256 && b2 < 256
    ensures 256 * b1 + b2 < 65536 && TwoByteKeys[256 * b1 + b2] == [b1 as char, b2 as char]
  {
    var n := 256 * b1 + b2;
    DivModUnique(b2, 256, b1);
    assert TwoByteKey(n) == [b1 as char, b2 as char];
    assert TwoByteKeys[n] == TwoByteKey(n);
  }

  /** Trying `xs` and then `ys` reports what each reports, in that order. */
  lemma {:induction false} ReportedAppend(cipher: seq<Byte>, xs: seq<String8>, ys: seq<String8>)
    requires NonEmptyKeys(xs) && NonEmptyKeys(ys)
    ensures NonEmptyKeys(xs + ys)
    ensures Reported(cipher, xs + ys) == Reported(cipher, xs) + Reported(cipher, ys)
    decreases |ys|
  {
    if ys == [] {
      assert xs + ys == xs;
    } else {
      var init, last := ys[..|ys| - 1], ys[|ys| - 1];
      assert ys == init + [last];
      assert xs + ys == (xs + init) + [last];
      ReportedAppend(cipher, xs, init);
      ReportedSnoc(cipher, xs + init, last);
      ReportedSnoc(cipher, init, last);
    }
  }

  /** Trying one more key adds its report, if any, at the end. */
  lemma PrefixSnoc<T>(s: seq<T>, i: nat)
    requires i < |s|
    ensures s[..i + 1] == s[..i] + [s[i]]
  {
  }

  lemma ReportedSnoc(cipher: seq<Byte>, keys: seq<String8>, key: String8)
    requires NonEmptyKeys(keys) && |key| > 0
    ensures NonEmptyKeys(keys + [key])
    ensures Reported(cipher, keys + [key]) == Reported(cipher, keys)
      + (if IsValidText(Decoded(cipher, key)) then [Candidate(key, Decoded(cipher, key))] else [])
  {
    var ks := keys + [key];
    assert ks[..|ks| - 1] == keys && ks[|ks| - 1] == key;
  }

  method BruteForceByDictionary(cipher: seq<Byte>) returns (found: seq<Candidate>)
    ensures found == Reported(cipher, DictionaryKeys)
  {
    assert NonEmptyKeys(DictionaryKeys);
    found := TryKeys(cipher, DictionaryKeys);
  }

  /** The loop of `bruteForceByDictionary` over a list of keys. */
  method TryKeys(cipher: seq<Byte>, clavesComunes: seq<String8>) returns (found: seq<Candidate>)
    requires NonEmptyKeys(clavesComunes)
    ensures found == Reported(cipher, clavesComunes)
  {
    found := [];
    for k := 0 to |clavesComunes|
      invariant found == Reported(cipher, clavesComunes[..k])
    {
      var clave := clavesComunes[k];
      var result := DecodeWith(cipher, clave);
      assert clavesComunes[..k + 1] == clavesComunes[..k] + [clave];
      ReportedSnoc(cipher, clavesComunes[..k], clave);
      if IsValidText(result) {
        found := found + [Candidate(clave, result)];
      }
    }
    assert clavesComunes[..|clavesComunes|] == clavesComunes;
  }

  /** A key is reported exactly when it is tried and decodes to readable
      text, and each report carries that text. */
  lemma {:induction false} ReportedExactly(cipher: seq<Byte>, keys: seq<String8>, key: String8)
    requires NonEmptyKeys(keys)
    ensures forall c :: c in Reported(cipher, keys) ==>
      c.key in keys && c.text == Decoded(cipher, c.key) && IsValidText(c.text)
    ensures (exists c :: c in Reported(cipher, keys) && c.key == key)
      <==> key in keys && IsValidText(Decoded(cipher, key))
  {
    if keys != [] {
      var init := keys[..|keys| - 1];
      ReportedExactly(cipher, init, key);
      assert keys == init + [keys[|keys| - 1]];
      var last := keys[|keys| - 1];
      if key in keys && IsValidText(Decoded(cipher, key)) && key !in init {
        assert key == last;
        assert Candidate(key, Decoded(cipher, key)) in Reported(cipher, keys);
      }
    }
  }

  /** Reports come out in the order their keys are tried: when the keys are
      tried in increasing `KeyRank`, the reports are in increasing rank. */
  lemma {:induction false} ReportedInOrder(cipher: seq<Byte>, keys: seq<String8>)
    requires NonEmptyKeys(keys)
    requires forall i, j :: 0 <= i < j < |keys| ==> KeyRank(keys[i]) < KeyRank(keys[j])
    ensures Ascending(Reported(cipher, keys))
  {
    if keys != [] {
      var init := keys[..|keys| - 1];
      var last := keys[|keys| - 1];
      assert forall i :: 0 <= i < |init| ==> init[i] == keys[i];
      ReportedInOrder(cipher, init);
      var r0 := Reported(cipher, init);
      var text := Decoded(cipher, last);
      if IsValidText(text) {
        assert forall i :: 0 <= i < |init| ==> KeyRank(init[i]) < KeyRank(last);
        ReportsBelow(cipher, init, last);
        AscendingSnoc(r0, Candidate(last, text));
        assert Reported(cipher, keys) == r0 + [Candidate(last, text)];
      } else {
        assert Reported(cipher, keys) == r0;
      }
    }
  }

  /** Reports whose keys are in increasing `KeyRank`. */
  predicate Ascending(r: seq<Candidate>)
  {
    forall i, j :: 0 <= i < j < |r| ==> KeyRank(r[i].key) < KeyRank(r[j].key)
  }

  lemma AscendingSnoc(r: seq<Candidate>, c: Candidate)
    requires Ascending(r)
    requires forall i :: 0 <= i < |r| ==> KeyRank(r[i].key) < KeyRank(c.key)
    ensures Ascending(r + [c])
  {
    var r' := r + [c];
    forall i, j | 0 <= i < j < |r'|
      ensures KeyRank(r'[i].key) < KeyRank(r'[j].key)
    {
      assert r'[i] == r[i];
      if j < |r| {
        assert r'[j] == r[j];
      }
    }
  }

  /** When every key tried ranks below `last`, so does every report. */
  lemma ReportsBelow(cipher: seq<Byte>, keys: seq<String8>, last: String8)
    requires NonEmptyKeys(keys)
    requires forall i :: 0 <= i < |keys| ==> KeyRank(keys[i]) < KeyRank(last)
    ensures forall i :: 0 <= i < |Reported(cipher, keys)| ==>
      KeyRank(Reported(cipher, keys)[i].key) < KeyRank(last)
  {
    var r := Reported(cipher, keys);
    ReportedExactly(cipher, keys, last);
    forall i | 0 <= i < |r|
      ensures KeyRank(r[i].key) < KeyRank(last)
    {
      assert r[i] in r;
      var k :| 0 <= k < |keys| && keys[k] == r[i].key;
    }
  }

  /** The value of a key's characters, first character most significant. */
  function KeyRank(key: String8): nat
  {
    if key == [] then 0 else 256 * KeyRank(key[..|key| - 1]) + key[|key| - 1] as int
  }

  /** The one-byte attack reports keys in ascending order, each readable key
      once. */
  lemma SingleByteReportsAscend(cipher: seq<Byte>)
    ensures var r := Reported(cipher, SingleByteKeys);
      forall i, j :: 0 <= i < j < |r| ==> KeyRank(r[i].key) < KeyRank(r[j].key)
  {
    forall k | 0 <= k < 256
      ensures KeyRank(SingleByteKeys[k]) == k
    {
      assert SingleByteKeys[k][..0] == [];
    }
    ReportedInOrder(cipher, SingleByteKeys);
  }

  /** The two-byte attack reports pairs in ascending (b1, b2) order. */
  lemma TwoByteReportsAscend(cipher: seq<Byte>)
    ensures var r := Reported(cipher, TwoByteKeys);
      forall i, j :: 0 <= i < j < |r| ==> KeyRank(r[i].key) < KeyRank(r[j].key)
  {
    forall n | 0 <= n < 65536
      ensures KeyRank(TwoByteKeys[n]) == n
    {
      var key := TwoByteKey(n);
      assert key[..1][..0] == [];
      assert key[..1] == [(n / 256) as char];
      assert KeyRank(key[..1]) == n / 256;
      assert KeyRank(key) == 256 * (n / 256) + n % 256;
    }
    ReportedInOrder(cipher, TwoByteKeys);
  }
}
