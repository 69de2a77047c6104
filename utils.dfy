/** Packing text into the 64-bit blocks the Feistel cipher works on, and back:
    character i of a string fills block bits 8i..8i+7, its bit j at bit 8i+j. */
module Utils {
  import opened Bits
  import opened Ascii
  import Des

  /** The block `stringToBitset` builds: the bits of the first eight
      characters, little-endian by character, and zero where the string has
      no character. */
  function ToBlock(s: String8): Des.Block64
  {
    seq(64, k requires 0 <= k < 64 => BlockBit(s, k / 8, k % 8))
  }

  /** Bit j of character i of `s`, false past its end. */
  function BlockBit(s: String8, i: nat, j: nat): bool
    requires j < 8
  {
    i < |s| && NatToBits(s[i] as int, 8)[j]
  }

  /** Block bit 8i + j is bit j of character i. */
  lemma ToBlockAt(s: String8, i: nat, j: nat)
    requires i < 8 && j < 8
    ensures 8 * i + j < 64 && ToBlock(s)[8 * i + j] == BlockBit(s, i, j)
  {
    var k := 8 * i + j;
    DivModUnique(j, 8, i);
    assert k / 8 == i && k % 8 == j;
  }

  /** `static_cast<char>(byte.to_ulong())` of an 8-bit bitset. */
  function ByteToChar(byte: seq<bool>): (c: Char8)
    requires |byte| == 8
    ensures c as int == BitsToNat(byte)
  {
    BitsToNatBound(byte);
    BitsToNat(byte) as char
  }

  /** The eight characters `bitsetToString` reads from a block. */
  function FromBlock(b: Des.Block64): (s: String8)
    ensures |s| == 8
  {
    seq(8, i requires 0 <= i < 8 => ByteToChar(b[8 * i..8 * i + 8]))
  }

  /** A string cut or padded with '\0' to eight characters. */
  function Fit8(s: String8): (r: String8)
    ensures |r| == 8
  {
    if |s| >= 8 then s[..8] else s + seq(8 - |s|, _ => '\0')
  }

  method StringToBitset(str: String8) returns (bits: Des.Block64)
    ensures bits == ToBlock(str)
  {
    var out := new bool[64](_ => false);
    var i := 0;
    while i < |str| && i < 8
      invariant 0 <= i <= 8 && i <= |str|
      invariant forall k :: 0 <= k < 8 * i ==> out[k] == ToBlock(str)[k]
      invariant forall k :: 8 * i <= k < 64 ==> !out[k]
    {
      var byte := NatToBits(str[i] as int, 8);
      for j := 0 to 8
        invariant forall k :: 0 <= k < 8 * i + j ==> out[k] == ToBlock(str)[k]
        invariant forall k :: 8 * i + j <= k < 64 ==> !out[k]
      {
        ToBlockAt(str, i, j);
        out[8 * i + j] := byte[j];
      }
      i := i + 1;
    }
    forall k | 8 * i <= k < 64
      ensures !ToBlock(str)[k]
    {
      ToBlockAt(str, k / 8, k % 8);
    }
    bits := out[..];
  }

  method BitsetToString(bits: Des.Block64) returns (str: String8)
    ensures str == FromBlock(bits)
  {
    var out := new Char8[8](_ => '\0');
    for i := 0 to 8
      invariant forall k :: 0 <= k < i ==> out[k] == FromBlock(bits)[k]
    {
      var byte := new bool[8](_ => false);
      for j := 0 to 8
        invariant forall m :: 0 <= m < j ==> byte[m] == bits[8 * i + m]
        invariant forall k :: 0 <= k < i ==> out[k] == FromBlock(bits)[k]
      {
        byte[j] := bits[8 * i + j];
      }
      assert byte[..] == bits[8 * i..8 * i + 8];
      out[i] := ByteToChar(byte[..]);
    }
    str := out[..];
  }

  /** Character group i of a block built from `s`: the bits of `s[i]`, or
      zeros past the end of `s`. */
  lemma ToBlockGroup(s: String8, i: nat)
    requires i < 8
    ensures ToBlock(s)[8 * i..8 * i + 8] == NatToBits(if i < |s| then s[i] as int else 0, 8)
  {
    var g := ToBlock(s)[8 * i..8 * i + 8];
    var v := if i < |s| then s[i] as int else 0;
    forall j | 0 <= j < 8
      ensures g[j] == NatToBits(v, 8)[j]
    {
      ToBlockAt(s, i, j);
      assert g[j] == ToBlock(s)[8 * i + j];
      NatToBitsAt(0, 8, j);
    }
  }

  /** Packing the string read from a block gives the block back. */
  lemma BlockRoundTrip(b: Des.Block64)
    ensures ToBlock(FromBlock(b)) == b
  {
    forall k | 0 <= k < 64
      ensures ToBlock(FromBlock(b))[k] == b[k]
    {
      BlockRoundTripAt(b, k / 8, k % 8);
    }
  }

  lemma BlockRoundTripAt(b: Des.Block64, i: nat, j: nat)
    requires i < 8 && j < 8
    ensures ToBlock(FromBlock(b))[8 * i + j] == b[8 * i + j]
  {
    var byte := b[8 * i..8 * i + 8];
    ToBlockAt(FromBlock(b), i, j);
    assert FromBlock(b)[i] == ByteToChar(byte);
    BitsToNatToBits(byte);
    assert byte[j] == b[8 * i + j];
  }

  /** Reading back the block of `s` gives `s` cut or zero-padded to eight
      characters. */
  lemma StringRoundTrip(s: String8)
    ensures FromBlock(ToBlock(s)) == Fit8(s)
  {
    forall i | 0 <= i < 8
      ensures FromBlock(ToBlock(s))[i] == Fit8(s)[i]
    {
      StringRoundTripAt(s, i);
    }
  }

  lemma StringRoundTripAt(s: String8, i: nat)
    requires i < 8
    ensures FromBlock(ToBlock(s))[i] == Fit8(s)[i]
  {
    var v := if i < |s| then s[i] as int else 0;
    assert Pow2(8) == 256;
    ToBlockGroup(s, i);
    NatToBitsToNat(v, 8);
    assert FromBlock(ToBlock(s))[i] == ByteToChar(ToBlock(s)[8 * i..8 * i + 8]);
    assert Fit8(s)[i] == v as char;
  }

  /** In particular an eight-character string survives the round trip. */
  lemma EightCharsRoundTrip(s: String8)
    requires |s| == 8
    ensures FromBlock(ToBlock(s)) == s
  {
    StringRoundTrip(s);
  }
}
