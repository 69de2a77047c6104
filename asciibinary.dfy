/** Class `AsciiBinary`: characters as strings of eight '0'/'1' digits, most
    significant bit first, and text as such groups separated by spaces. The
    class has no state; its operations are the methods below. */
module AsciiBinary {
  import opened Bits
  import opened Ascii

  /** The low `w` bits of `v` as '0'/'1' characters, most significant first. */
  function Binary(v: nat, w: nat): (r: String8)
    ensures |r| == w && IsBinary(r)
  {
    if w == 0 then [] else Binary(v / 2, w - 1) + [if v % 2 == 1 then '1' else '0']
  }

  predicate IsBinary(s: String8)
  {
    forall i :: 0 <= i < |s| ==> s[i] == '0' || s[i] == '1'
  }

  /** The number `binaryToChar` accumulates: each character, read as the
      digit `ch - '0'`, is added to twice the value so far. Characters other
      than '0' and '1' are not rejected. */
  function BinaryValue(s: String8): int
  {
    if s == [] then 0 else 2 * BinaryValue(s[..|s| - 1]) + (s[|s| - 1] as int - '0' as int)
  }

  /** The 8-digit groups of the characters of `s`. */
  function Groups(s: String8): (gs: seq<String8>)
    ensures |gs| == |s|
  {
    seq(|s|, i requires 0 <= i < |s| => Binary(s[i] as int, 8))
  }

  lemma GroupsSnoc(s: String8, k: nat)
    requires k < |s|
    ensures Groups(s[..k + 1]) == Groups(s[..k]) + [Binary(s[k] as int, 8)]
  {
    assert s[..k + 1][k] == s[k];
  }

  /** One more character adds a space and its group. */
  lemma BinaryTextSnoc(s: String8, k: nat, space: Char8)
    requires k < |s| && space == ' '
    ensures BinaryText(s[..k + 1]) ==
      (if k == 0 then [] else BinaryText(s[..k]) + [space]) + Binary(s[k] as int, 8)
  {
    GroupsSnoc(s, k);
    JoinSnoc(Groups(s[..k]), Binary(s[k] as int, 8), space);
  }

  /** What `stringToBinary` returns. */
  function BinaryText(s: String8): String8
  {
    JoinWith(Groups(s), ' ')
  }

  /** What `binaryToString` returns: one character per extracted word. */
  function TextOfBinary(s: String8): String8
  {
    CharsOf(Tokens(s))
  }

  function CharsOf(words: seq<String8>): (r: String8)
    ensures |r| == |words|
  {
    seq(|words|, i requires 0 <= i < |words| => CharOf(BinaryValue(words[i])))
  }

  method Bitset(c: Char8) returns (r: String8)
    ensures r == Binary(c as int, 8)
  {
    ghost var bits := Binary(c as int, 8);
    var result: String8 := seq(8, _ => '0');
    var value := c as int;
    var i := 7;
    while i >= 0
      invariant -1 <= i <= 7 && |result| == 8
      invariant value == c as int / Pow2(7 - i)
      invariant forall k :: i < k < 8 ==> result[k] == bits[k]
    {
      BitsetDigit(c as int, i, value);
      result := result[i := ((value % 2) + '0' as int) as char];
      HalfStep(c as int, 7 - i);
      value := value / 2;
      i := i - 1;
    }
    r := result;
  }

  /** The digit `bitset` writes at position i from the shifted value. */
  lemma BitsetDigit(v: nat, i: nat, value: int)
    requires i < 8 && value == v / Pow2(7 - i)
    ensures ((value % 2) + '0' as int) as char == Binary(v, 8)[i]
  {
    BinaryAt(v, 8, i);
  }

  method StringToBinary(input: String8) returns (output: String8)
    ensures output == BinaryText(input)
  {
    var out: String8 := [];
    var space: Char8 := ' ';
    for k := 0 to |input|
      invariant out == if k == 0 then [] else BinaryText(input[..k]) + [space]
    {
      var group := Bitset(input[k]);
      BinaryTextSnoc(input, k, space);
      out := out + group + [space];
    }
    assert input[..|input|] == input;
    if |out| > 0 {
      assert out == BinaryText(input) + [space];
      out := out[..|out| - 1];
    }
    output := out;
  }

  method BinaryToChar(binary: String8) returns (c: Char8)
    ensures c == CharOf(BinaryValue(binary))
  {
    var value := 0;
    for k := 0 to |binary|
      invariant value == BinaryValue(binary[..k])
    {
      assert binary[..k + 1][..k] == binary[..k];
      value := value * 2 + (binary[k] as int - '0' as int);
    }
    assert binary[..|binary|] == binary;
    c := CharOf(value);
  }

  method BinaryToString(binaryInput: String8) returns (result: String8)
    ensures result == TextOfBinary(binaryInput)
  {
    result := [];
    var rest := binaryInput;
    ghost var read: seq<String8> := [];
    while true
      invariant Tokens(binaryInput) == read + Tokens(rest)
      invariant result == CharsOf(read)
      decreases |rest|
    {
      var ok, binary, unread := Extract(rest);
      if !ok {
        break;
      }
      var c := BinaryToChar(binary);
      result := result + [c];
      read := read + [binary];
      rest := unread;
    }
    assert read == Tokens(binaryInput);
  }

  /** Digit i of `Binary(v, w)` is bit w-1-i of v. */
  lemma {:induction false} BinaryAt(v: nat, w: nat, i: nat)
    requires i < w
    ensures Binary(v, w)[i] == if (v / Pow2(w - 1 - i)) % 2 == 1 then '1' else '0'
  {
    if i < w - 1 {
      BinaryAt(v / 2, w - 1, i);
      DivDiv(v, 2, Pow2(w - 2 - i));
    }
  }

  /** The digits of a value below 2^w read back as that value. */
  lemma {:induction false} BinaryValueOfBinary(v: nat, w: nat)
    requires v < Pow2(w)
    ensures BinaryValue(Binary(v, w)) == v
  {
    if w > 0 {
      var r := Binary(v, w);
      assert r[..|r| - 1] == Binary(v / 2, w - 1);
      BinaryValueOfBinary(v / 2, w - 1);
    }
  }

  /** A '0'/'1' string is the `|s|`-digit form of its value. */
  lemma {:induction false} BinaryOfBinaryValue(s: String8)
    requires IsBinary(s)
    ensures 0 <= BinaryValue(s) < Pow2(|s|)
    ensures Binary(BinaryValue(s), |s|) == s
  {
    if s != [] {
      var init := s[..|s| - 1];
      BinaryOfBinaryValue(init);
      var v := BinaryValue(s);
      assert v / 2 == BinaryValue(init);
      assert s == init + [s[|s| - 1]];
    }
  }

  /** `binaryToChar(bitset(c)) == c`. */
  lemma CharRoundTrip(c: Char8)
    ensures CharOf(BinaryValue(Binary(c as int, 8))) == c
  {
    var v := c as int;
    assert Pow2(8) == 256;
    BinaryValueOfBinary(v, 8);
    ModSmall(v, 256);
  }

  /** `bitset(binaryToChar(b)) == b` for every eight-digit '0'/'1' string. */
  lemma BitsRoundTrip(b: String8)
    requires |b| == 8 && IsBinary(b)
    ensures Binary(CharOf(BinaryValue(b)) as int, 8) == b
  {
    BinaryOfBinaryValue(b);
    var v := BinaryValue(b);
    assert Pow2(8) == 256;
    ModSmall(v, 256);
    assert CharOf(v) as int == v;
  }

  /** The encoding of n characters is n groups of eight digits with n - 1
      separating spaces, and empty when n is 0. */
  lemma BinaryTextLength(s: String8)
    ensures |BinaryText(s)| == if s == [] then 0 else 9 * |s| - 1
  {
    JoinLength(Groups(s));
  }

  lemma {:induction false} JoinLength(ws: seq<String8>)
    requires forall k :: 0 <= k < |ws| ==> |ws[k]| == 8
    ensures |JoinWith(ws, ' ')| == if ws == [] then 0 else 9 * |ws| - 1
  {
    if |ws| > 1 {
      JoinLength(ws[1..]);
    }
  }

  /** `binaryToString(stringToBinary(s)) == s`. */
  lemma TextRoundTrip(s: String8)
    ensures TextOfBinary(BinaryText(s)) == s
  {
    var gs := Groups(s);
    forall k | 0 <= k < |gs|
      ensures gs[k] != [] && NoSpace(gs[k])
    {
      assert gs[k][0] == '0' || gs[k][0] == '1';
    }
    TokensOfJoin(gs);
    forall i | 0 <= i < |s|
      ensures CharsOf(gs)[i] == s[i]
    {
      CharRoundTrip(s[i]);
    }
  }

  /** Each word is decoded on its own: text joined by a space decodes to the
      concatenation of the decoded parts. */
  lemma TextOfBinaryAppend(a: String8, b: String8)
    ensures TextOfBinary(a + [' '] + b) == TextOfBinary(a) + TextOfBinary(b)
  {
    TokensAppend(a, b);
  }
}
