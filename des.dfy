/** The simplified 16-round Feistel block cipher of class `DES`.
    A `std::bitset<N>` is a length-N bit string (module Bits, bit i at index i);
    the tables are those of the class and are read with its `32 - table[i]`
    bit indexing. Decryption is not part of the class: `Decrypt` below is the
    inverse the class comment describes, the same rounds with the subkeys in
    reverse order. */
module Des {
  import opened Bits

  type Block64 = b: seq<bool> | |b| == 64 witness Zeros(64)
  type Bits48 = b: seq<bool> | |b| == 48 witness Zeros(48)
  type Half32 = b: seq<bool> | |b| == 32 witness Zeros(32)

  /** The expansion table E (1-based bit positions). */
  const ExpansionTable: seq<int> :=
      [32, 1, 2, 3, 4, 5] + [4, 5, 6, 7, 8, 9]
    + [8, 9, 10, 11, 12, 13] + [12, 13, 14, 15, 16, 17]
    + [16, 17, 18, 19, 20, 21] + [20, 21, 22, 23, 24, 25]
    + [24, 25, 26, 27, 28, 29] + [28, 29, 30, 31, 32, 1]

  /** The permutation table P (1-based bit positions). */
  const PTable: seq<int> := [
      16, 7, 20, 21, 29, 12, 28, 17,
      1, 15, 23, 26, 5, 18, 31, 10,
      2, 8, 24, 14, 32, 27, 3, 9,
      19, 13, 30, 6, 22, 11, 4, 25
  ]

  /** The one S-box, four rows of sixteen 4-bit values. */
  const SBox: seq<seq<int>> := [
    [14, 4, 13, 1, 2, 15, 11, 8, 3, 10, 6, 12, 5, 9, 0, 7],
    [0, 15, 7, 4, 14, 2, 13, 1, 10, 6, 12, 11, 9, 5, 3, 8],
    [4, 1, 14, 8, 13, 6, 2, 11, 15, 12, 9, 7, 3, 10, 5, 0],
    [15, 12, 8, 2, 4, 9, 1, 7, 5, 11, 3, 14, 10, 0, 6, 13]]

  /** `PInverse[v]` is the index of `PTable` that holds v + 1. */
  const PInverse: seq<int> := [
      8, 16, 22, 30, 12, 27, 1, 17,
      23, 15, 29, 5, 25, 19, 9, 0,
      7, 13, 24, 2, 3, 28, 10, 18,
      31, 11, 21, 6, 4, 26, 14, 20
  ]

  /** `SBoxInverse[r][v]` is the column of row r that holds v. */
  const SBoxInverse: seq<seq<int>> := [
    [14, 3, 4, 8, 1, 12, 10, 15, 7, 13, 9, 6, 11, 2, 0, 5],
    [0, 7, 5, 14, 3, 13, 9, 2, 15, 12, 8, 11, 10, 6, 4, 1],
    [15, 1, 6, 12, 0, 14, 5, 11, 3, 10, 13, 7, 9, 4, 2, 8],
    [13, 6, 3, 10, 4, 8, 14, 7, 2, 5, 12, 9, 1, 15, 11, 0]]

  // ---------------------------------------------------------------------------
  // The tables

  /** Every entry of E and P is in 1..32, so `32 - table[i]` is a bit index
      0..31; every S-box entry is a 4-bit value. */
  lemma TablesInRange()
    ensures |ExpansionTable| == 48 && forall i :: 0 <= i < 48 ==> 1 <= ExpansionTable[i] <= 32
    ensures |PTable| == 32 && forall i :: 0 <= i < 32 ==> 1 <= PTable[i] <= 32
    ensures |SBox| == 4 && forall r :: 0 <= r < 4 ==> |SBox[r]| == 16
    ensures forall r, c :: 0 <= r < 4 && 0 <= c < 16 ==> 0 <= SBox[r][c] < 16
  {
    ExpansionInRange();
    PTableInRange();
    SBoxInRange();
  }

  lemma ExpansionInRange()
    ensures |ExpansionTable| == 48 && forall i :: 0 <= i < 48 ==> 1 <= ExpansionTable[i] <= 32
  {
  }

  lemma PTableInRange()
    ensures |PTable| == 32 && forall i :: 0 <= i < 32 ==> 1 <= PTable[i] <= 32
  {
  }

  lemma SBoxInRange()
    ensures |SBox| == 4 && forall r :: 0 <= r < 4 ==> |SBox[r]| == 16
    ensures forall r, c :: 0 <= r < 4 && 0 <= c < 16 ==> 0 <= SBox[r][c] < 16
  {
    forall r | 0 <= r < 4
      ensures |SBox[r]| == 16 && forall c :: 0 <= c < 16 ==> 0 <= SBox[r][c] < 16
    {
      SBoxRowInRange(r);
    }
  }

  lemma SBoxRowInRange(r: nat)
    requires r < 4
    ensures |SBox[r]| == 16 && forall c :: 0 <= c < 16 ==> 0 <= SBox[r][c] < 16
  {
    if r == 0 {
    } else if r == 1 {
    } else if r == 2 {
    } else {
    }
  }

  /** P is a permutation of 1..32: `PInverse` undoes it on both sides. */
  lemma PTableIsPermutation()
    ensures |PInverse| == 32
    ensures forall i :: 0 <= i < 32 ==> PInverse[PTable[i] - 1] == i
    ensures forall v :: 0 <= v < 32 ==> 0 <= PInverse[v] < 32 && PTable[PInverse[v]] == v + 1
  {
    PTableUndone();
    PTableUndoes();
  }

  lemma PTableUndone()
    ensures |PTable| == 32 && |PInverse| == 32
    ensures forall i :: 0 <= i < 32 ==> 1 <= PTable[i] <= 32 && PInverse[PTable[i] - 1] == i
  {
  }

  lemma PTableEntryUndone(i: nat)
    requires i < 32
    ensures 1 <= PTable[i] <= 32 && PInverse[PTable[i] - 1] == i
  {
    PTableUndone();
  }

  lemma PTableUndoes()
    ensures |PTable| == 32 && |PInverse| == 32
    ensures forall v :: 0 <= v < 32 ==> 0 <= PInverse[v] < 32 && PTable[PInverse[v]] == v + 1
  {
  }

  /** Every S-box row is a permutation of 0..15. */
  lemma SBoxRowsArePermutations()
    ensures forall r, c :: 0 <= r < 4 && 0 <= c < 16 ==> SBoxInverse[r][SBox[r][c]] == c
    ensures forall r, v :: 0 <= r < 4 && 0 <= v < 16 ==>
      0 <= SBoxInverse[r][v] < 16 && SBox[r][SBoxInverse[r][v]] == v
  {
    forall r | 0 <= r < 4
      ensures forall c :: 0 <= c < 16 ==> SBoxInverse[r][SBox[r][c]] == c
      ensures forall v :: 0 <= v < 16 ==> 0 <= SBoxInverse[r][v] < 16 && SBox[r][SBoxInverse[r][v]] == v
    {
      SBoxRowIsPermutation(r);
    }
  }

  lemma SBoxRowIsPermutation(r: nat)
    requires r < 4
    ensures forall c :: 0 <= c < 16 ==> SBoxInverse[r][SBox[r][c]] == c
    ensures forall v :: 0 <= v < 16 ==> 0 <= SBoxInverse[r][v] < 16 && SBox[r][SBoxInverse[r][v]] == v
  {
    SBoxRowInRange(r);
    SBoxRowUndone(r);
    SBoxRowUndoes(r);
  }

  lemma SBoxRowUndone(r: nat)
    requires r < 4
    ensures |SBox[r]| == 16 && |SBoxInverse[r]| == 16
    ensures forall c :: 0 <= c < 16 ==> 0 <= SBox[r][c] < 16 && SBoxInverse[r][SBox[r][c]] == c
  {
    if r == 0 {
    } else if r == 1 {
    } else if r == 2 {
    } else {
    }
  }

  lemma SBoxRowUndoes(r: nat)
    requires r < 4
    ensures |SBox[r]| == 16 && |SBoxInverse[r]| == 16
    ensures forall v :: 0 <= v < 16 ==> 0 <= SBoxInverse[r][v] < 16 && SBox[r][SBoxInverse[r][v]] == v
  {
    if r == 0 {
    } else if r == 1 {
    } else if r == 2 {
    } else {
    }
  }

  /** An index of E that holds the 1-based position v. */
  function ExpansionIndexOf(v: int): (i: int)
    requires 1 <= v <= 32
    ensures 0 <= i < 48 && ExpansionTable[i] == v
  {
    var q, r := (v - 1) / 4, (v - 1) % 4;
    ExpansionGroup(q, r);
    6 * q + r + 1
  }

  /** Group q of E repeats input positions 4q .. 4q + 3 at its indices 1..4. */
  lemma ExpansionGroup(q: nat, r: nat)
    requires q < 8 && r < 4
    ensures 6 * q + r + 1 < 48 && ExpansionTable[6 * q + r + 1] == 4 * q + r + 1
  {
    if q == 0 {
    } else if q == 1 {
    } else if q == 2 {
    } else if q == 3 {
    } else if q == 4 {
    } else if q == 5 {
    } else if q == 6 {
    } else {
    }
  }

  // ---------------------------------------------------------------------------
  // The round function, as functions of its inputs

  /** Output bit i of the expansion is input bit `32 - E[i]`. */
  function Expansion(half: Half32): Bits48
  {
    ExpansionInRange();
    seq(48, i requires 0 <= i < 48 => half[32 - ExpansionTable[i]])
  }

  lemma ExpansionEntry(half: Half32, i: nat)
    requires i < 48
    ensures 1 <= ExpansionTable[i] <= 32
    ensures Expansion(half)[i] == half[32 - ExpansionTable[i]]
  {
    ExpansionInRange();
  }

  function Bit(b: bool): nat { if b then 1 else 0 }

  /** S-box row of 6-bit group g: its first and last bits. */
  function Row(x: Bits48, g: nat): (r: nat)
    requires g < 8
    ensures r < 4
  {
    2 * Bit(x[6 * g]) + Bit(x[6 * g + 5])
  }

  /** S-box column of 6-bit group g: its four middle bits. */
  function Col(x: Bits48, g: nat): (c: nat)
    requires g < 8
    ensures c < 16
  {
    8 * Bit(x[6 * g + 1]) + 4 * Bit(x[6 * g + 2]) + 2 * Bit(x[6 * g + 3]) + Bit(x[6 * g + 4])
  }

  function SBoxValue(x: Bits48, g: nat): (v: nat)
    requires g < 8
    ensures v < 16
  {
    SBoxInRange();
    SBox[Row(x, g)][Col(x, g)]
  }

  /** Group g's S-box value fills output bits 4g..4g+3, most significant bit first. */
  function Substitution(x: Bits48): Half32
  {
    seq(32, p requires 0 <= p < 32 => OutputBit(x, p / 4, p % 4))
  }

  /** Bit j of group g's output nibble. */
  function OutputBit(x: Bits48, g: nat, j: nat): bool
    requires g < 8 && j < 4
  {
    NatToBits(SBoxValue(x, g), 4)[3 - j]
  }

  /** Output bit i of P is input bit `32 - P[i]`. */
  function PPermutation(x: Half32): Half32
  {
    PTableInRange();
    seq(32, i requires 0 <= i < 32 => x[32 - PTable[i]])
  }

  lemma PPermutationAt(x: Half32, i: nat)
    requires i < 32
    ensures 1 <= PTable[i] <= 32 && PPermutation(x)[i] == x[32 - PTable[i]]
  {
    PTableInRange();
  }

  /** The inverse of P. */
  function PUnpermutation(y: Half32): Half32
  {
    PTableIsPermutation();
    seq(32, m requires 0 <= m < 32 => y[PInverse[31 - m]])
  }

  /** The Feistel function: expand, mix in the subkey, substitute, permute. */
  function RoundFunction(right: Half32, subkey: Bits48): Half32
  {
    PPermutation(Substitution(XorBits(Expansion(right), subkey)))
  }

  // ---------------------------------------------------------------------------
  // Key schedule and the network

  /** Subkey i is bits i..i+47 of the key. */
  function Schedule(key: Block64): (ks: seq<Bits48>)
    ensures |ks| == 16
  {
    seq(16, i requires 0 <= i < 16 => key[i..i + 48])
  }

  datatype Halves = Halves(left: Half32, right: Half32)

  /** One round: `(L, R) -> (R, L ^ f(R, k))`. */
  function Step(h: Halves, subkey: Bits48): Halves
  {
    Halves(h.right, XorBits(h.left, RoundFunction(h.right, subkey)))
  }

  /** The rounds of `ks`, in order, applied to `h`. */
  function Rounds(ks: seq<Bits48>, h: Halves): Halves
  {
    if ks == [] then h else Step(Rounds(ks[..|ks| - 1], h), ks[|ks| - 1])
  }

  /** Split into left = high 32 bits and right = low 32 bits, run the rounds,
      and join right above left. */
  function Encrypt(ks: seq<Bits48>, plaintext: Block64): Block64
  {
    var h := Rounds(ks, Halves(plaintext[32..], plaintext[..32]));
    h.left + h.right
  }

  /** The same network with the subkeys in reverse order. */
  function Decrypt(ks: seq<Bits48>, ciphertext: Block64): Block64
  {
    Encrypt(Reverse(ks), ciphertext)
  }

  function Reverse<T>(s: seq<T>): (r: seq<T>)
    ensures |r| == |s|
  {
    if s == [] then [] else Reverse(s[1..]) + [s[0]]
  }

  // ---------------------------------------------------------------------------
  // What the round function and the network satisfy

  /** The expansion keeps every input bit, so it loses nothing. */
  lemma ExpansionInjective(a: Half32, b: Half32)
    requires Expansion(a) == Expansion(b)
    ensures a == b
  {
    forall m | 0 <= m < 32
      ensures a[m] == b[m]
    {
      var i := ExpansionIndexOf(32 - m);
      assert Expansion(a)[i] == a[m] && Expansion(b)[i] == b[m];
    }
  }

  /** `% 4` and `% 16` leave the S-box indices as they are. */
  lemma SBoxIndicesInRange(x: Bits48, g: nat)
    requires g < 8
    ensures Row(x, g) % 4 == Row(x, g) && Col(x, g) % 16 == Col(x, g)
  {
  }

  /** Reading output bits 4g..4g+3 most significant first gives group g's
      S-box entry. */
  lemma SubstitutionNibble(x: Bits48, g: nat)
    requires g < 8
    ensures var out := Substitution(x);
      8 * Bit(out[4 * g]) + 4 * Bit(out[4 * g + 1]) + 2 * Bit(out[4 * g + 2]) + Bit(out[4 * g + 3])
        == SBox[Row(x, g)][Col(x, g)]
  {
    var v := SBoxValue(x, g);
    SubstitutionAt(x, g, 0);
    SubstitutionAt(x, g, 1);
    SubstitutionAt(x, g, 2);
    SubstitutionAt(x, g, 3);
    NibbleValue(v);
  }

  /** Output bit 4g+j of the substitution is bit 3-j of group g's S-box entry. */
  lemma SubstitutionAt(x: Bits48, g: nat, j: nat)
    requires g < 8 && j < 4
    ensures Substitution(x)[4 * g + j] == NatToBits(SBoxValue(x, g), 4)[3 - j]
    ensures Substitution(x)[4 * g + j] == OutputBit(x, g, j)
  {
    var p := 4 * g + j;
    DivModUnique(j, 4, g);
    assert p / 4 == g && p % 4 == j;
  }

  /** The same bit as a digit of the entry's value. */
  lemma SubstitutionBit(x: Bits48, g: nat, j: nat)
    requires g < 8 && j < 4
    ensures Substitution(x)[4 * g + j] == ShiftBit(SBoxValue(x, g), 3 - j)
  {
    SubstitutionAt(x, g, j);
    OutputBitValue(x, g, j);
  }

  /** `(v >> s) & 1` as a truth value. */
  function ShiftBit(v: nat, s: nat): bool
  {
    (v / Pow2(s)) % 2 == 1
  }

  /** `SubstitutionBit` indexed by the output position. */
  lemma SubstitutionBitAt(x: Bits48, g: nat, p: nat)
    requires g < 8 && 4 * g <= p < 4 * g + 4
    ensures Substitution(x)[p] == ShiftBit(SBoxValue(x, g), 3 - (p - 4 * g))
  {
    var j := p - 4 * g;
    SubstitutionBit(x, g, j);
    assert 4 * g + j == p;
  }

  lemma OutputBitValue(x: Bits48, g: nat, j: nat)
    requires g < 8 && j < 4
    ensures OutputBit(x, g, j) == ShiftBit(SBoxValue(x, g), 3 - j)
  {
    NatToBitsAt(SBoxValue(x, g), 4, 3 - j);
  }

  /** The four bits `NatToBits` gives a 4-bit value add back up to it. */
  lemma NibbleValue(v: nat)
    requires v < 16
    ensures var n := NatToBits(v, 4);
      8 * Bit(n[3]) + 4 * Bit(n[2]) + 2 * Bit(n[1]) + Bit(n[0]) == v
  {
    var n := NatToBits(v, 4);
    assert Pow2(4) == 16;
    NatToBitsToNat(v, 4);
    assert n[3..][1..] == [];
    assert BitsToNat(n[3..]) == Bit(n[3]);
    assert n[2..][1..] == n[3..];
    assert BitsToNat(n[2..]) == Bit(n[2]) + 2 * BitsToNat(n[3..]);
    assert n[1..][1..] == n[2..];
    assert BitsToNat(n[1..]) == Bit(n[1]) + 2 * BitsToNat(n[2..]);
    assert BitsToNat(n) == Bit(n[0]) + 2 * BitsToNat(n[1..]);
  }

  /** P undoes on both sides with its inverse, so it is a bijection. */
  lemma PPermutationBijective(x: Half32, y: Half32)
    ensures PUnpermutation(PPermutation(x)) == x
    ensures PPermutation(PUnpermutation(y)) == y
  {
    PUnpermutationUndoes(x);
    PPermutationUndoes(y);
  }

  lemma PUnpermutationUndoes(x: Half32)
    ensures PUnpermutation(PPermutation(x)) == x
  {
    PTableUndoes();
    var y := PPermutation(x);
    var u := PUnpermutation(y);
    forall m | 0 <= m < 32
      ensures u[m] == x[m]
    {
      var i := PInverse[31 - m];
      assert u[m] == y[i];
      assert y[i] == x[32 - PTable[i]];
    }
  }

  lemma PPermutationUndoes(y: Half32)
    ensures PPermutation(PUnpermutation(y)) == y
  {
    forall i | 0 <= i < 32
      ensures PPermutation(PUnpermutation(y))[i] == y[i]
    {
      PPermutationUndoesAt(y, i);
    }
  }

  lemma PPermutationUndoesAt(y: Half32, i: nat)
    requires i < 32
    ensures PPermutation(PUnpermutation(y))[i] == y[i]
  {
    var x := PUnpermutation(y);
    PTableEntryUndone(i);
    var m := 32 - PTable[i];
    assert PPermutation(x)[i] == x[m];
    assert x[m] == y[PInverse[31 - m]];
  }

  /** P moves bits and neither makes nor loses a set bit. */
  lemma PPermutationPreservesCount(x: Half32)
    ensures PopCount(PPermutation(x)) == PopCount(x)
  {
    var y := PPermutation(x);
    var outSet := set i | 0 <= i < |y| && y[i];
    var inSet := set m | 0 <= m < |x| && x[m];
    assert PopCount(y) == |outSet|;
    assert PopCount(x) == |inSet|;
    SourceInjective(outSet);
    ImageCard(outSet);
    SetBitsMoved(x, outSet, inSet);
  }

  /** The input bit that P moves to output bit i. */
  function PSource(i: int): int
  {
    if 0 <= i < 32 && PTable[i] <= 32 then 32 - PTable[i] else i
  }

  lemma SourceInjective(s: set<int>)
    requires forall i :: i in s ==> 0 <= i < 32
    ensures forall a, b :: a in s && b in s && PSource(a) == PSource(b) ==> a == b
  {
    PTableIsPermutation();
    PTableInRange();
    forall a, b | a in s && b in s && PSource(a) == PSource(b)
      ensures a == b
    {
      assert PInverse[PTable[a] - 1] == a && PInverse[PTable[b] - 1] == b;
    }
  }

  /** The set bits of the input are the sources of the set bits of the output. */
  lemma SetBitsMoved(x: Half32, outSet: set<int>, inSet: set<int>)
    requires outSet == set k | 0 <= k < 32 && PPermutation(x)[k]
    requires inSet == set m | 0 <= m < 32 && x[m]
    ensures inSet == set i | i in outSet :: PSource(i)
  {
    PTableIsPermutation();
    PTableInRange();
    var y := PPermutation(x);
    forall m | m in inSet
      ensures m in set i | i in outSet :: PSource(i)
    {
      var i := PInverse[31 - m];
      assert PSource(i) == m && y[i];
    }
  }

  /** An injective map keeps the size of a set. */
  lemma {:induction false} ImageCard(s: set<int>)
    requires forall a, b :: a in s && b in s && PSource(a) == PSource(b) ==> a == b
    ensures |set a | a in s :: PSource(a)| == |s|
    decreases |s|
  {
    if s != {} {
      assert exists a :: a in s by {
        if forall a :: a !in s {
          assert false;
        }
      }
      var a :| a in s;
      var rest := s - {a};
      ImageCard(rest);
      assert (set b | b in s :: PSource(b)) == (set b | b in rest :: PSource(b)) + {PSource(a)};
    }
  }

  lemma {:induction false} ReverseSnoc<T>(s: seq<T>, x: T)
    ensures Reverse(s + [x]) == [x] + Reverse(s)
  {
    if s != [] {
      assert (s + [x])[1..] == s[1..] + [x];
      ReverseSnoc(s[1..], x);
    } else {
      assert Reverse([x]) == Reverse([]) + [x];
    }
  }

  lemma {:induction false} ReverseReverse<T>(s: seq<T>)
    ensures Reverse(Reverse(s)) == s
  {
    if s != [] {
      ReverseReverse(s[1..]);
      ReverseSnoc(Reverse(s[1..]), s[0]);
      assert s == [s[0]] + s[1..];
    }
  }

  /** Running `a` then `b` is running `a + b`. */
  lemma {:induction false} RoundsAppend(a: seq<Bits48>, b: seq<Bits48>, h: Halves)
    ensures Rounds(a + b, h) == Rounds(b, Rounds(a, h))
    decreases |b|
  {
    if b == [] {
      assert a + b == a;
    } else {
      var b' := b[..|b| - 1];
      assert (a + b)[..|a + b| - 1] == a + b';
      RoundsAppend(a, b', h);
    }
  }

  /** Replaying the rounds with the subkeys reversed, on the swapped halves,
      undoes them: the XOR with the same round-function output cancels. */
  lemma {:induction false} RoundsReverse(ks: seq<Bits48>, h: Halves)
    ensures var e := Rounds(ks, h);
      Rounds(Reverse(ks), Halves(e.right, e.left)) == Halves(h.right, h.left)
    decreases |ks|
  {
    if ks != [] {
      var front, k := ks[..|ks| - 1], ks[|ks| - 1];
      assert ks == front + [k];
      var m := Rounds(front, h);
      var e := Step(m, k);
      ReverseSnoc(front, k);
      RoundsAppend([k], Reverse(front), Halves(e.right, e.left));
      assert Rounds([k], Halves(e.right, e.left)) == Step(Halves(e.right, e.left), k);
      XorCancel(m.left, RoundFunction(m.right, k));
      assert Step(Halves(e.right, e.left), k) == Halves(m.right, m.left);
      RoundsReverse(front, h);
    }
  }

  /** Decryption undoes encryption under any subkey sequence. */
  lemma DecryptEncrypt(ks: seq<Bits48>, plaintext: Block64)
    ensures Decrypt(ks, Encrypt(ks, plaintext)) == plaintext
  {
    var h := Halves(plaintext[32..], plaintext[..32]);
    var e := Rounds(ks, h);
    var c := Encrypt(ks, plaintext);
    assert c[32..] == e.right && c[..32] == e.left;
    RoundsReverse(ks, h);
    assert plaintext == plaintext[..32] + plaintext[32..];
  }

  /** Encryption undoes decryption as well. */
  lemma EncryptDecrypt(ks: seq<Bits48>, ciphertext: Block64)
    ensures Encrypt(ks, Decrypt(ks, ciphertext)) == ciphertext
  {
    DecryptEncrypt(Reverse(ks), ciphertext);
    ReverseReverse(ks);
  }

  /** For a fixed schedule, distinct plaintexts give distinct ciphertexts. */
  lemma EncryptInjective(ks: seq<Bits48>, p1: Block64, p2: Block64)
    requires Encrypt(ks, p1) == Encrypt(ks, p2)
    ensures p1 == p2
  {
    DecryptEncrypt(ks, p1);
    DecryptEncrypt(ks, p2);
  }

  /** Subkey i is `(key >> i) & 0xFFFFFFFFFFFF` on the key's value. */
  lemma ScheduleIsShiftAndMask(key: Block64, i: nat)
    requires i < 16
    ensures BitsToNat(Schedule(key)[i]) == (BitsToNat(key) / Pow2(i)) % Pow2(48)
  {
    SliceIsShiftAndMask(key, i, i + 48);
  }

  /** The halves `encode` splits a block into are `data >> 32` and the low
      32 bits of data. */
  lemma HalvesAreShifts(data: Block64)
    ensures BitsToNat(data[32..]) == BitsToNat(data) / Pow2(32)
    ensures BitsToNat(data[..32]) == BitsToNat(data) % Pow2(32)
  {
    var lo, hi := data[..32], data[32..];
    assert data == lo + hi;
    BitsToNatAppend(lo, hi);
    BitsToNatBound(lo);
    DivModUnique(BitsToNat(lo), Pow2(32), BitsToNat(hi));
  }

  /** Joining left below right is `(right << 32) | left`. */
  lemma JoinIsShiftOr(left: Half32, right: Half32)
    ensures BitsToNat(left + right) == Pow2(32) * BitsToNat(right) + BitsToNat(left)
  {
    BitsToNatAppend(left, right);
  }

  // ---------------------------------------------------------------------------
  // The class

  /** A cipher instance: its 64-bit key and the subkeys derived from it. */
  class DES {
    var key: Block64
    var subkeys: seq<Bits48>

    /** The default constructor: an all-zero key and no subkeys. */
    constructor Default()
      ensures key == Zeros(64) && subkeys == []
    {
      key := Zeros(64);
      subkeys := [];
    }

    /** Stores the key and derives the 16 subkeys. */
    constructor (key: Block64)
      ensures this.key == key && subkeys == Schedule(key)
    {
      this.key := key;
      subkeys := [];
      new;
      GenerateSubkeys();
    }

    /** Appends the 16 subkeys of the key to those already present. */
    method GenerateSubkeys()
      modifies this`subkeys
      ensures subkeys == old(subkeys) + Schedule(key)
    {
      var i := 0;
      while i < 16
        invariant 0 <= i <= 16
        invariant subkeys == old(subkeys) + Schedule(key)[..i]
      {
        var subkey: Bits48 := key[i..i + 48];
        subkeys := subkeys + [subkey];
        i := i + 1;
      }
    }

    /** The initial permutation, bit by bit: the identity. */
    method IPermutation(input: Block64) returns (output: Block64)
      ensures output == input
    {
      var out := new bool[64](_ => false);
      for i := 0 to 64
        invariant forall k :: 0 <= k < i ==> out[k] == input[k]
      {
        out[i] := input[i];
      }
      output := out[..];
    }

    method Expand(halfBlock: Half32) returns (output: Bits48)
      ensures output == Expansion(halfBlock)
    {
      var out := new bool[48](_ => false);
      for i := 0 to 48
        invariant forall k :: 0 <= k < i ==> out[k] == Expansion(halfBlock)[k]
      {
        ExpansionEntry(halfBlock, i);
        out[i] := halfBlock[32 - ExpansionTable[i]];
      }
      output := out[..];
    }

    method Substitute(input: Bits48) returns (output: Half32)
      ensures output == Substitution(input)
    {
      SBoxInRange();
      ghost var spec := Substitution(input);
      var out := new bool[32](_ => false);
      for i := 0 to 8
        invariant forall p :: 0 <= p < 4 * i ==> out[p] == spec[p]
      {
        var row := 2 * Bit(input[6 * i]) + Bit(input[6 * i + 5]);
        var col := 8 * Bit(input[6 * i + 1]) + 4 * Bit(input[6 * i + 2])
          + 2 * Bit(input[6 * i + 3]) + Bit(input[6 * i + 4]);
        assert row == Row(input, i) && col == Col(input, i);
        SBoxIndicesInRange(input, i);
        var sboxValue := SBox[row % 4][col % 16];
        assert sboxValue == SBoxValue(input, i);
        WriteNibble(out, i, sboxValue, input);
      }
      output := out[..];
    }

    /** The inner loop of `substitute`: bits 4i..4i+3 of the output receive
        the S-box value, most significant bit first. */
    method WriteNibble(out: array<bool>, i: nat, sboxValue: nat, ghost input: Bits48)
      requires out.Length == 32 && i < 8 && sboxValue == SBoxValue(input, i)
      modifies out
      ensures forall p :: 0 <= p < 4 * i ==> out[p] == old(out[p])
      ensures forall p :: 4 * i <= p < 4 * i + 4 ==> out[p] == Substitution(input)[p]
    {
      var base := 4 * i;
      for j := 0 to 4
        invariant forall p :: 0 <= p < base ==> out[p] == old(out[p])
        invariant forall p :: base <= p < base + j ==> out[p] == ShiftBit(sboxValue, 3 - (p - base))
      {
        out[base + j] := ShiftBit(sboxValue, 3 - j);
      }
      forall p | base <= p < base + 4
        ensures out[p] == Substitution(input)[p]
      {
        SubstitutionBitAt(input, i, p);
      }
    }

    method PermuteP(input: Half32) returns (output: Half32)
      ensures output == PPermutation(input)
    {
      var out := new bool[32](_ => false);
      for i := 0 to 32
        invariant forall k :: 0 <= k < i ==> out[k] == PPermutation(input)[k]
      {
        PPermutationAt(input, i);
        out[i] := input[32 - PTable[i]];
      }
      output := out[..];
    }

    method Feistel(right: Half32, subkey: Bits48) returns (permuted: Half32)
      ensures permuted == RoundFunction(right, subkey)
    {
      var expanded := Expand(right);
      var xored: Bits48 := XorBits(expanded, subkey);
      var substituted := Substitute(xored);
      permuted := PermuteP(substituted);
    }

    /** The final permutation, bit by bit: the identity. */
    method FPermutation(input: Block64) returns (output: Block64)
      ensures output == input
    {
      var out := new bool[64](_ => false);
      for i := 0 to 64
        invariant forall k :: 0 <= k < i ==> out[k] == input[k]
      {
        out[i] := input[i];
      }
      output := out[..];
    }

    /** Encrypts one block with the first 16 subkeys. */
    method Encode(plaintext: Block64) returns (ciphertext: Block64)
      requires |subkeys| >= 16
      ensures ciphertext == Encrypt(subkeys[..16], plaintext)
    {
      var data := IPermutation(plaintext);
      var left: Half32 := data[32..];
      var right: Half32 := data[..32];
      for round := 0 to 16
        invariant Halves(left, right) == Rounds(subkeys[..round], Halves(plaintext[32..], plaintext[..32]))
      {
        var f := Feistel(right, subkeys[round]);
        var newRight: Half32 := XorBits(left, f);
        left := right;
        right := newRight;
        assert subkeys[..round + 1][..round] == subkeys[..round];
      }
      var combined: Block64 := left + right;
      ciphertext := FPermutation(combined);
    }
  }
}
