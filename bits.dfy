/** Fixed-width bit strings, the model of `std::bitset<N>`.
    A bit string is a `seq<bool>` whose index i is bit i, the bit worth 2^i;
    `BitsToNat` is the value `to_ullong` reads from it. */
module Bits {

  function Pow2(n: nat): (r: nat)
    ensures r >= 1
  {
    if n == 0 then 1 else 2 * Pow2(n - 1)
  }

  /** The unsigned value of a bit string, bit 0 least significant. */
  function BitsToNat(b: seq<bool>): nat
  {
    if b == [] then 0 else (if b[0] then 1 else 0) + 2 * BitsToNat(b[1..])
  }

  /** The low `w` bits of `n`, bit 0 first. */
  function NatToBits(n: nat, w: nat): (b: seq<bool>)
    ensures |b| == w
  {
    if w == 0 then [] else [n % 2 == 1] + NatToBits(n / 2, w - 1)
  }

  function Zeros(w: nat): (b: seq<bool>)
    ensures |b| == w && forall i :: 0 <= i < w ==> !b[i]
  {
    seq(w, i => false)
  }

  /** Bitwise exclusive or, the `^` of two bitsets of one width. */
  function XorBits(a: seq<bool>, b: seq<bool>): (r: seq<bool>)
    requires |a| == |b|
    ensures |r| == |a|
    ensures forall i :: 0 <= i < |r| ==> r[i] == (a[i] != b[i])
  {
    seq(|a|, i requires 0 <= i < |a| => a[i] != b[i])
  }

  /** The number of set bits (`bitset::count`). */
  function PopCount(b: seq<bool>): nat
  {
    |set i | 0 <= i < |b| && b[i]|
  }

  lemma XorCancel(a: seq<bool>, b: seq<bool>)
    requires |a| == |b|
    ensures XorBits(XorBits(a, b), b) == a
  {
  }

  lemma {:induction false} BitsToNatBound(b: seq<bool>)
    ensures BitsToNat(b) < Pow2(|b|)
  {
    if b != [] {
      BitsToNatBound(b[1..]);
    }
  }

  /** Concatenation puts `b` above the `|a|` bits of `a`. */
  lemma {:induction false} BitsToNatAppend(a: seq<bool>, b: seq<bool>)
    ensures BitsToNat(a + b) == BitsToNat(a) + Pow2(|a|) * BitsToNat(b)
  {
    if a != [] {
      var d := if a[0] then 1 else 0;
      assert (a + b)[0] == a[0] && (a + b)[1..] == a[1..] + b;
      assert BitsToNat(a + b) == d + 2 * BitsToNat(a[1..] + b);
      BitsToNatAppend(a[1..], b);
      var p, v := Pow2(|a| - 1), BitsToNat(b);
      assert Pow2(|a|) == 2 * p;
      assert 2 * (p * v) == (2 * p) * v by {
        MulAssoc(2, p, v);
      }
      assert BitsToNat(a) == d + 2 * BitsToNat(a[1..]);
    } else {
      assert a + b == b;
    }
  }

  lemma {:induction false} NatToBitsToNat(n: nat, w: nat)
    requires n < Pow2(w)
    ensures BitsToNat(NatToBits(n, w)) == n
  {
    if w > 0 {
      NatToBitsToNat(n / 2, w - 1);
    }
  }

  lemma {:induction false} BitsToNatToBits(b: seq<bool>)
    ensures NatToBits(BitsToNat(b), |b|) == b
  {
    if b != [] {
      BitsToNatToBits(b[1..]);
    }
  }

  /** Bit `j` of `NatToBits(n, w)` is the `2^j` digit of `n`. */
  lemma {:induction false} NatToBitsAt(n: nat, w: nat, j: nat)
    requires j < w
    ensures NatToBits(n, w)[j] == ((n / Pow2(j)) % 2 == 1)
  {
    if j > 0 {
      var p := Pow2(j - 1);
      assert NatToBits(n, w)[j] == NatToBits(n / 2, w - 1)[j - 1];
      NatToBitsAt(n / 2, w - 1, j - 1);
      DivDiv(n, 2, p);
      assert Pow2(j) == 2 * p;
    }
  }

  lemma DivDiv(n: nat, a: nat, b: nat)
    requires a > 0 && b > 0
    ensures n / a / b == n / (a * b)
  {
    var q, r := n / a / b, a * ((n / a) % b) + n % a;
    DivDivSplit(n, a, b);
    DivModUnique(r, a * b, q);
  }

  /** `n` in base `a * b`: the quotient is `n / a / b`. */
  lemma DivDivSplit(n: nat, a: nat, b: nat)
    requires a > 0 && b > 0
    ensures a * ((n / a) % b) + n % a < a * b
    ensures n == a * ((n / a) % b) + n % a + (a * b) * (n / a / b)
  {
    var m := n / a;
    var q, r1, r2 := m / b, n % a, m % b;
    assert n == a * m + r1;
    ScaleSplit(a, m, b, q, r2);
    DigitPairBound(a, b, r1, r2);
  }

  lemma ScaleSplit(a: nat, m: nat, b: nat, q: nat, r: nat)
    requires m == b * q + r
    ensures a * m == (a * b) * q + a * r
  {
    Distrib(a, b * q, r);
    MulAssoc(a, b, q);
  }

  lemma DigitPairBound(a: nat, b: nat, r1: nat, r2: nat)
    requires r1 < a && r2 < b
    ensures a * r2 + r1 < a * b
  {
    MulLeq(a, r2, b - 1);
    Distrib(a, b - 1, 1);
  }

  lemma Distrib(a: int, x: int, y: int)
    ensures a * (x + y) == a * x + a * y
  {
  }

  /** Halving `n >> e` gives `n >> (e + 1)`. */
  lemma HalfStep(n: nat, e: nat)
    ensures n / Pow2(e) / 2 == n / Pow2(e + 1)
  {
    DivDiv(n, Pow2(e), 2);
    assert Pow2(e + 1) == Pow2(e) * 2;
  }

  lemma MulAssoc(a: int, b: int, c: int)
    ensures a * (b * c) == (a * b) * c
  {
  }

  lemma MulLeq(a: nat, x: int, y: int)
    requires x <= y
    ensures a * x <= a * y
  {
    assert a * y == a * x + a * (y - x);
  }

  /** `(a + d * x) / d == x` and `(a + d * x) % d == a` when `0 <= a < d`. */
  lemma DivModUnique(a: nat, d: nat, x: nat)
    requires a < d
    ensures (a + d * x) / d == x && (a + d * x) % d == a
  {
    var n := a + d * x;
    var q, r := n / d, n % d;
    assert n == d * q + r && 0 <= r < d;
    assert d * x - d * q == d * (x - q);
    assert x - q < 1 by {
      if x - q >= 1 {
        MulLeq(d, 1, x - q);
      }
    }
    assert q - x < 1 by {
      if q - x >= 1 {
        MulLeq(d, 1, q - x);
      }
    }
  }

  lemma ModSmall(x: nat, d: nat)
    requires x < d
    ensures x % d == x
  {
    DivModUnique(x, d, 0);
  }

  /** A slice of a bit string is a shift followed by a mask of its value. */
  lemma SliceIsShiftAndMask(b: seq<bool>, lo: nat, hi: nat)
    requires lo <= hi <= |b|
    ensures BitsToNat(b[lo..hi]) == (BitsToNat(b) / Pow2(lo)) % Pow2(hi - lo)
  {
    var x, m, y := b[..lo], b[lo..hi], b[hi..];
    assert b == x + (m + y);
    var upper := SliceUpper(m, y);
    SliceLower(x, m + y, upper);
  }

  /** Dropping the low `|x|` bits of `x + t` leaves the value of `t`. */
  lemma SliceLower(x: seq<bool>, t: seq<bool>, v: nat)
    requires BitsToNat(t) == v
    ensures BitsToNat(x + t) / Pow2(|x|) == v
  {
    BitsToNatAppend(x, t);
    BitsToNatBound(x);
    DivModUnique(BitsToNat(x), Pow2(|x|), v);
  }

  /** Keeping the low `|m|` bits of `m + y` leaves the value of `m`. */
  lemma SliceUpper(m: seq<bool>, y: seq<bool>) returns (v: nat)
    ensures v == BitsToNat(m + y) && v % Pow2(|m|) == BitsToNat(m)
  {
    v := BitsToNat(m + y);
    BitsToNatAppend(m, y);
    BitsToNatBound(m);
    DivModUnique(BitsToNat(m), Pow2(|m|), BitsToNat(y));
  }
}
