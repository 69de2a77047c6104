/** The two exhaustive Vigenère key searches. Both try every key of length
    1, 2, ... up to a bound, each length in the order of a depth-first walk
    that sets key letter 0 first and tries 'A'..'Z' at every position; both
    decode the text with each key, score it, and keep a key only when its
    score beats the best so far. `Vigenere::breakEncode` scores with the
    marker `fitness` and starts below every score; the free
    `breakBruteForce` scores with the word count and starts at 0. */
module VigenereBreak {
  import opened Bits
  import opened Ascii
  import opened VigenereCipher

  // ---------------------------------------------------------------------------
  // Keys in the order the search tries them

  function Letter(n: nat): (c: Char8)
    requires n < 26
    ensures IsUpper(c)
  {
    ('A' as int + n) as char
  }

  function Pow26(r: nat): (p: nat)
    ensures p > 0
  {
    if r == 0 then 1 else 26 * Pow26(r - 1)
  }

  /** The keys the walk tries below a prefix `p` with `r` letters left. */
  function Completions(p: String8, r: nat): (cs: seq<String8>)
    ensures |cs| == Pow26(r)
    decreases r, 27
  {
    if r == 0 then [p] else Branches(p, r, 26)
  }

  /** The keys tried below `p` once letters 'A'..Letter(n - 1) have been put
      at position |p|. */
  function Branches(p: String8, r: nat, n: nat): (cs: seq<String8>)
    requires 1 <= r && n <= 26
    ensures |cs| == n * Pow26(r - 1)
    decreases r, n
  {
    if n == 0 then [] else Branches(p, r, n - 1) + Completions(p + [Letter(n - 1)], r - 1)
  }

  /** The keys `breakEncode` and `breakBruteForce` try, in order, for a
      bound `maxKeyLength`. */
  function Candidates(maxKeyLength: int): seq<String8>
    decreases maxKeyLength
  {
    if maxKeyLength < 1 then [] else Candidates(maxKeyLength - 1) + Completions([], maxKeyLength)
  }

  /** The r-letter base-26 numeral of i, 'A' standing for 0, most
      significant letter first. */
  function Spell(i: nat, r: nat): (s: String8)
    requires i < Pow26(r)
    ensures |s| == r && IsKey(s)
  {
    if r == 0 then []
    else
      QuotientBelow(i, Pow26(r - 1), 26);
      [Letter(i / Pow26(r - 1))] + Spell(i % Pow26(r - 1), r - 1)
  }

  /** The number a key spells in base 26. */
  function Rank(k: String8): (n: nat)
    requires IsKey(k)
    ensures n < Pow26(|k|)
  {
    if k == [] then 0
    else
      var d, rest := k[0] as int - 'A' as int, Rank(k[1..]);
      DigitStep(d, Pow26(|k| - 1), rest);
      d * Pow26(|k| - 1) + rest
  }

  /** A base-26 digit in front of a smaller numeral stays below the next
      power. */
  lemma DigitStep(d: nat, p: nat, rest: nat)
    requires d < 26 && rest < p
    ensures d * p + rest < 26 * p
  {
    MulLeq(p, d, 25);
  }

  lemma QuotientBelow(i: nat, p: nat, n: nat)
    requires p > 0 && i < n * p
    ensures i / p < n
  {
    var q := i / p;
    assert p * q <= i;
    if n <= q {
      MulLeq(p, n, q);
      assert false;
    }
  }

  /** Key i of the walk below `p` is `p` followed by the numeral of i. */
  lemma {:induction false} CompletionsAt(p: String8, r: nat, i: nat)
    requires i < Pow26(r)
    ensures Completions(p, r)[i] == p + Spell(i, r)
    decreases r, 27
  {
    if r > 0 {
      BranchesAt(p, r, 26, i);
    }
  }

  lemma {:induction false} BranchesAt(p: String8, r: nat, n: nat, i: nat)
    requires 1 <= r && n <= 26 && i < n * Pow26(r - 1)
    ensures i < Pow26(r) && Branches(p, r, n)[i] == p + Spell(i, r)
    decreases r, n
  {
    var size := Pow26(r - 1);
    MulLeq(size, n, 26);
    if n == 0 {
      assert false;
    }
    var m := n - 1;
    MulStep(m, size);
    var front := Branches(p, r, m);
    var last := Completions(p + [Letter(m)], r - 1);
    assert Branches(p, r, n) == front + last;
    if i < m * size {
      BranchesAt(p, r, m, i);
      assert Branches(p, r, n)[i] == front[i];
    } else {
      var j := i - m * size;
      CompletionsAt(p + [Letter(m)], r - 1, j);
      SpellSplit(m, j, r);
      assert Branches(p, r, n)[i] == last[j];
    }
  }

  lemma MulStep(m: nat, size: nat)
    ensures (m + 1) * size == m * size + size
  {
  }

  /** The numeral of m * 26^(r-1) + j is letter m followed by that of j. */
  lemma SpellSplit(m: nat, j: nat, r: nat)
    requires 1 <= r && m < 26 && j < Pow26(r - 1)
    ensures m * Pow26(r - 1) + j < Pow26(r)
    ensures Spell(m * Pow26(r - 1) + j, r) == [Letter(m)] + Spell(j, r - 1)
  {
    var size := Pow26(r - 1);
    MulLeq(size, m, 25);
    DivModUnique(j, size, m);
  }

  /** Every key of letters A..Z is tried: it is key `Rank(k)` of its length. */
  lemma {:induction false} SpellRank(k: String8)
    requires IsKey(k)
    ensures Spell(Rank(k), |k|) == k
  {
    if k != [] {
      SpellRank(k[1..]);
      var size := Pow26(|k| - 1);
      DivModUnique(Rank(k[1..]), size, k[0] as int - 'A' as int);
      assert k == [k[0]] + k[1..];
    }
  }

  lemma KeyIsTried(k: String8)
    requires IsKey(k)
    ensures Rank(k) < |Completions([], |k|)| && Completions([], |k|)[Rank(k)] == k
  {
    CompletionsAt([], |k|, Rank(k));
    SpellRank(k);
  }

  /** The keys of `Candidates(m)` are the keys of lengths 1..m, shortest
      first: those of length L start at index Pow26(1) + ... + Pow26(L - 1). */
  lemma {:induction false} CandidatesAt(m: int, k: String8)
    requires IsKey(k) && 1 <= |k| <= m
    ensures k in Candidates(m)
    decreases m
  {
    if |k| < m {
      CandidatesAt(m - 1, k);
    } else {
      KeyIsTried(k);
      assert Completions([], m)[Rank(k)] in Candidates(m);
    }
  }

  lemma {:induction false} CandidatesShape(m: int)
    ensures forall j :: 0 <= j < |Candidates(m)| ==>
      IsKey(Candidates(m)[j]) && 1 <= |Candidates(m)[j]| <= m
    ensures m >= 1 ==> |Candidates(m)| > 0
    decreases m
  {
    if m >= 1 {
      CandidatesShape(m - 1);
      var cs := Completions([], m);
      forall j | 0 <= j < |cs|
        ensures IsKey(cs[j]) && |cs[j]| == m
      {
        CompletionsAt([], m, j);
      }
    }
  }

  // ---------------------------------------------------------------------------
  // Keeping the best key

  /** Which of the two fitness functions a search uses. */
  datatype Rule = MarkerRule | WordRule

  function ScoreOf(rule: Rule, text: String8): nat
  {
    match rule
    case MarkerRule => MarkerFitness(text)
    case WordRule => WordFitness(text)
  }

  /** `bestScore`: minus infinity before any key, or a score. */
  datatype Level = NegInfinity | Points(n: nat)

  predicate Beats(s: nat, l: Level)
  {
    l.NegInfinity? || s > l.n
  }

  /** `bestScore`, `bestKey` and `bestText`. */
  datatype Best = Best(score: Level, key: String8, text: String8)

  /** The score of the text a key decodes. */
  function KeyScore(rule: Rule, text: String8, key: String8): nat
    requires IsKey(key) && key != []
  {
    ScoreOf(rule, Decoded(key, text))
  }

  /** One leaf of the walk: the best so far, after trying `key`. */
  function Select(rule: Rule, text: String8, b: Best, key: String8): Best
    requires IsKey(key) && key != []
  {
    var d := Decoded(key, text);
    var s := ScoreOf(rule, d);
    if Beats(s, b.score) then Best(Points(s), key, d) else b
  }

  predicate AllKeys(ks: seq<String8>)
  {
    forall j :: 0 <= j < |ks| ==> IsKey(ks[j]) && ks[j] != []
  }

  /** The best so far after trying the keys `ks` in order. */
  function Fold(rule: Rule, text: String8, b: Best, ks: seq<String8>): Best
    requires AllKeys(ks)
    decreases |ks|
  {
    if ks == [] then b else Fold(rule, text, Select(rule, text, b, ks[0]), ks[1..])
  }

  lemma {:induction false} FoldAppend(rule: Rule, text: String8, b: Best, xs: seq<String8>, ys: seq<String8>)
    requires AllKeys(xs) && AllKeys(ys)
    ensures AllKeys(xs + ys)
    ensures Fold(rule, text, b, xs + ys) == Fold(rule, text, Fold(rule, text, b, xs), ys)
    decreases |xs|
  {
    if xs != [] {
      FoldAppend(rule, text, Select(rule, text, b, xs[0]), xs[1..], ys);
      assert (xs + ys)[1..] == xs[1..] + ys;
    } else {
      assert xs + ys == ys;
    }
  }

  /** The best so far right after `key` was kept. */
  function Entry(rule: Rule, text: String8, key: String8): Best
    requires IsKey(key) && key != []
  {
    Best(Points(KeyScore(rule, text, key)), key, Decoded(key, text))
  }

  /** Key i has the greatest score of `ks`, and every key before it a
      smaller one. */
  predicate FirstMax(rule: Rule, text: String8, ks: seq<String8>, i: nat)
    requires AllKeys(ks) && i < |ks|
  {
    (forall j :: 0 <= j < i ==> KeyScore(rule, text, ks[j]) < KeyScore(rule, text, ks[i]))
    && (forall j :: 0 <= j < |ks| ==> KeyScore(rule, text, ks[j]) <= KeyScore(rule, text, ks[i]))
  }

  predicate NoneBeats(rule: Rule, text: String8, l: Level, ks: seq<String8>)
    requires AllKeys(ks)
  {
    forall j :: 0 <= j < |ks| ==> !Beats(KeyScore(rule, text, ks[j]), l)
  }

  /** What a search keeps: the start, when no key beats it; otherwise the
      first key whose score beats the start and is not beaten by any other
      key, with its decoded text. */
  lemma {:induction false} FoldSelects(rule: Rule, text: String8, b: Best, ks: seq<String8>)
    requires AllKeys(ks)
    ensures var r := Fold(rule, text, b, ks);
      (r == b && NoneBeats(rule, text, b.score, ks))
      || (exists i :: 0 <= i < |ks| && r == Entry(rule, text, ks[i])
            && Beats(KeyScore(rule, text, ks[i]), b.score) && FirstMax(rule, text, ks, i))
    decreases |ks|
  {
    if ks != [] {
      var k0, rest := ks[0], ks[1..];
      var b' := Select(rule, text, b, k0);
      FoldSelects(rule, text, b', rest);
      var r := Fold(rule, text, b', rest);
      var s0 := KeyScore(rule, text, k0);
      assert forall j :: 1 <= j < |ks| ==> ks[j] == rest[j - 1];
      if r == b' && NoneBeats(rule, text, b'.score, rest) {
        if Beats(s0, b.score) {
          FirstMaxHead(rule, text, ks);
          assert r == Entry(rule, text, ks[0]);
        } else {
          assert NoneBeats(rule, text, b.score, ks);
        }
      } else {
        var i :| 0 <= i < |rest| && r == Entry(rule, text, rest[i])
          && Beats(KeyScore(rule, text, rest[i]), b'.score) && FirstMax(rule, text, rest, i);
        FirstMaxShift(rule, text, ks, i);
        assert r == Entry(rule, text, ks[i + 1]);
      }
    }
  }

  lemma FirstMaxHead(rule: Rule, text: String8, ks: seq<String8>)
    requires AllKeys(ks) && ks != []
    requires forall j :: 0 <= j < |ks| - 1 ==> !Beats(KeyScore(rule, text, ks[1..][j]), Points(KeyScore(rule, text, ks[0])))
    ensures FirstMax(rule, text, ks, 0)
  {
    forall j | 1 <= j < |ks|
      ensures KeyScore(rule, text, ks[j]) <= KeyScore(rule, text, ks[0])
    {
      assert ks[j] == ks[1..][j - 1];
    }
  }

  lemma FirstMaxShift(rule: Rule, text: String8, ks: seq<String8>, i: nat)
    requires AllKeys(ks) && i + 1 < |ks|
    requires FirstMax(rule, text, ks[1..], i)
    requires KeyScore(rule, text, ks[0]) < KeyScore(rule, text, ks[i + 1])
    ensures FirstMax(rule, text, ks, i + 1)
  {
    forall j | 1 <= j < |ks|
      ensures KeyScore(rule, text, ks[j]) <= KeyScore(rule, text, ks[i + 1])
      ensures j < i + 1 ==> KeyScore(rule, text, ks[j]) < KeyScore(rule, text, ks[i + 1])
    {
      assert ks[j] == ks[1..][j - 1];
    }
  }

  // ---------------------------------------------------------------------------
  // The walk

  lemma {:induction false} CompletionsAreKeys(p: String8, r: nat)
    requires IsKey(p)
    ensures forall j :: 0 <= j < |Completions(p, r)| ==>
      IsKey(Completions(p, r)[j]) && |Completions(p, r)[j]| == |p| + r
  {
    forall j | 0 <= j < |Completions(p, r)|
      ensures IsKey(Completions(p, r)[j]) && |Completions(p, r)[j]| == |p| + r
    {
      CompletionsAt(p, r, j);
    }
  }

  /** The state `dfs` works on: the text, the fitness it uses, the shared
      `trailKey` and the best key so far. */
  class KeySearch {
    const rule: Rule
    const text: String8
    var trailKey: array<Char8>
    var best: Best

    constructor (rule: Rule, text: String8, start: Best)
      ensures this.rule == rule && this.text == text && best == start
      ensures fresh(trailKey) && trailKey.Length == 0
    {
      this.rule := rule;
      this.text := text;
      best := start;
      trailKey := new Char8[0];
    }

    /** The searches' outer loop: the walk for every length 1..top. */
    method SearchUpTo(top: nat)
      modifies this
      ensures AllKeys(Candidates(top))
      ensures best == Fold(rule, text, old(best), Candidates(top))
    {
      ghost var start := best;
      for len := 1 to top + 1
        invariant AllKeys(Candidates(len - 1))
        invariant best == Fold(rule, text, start, Candidates(len - 1))
      {
        WalkLength(len);
        FoldAppend(rule, text, start, Candidates(len - 1), Completions([], len));
        assert Candidates(len) == Candidates(len - 1) + Completions([], len);
      }
    }

    /** One round of the searches' outer loops: a fresh `trailKey` of `len`
        letters, walked from position 0. */
    method WalkLength(len: nat)
      requires 1 <= len
      modifies this
      ensures CompletionsAreKeysOf([], len)
      ensures best == Fold(rule, text, old(best), Completions([], len))
    {
      trailKey := new Char8[len](_ => 'A');
      assert trailKey[..0] == [];
      Dfs(0, len);
    }

    /** `dfs(pos, maxLen)`: every completion of the first `pos` letters of
        `trailKey`, in order, each scored and kept if it beats the best. */
    method Dfs(pos: nat, maxLen: nat)
      requires 1 <= maxLen && trailKey.Length == maxLen && pos <= maxLen
      requires IsKey(trailKey[..pos])
      modifies this`best, trailKey
      ensures trailKey[..pos] == old(trailKey[..pos])
      ensures CompletionsAreKeysOf(old(trailKey[..pos]), maxLen - pos)
      ensures best == Fold(rule, text, old(best), Completions(old(trailKey[..pos]), maxLen - pos))
      decreases maxLen - pos, 1
    {
      CompletionsAreKeys(trailKey[..pos], maxLen - pos);
      if pos == maxLen {
        assert trailKey[..] == trailKey[..pos];
        ghost var b := best;
        TryKey();
        assert Fold(rule, text, b, [trailKey[..]]) == Fold(rule, text, best, []);
        return;
      }
      ghost var p := trailKey[..pos];
      ghost var start := best;
      var n := 0;
      while n < 26
        invariant 0 <= n <= 26
        invariant trailKey[..pos] == p
        invariant CompletionsAreKeysOf(p, maxLen - pos)
        invariant AllKeys(Branches(p, maxLen - pos, n))
        invariant best == Fold(rule, text, start, Branches(p, maxLen - pos, n))
      {
        Branch(pos, maxLen, n);
        FoldAppend(rule, text, start, Branches(p, maxLen - pos, n), Completions(p + [Letter(n)], maxLen - pos - 1));
        n := n + 1;
      }
    }

    /** One pass of the loop in `dfs`: letter n goes to position `pos` and
        the walk continues below it. */
    method Branch(pos: nat, maxLen: nat, n: nat)
      requires trailKey.Length == maxLen && pos < maxLen && n < 26
      requires IsKey(trailKey[..pos])
      modifies this`best, trailKey
      ensures trailKey[..pos] == old(trailKey[..pos])
      ensures CompletionsAreKeysOf(old(trailKey[..pos]) + [Letter(n)], maxLen - pos - 1)
      ensures best == Fold(rule, text, old(best), Completions(old(trailKey[..pos]) + [Letter(n)], maxLen - pos - 1))
      decreases maxLen - pos, 0
    {
      ghost var p := trailKey[..pos];
      trailKey[pos] := ('A' as int + n) as char;
      assert trailKey[..pos + 1] == p + [Letter(n)];
      Dfs(pos + 1, maxLen);
      assert trailKey[..pos] == trailKey[..pos + 1][..pos];
    }

    /** The leaf of `dfs`: the full `trailKey` decodes the text, and the
        key is kept when its score beats the best so far. */
    method TryKey()
      requires trailKey.Length >= 1 && IsKey(trailKey[..])
      modifies this`best
      ensures best == Select(rule, text, old(best), trailKey[..])
    {
      var key := trailKey[..];
      NormalizedKeyOfKey(key);
      var v := new Vigenere(key);
      var decodedText := v.Decode(text);
      var score := Score(decodedText);
      if Beats(score, best.score) {
        best := Best(Points(score), key, decodedText);
      }
    }

    /** The fitness the search uses. */
    method Score(decodedText: String8) returns (score: nat)
      ensures score == ScoreOf(rule, decodedText)
    {
      if rule == MarkerRule {
        score := Vigenere.Fitness(decodedText);
      } else {
        score := WordFitnessOf(decodedText);
      }
    }
  }

  predicate CompletionsAreKeysOf(p: String8, r: nat)
  {
    AllKeys(Completions(p, r))
  }

  /** Every key the searches try is a non-empty key of capital letters. */
  lemma {:induction false} CandidatesAreKeys(m: int)
    ensures AllKeys(Candidates(m))
    decreases m
  {
    if m >= 1 {
      var xs, ys := Candidates(m - 1), Completions([], m);
      CandidatesAreKeys(m - 1);
      CompletionsAreKeys([], m);
      forall j | 0 <= j < |xs + ys|
        ensures IsKey((xs + ys)[j]) && (xs + ys)[j] != []
      {
        if j >= |xs| {
          assert (xs + ys)[j] == ys[j - |xs|];
        }
      }
    }
  }

  /** The walk for every length 1..maxKeyLength, from `start`. */
  method Search(rule: Rule, start: Best, text: String8, maxKeyLength: int) returns (best: Best)
    ensures AllKeys(Candidates(maxKeyLength))
    ensures best == Fold(rule, text, start, Candidates(maxKeyLength))
  {
    var search := new KeySearch(rule, text, start);
    var top := if maxKeyLength < 1 then 0 else maxKeyLength;
    search.SearchUpTo(top);
    assert Candidates(maxKeyLength) == Candidates(top);
    best := search.best;
  }

  /** `Vigenere::breakEncode`: the key kept by the marker search. */
  method BreakEncode(text: String8, maxKeyLength: int) returns (bestKey: String8)
    ensures AllKeys(Candidates(maxKeyLength))
    ensures bestKey == Fold(MarkerRule, text, Best(NegInfinity, [], []), Candidates(maxKeyLength)).key
  {
    var best := Search(MarkerRule, Best(NegInfinity, [], []), text, maxKeyLength);
    bestKey := best.key;
  }

  /** The free `breakBruteForce`: the key kept by the word-count search,
      which starts from score 0 and an empty key. Key lengths run up to 3
      when no bound is given. */
  method BreakBruteForce(text: String8, maxKeyLength: int := 3) returns (bestKey: String8)
    ensures AllKeys(Candidates(maxKeyLength))
    ensures bestKey == Fold(WordRule, text, Best(Points(0), [], []), Candidates(maxKeyLength)).key
  {
    var best := Search(WordRule, Best(Points(0), [], []), text, maxKeyLength);
    bestKey := best.key;
  }

  /** `breakEncode` returns "" for a bound below 1; otherwise the first key,
      in the search order, whose decoding has the greatest marker score. */
  lemma BreakEncodeResult(text: String8, maxKeyLength: int)
    ensures AllKeys(Candidates(maxKeyLength))
    ensures var cs := Candidates(maxKeyLength);
      var key := Fold(MarkerRule, text, Best(NegInfinity, [], []), cs).key;
      (maxKeyLength < 1 ==> key == [])
      && (maxKeyLength >= 1 ==> IsKey(key) && 1 <= |key| <= maxKeyLength)
      && (maxKeyLength >= 1 ==> exists i :: 0 <= i < |cs| && key == cs[i] && FirstMax(MarkerRule, text, cs, i))
  {
    CandidatesShape(maxKeyLength);
    var cs := Candidates(maxKeyLength);
    FoldSelects(MarkerRule, text, Best(NegInfinity, [], []), cs);
    if maxKeyLength >= 1 {
      assert Beats(KeyScore(MarkerRule, text, cs[0]), NegInfinity);
    } else {
      assert cs == [];
    }
  }

  /** `breakBruteForce` returns "" exactly when no key's decoding scores
      above 0; otherwise the first key, in the search order, with the
      greatest word count. */
  lemma BreakBruteForceResult(text: String8, maxKeyLength: int)
    ensures AllKeys(Candidates(maxKeyLength))
    ensures var cs := Candidates(maxKeyLength);
      var key := Fold(WordRule, text, Best(Points(0), [], []), cs).key;
      (key == [] <==> forall j :: 0 <= j < |cs| ==> KeyScore(WordRule, text, cs[j]) == 0)
      && (key != [] ==> IsKey(key) && 1 <= |key| <= maxKeyLength)
      && (key != [] ==> exists i :: 0 <= i < |cs| && key == cs[i] && FirstMax(WordRule, text, cs, i))
  {
    CandidatesShape(maxKeyLength);
    var cs := Candidates(maxKeyLength);
    FoldSelects(WordRule, text, Best(Points(0), [], []), cs);
  }
}
