/** Class `CesarEncryption`: a shift cipher over the uppercase letters, the
    lowercase letters and the digits, its decoder, the 26 trial decodings of
    the brute-force attack and the frequency-analysis key guess. The class
    has no state. C++ `%` truncates toward zero; `CRem` is that operator. */
module Caesar {
  import opened Ascii
  import opened Bits

  /** C++ `a % m` for m > 0: the remainder takes the sign of `a`. */
  function CRem(a: int, m: int): (r: int)
    requires m > 0
    ensures a >= 0 ==> r == a % m
    ensures -m < r < m
  {
    if a >= 0 then a % m else -((-a) % m)
  }

  /** One character of `encode`: letters move `shift` places round their
      26-letter alphabet, digits round the ten digits, the rest stays. */
  function Shift(c: Char8, shift: int): Char8
  {
    if IsUpper(c) then CharOf(CRem(c as int - 'A' as int + shift, 26) + 'A' as int)
    else if IsLower(c) then CharOf(CRem(c as int - 'a' as int + shift, 26) + 'a' as int)
    else if IsDigit(c) then CharOf(CRem(c as int - '0' as int + shift, 10) + '0' as int)
    else c
  }

  /** What `encode(text, shift)` returns. */
  function Shifted(text: String8, shift: int): (r: String8)
    ensures |r| == |text|
  {
    seq(|text|, i requires 0 <= i < |text| => Shift(text[i], shift))
  }

  /** The shift `decode(text, shift)` applies. */
  function DecodeShift(shift: int): int
  {
    26 - CRem(shift, 26)
  }

  method Encode(texto: String8, desplazamiento: int) returns (result: String8)
    ensures result == Shifted(texto, desplazamiento)
  {
    result := [];
    for i := 0 to |texto|
      invariant result == Shifted(texto, desplazamiento)[..i]
    {
      var c := texto[i];
      if 'A' <= c <= 'Z' {
        result := result + [CharOf(CRem(c as int - 'A' as int + desplazamiento, 26) + 'A' as int)];
      } else if 'a' <= c <= 'z' {
        result := result + [CharOf(CRem(c as int - 'a' as int + desplazamiento, 26) + 'a' as int)];
      } else if '0' <= c <= '9' {
        result := result + [CharOf(CRem(c as int - '0' as int + desplazamiento, 10) + '0' as int)];
      } else {
        result := result + [c];
      }
    }
  }

  method Decode(texto: String8, desplazamiento: int) returns (result: String8)
    ensures result == Shifted(texto, DecodeShift(desplazamiento))
  {
    result := Encode(texto, 26 - CRem(desplazamiento, 26));
  }

  /** The 26 trial decodings `bruteForceAttack` prints, trial `clave` being
      `encode(text, 26 - clave)`. */
  method BruteForceAttack(texto: String8) returns (intentos: seq<String8>)
    ensures |intentos| == 26
    ensures forall clave :: 0 <= clave < 26 ==> intentos[clave] == Shifted(texto, 26 - clave)
  {
    intentos := [];
    for clave := 0 to 26
      invariant |intentos| == clave
      invariant forall k :: 0 <= k < clave ==> intentos[k] == Shifted(texto, 26 - k)
    {
      var intento := Encode(texto, 26 - clave);
      intentos := intentos + [intento];
    }
  }

  // ---------------------------------------------------------------------------
  // Laws of the cipher

  /** Characters other than letters and digits pass through unchanged. */
  lemma OthersUnchanged(text: String8, shift: int, i: nat)
    requires i < |text| && !IsAlpha(text[i]) && !IsDigit(text[i])
    ensures Shifted(text, shift)[i] == text[i]
  {
  }

  /** For a shift of at least 0 every character keeps its class. */
  lemma ShiftKeepsClass(c: Char8, shift: int)
    requires shift >= 0
    ensures IsUpper(Shift(c, shift)) <==> IsUpper(c)
    ensures IsLower(Shift(c, shift)) <==> IsLower(c)
    ensures IsDigit(Shift(c, shift)) <==> IsDigit(c)
  {
  }

  /** A negative shift can take a letter out of the alphabet: 'A' shifted by
      -1 is '@', because the C++ remainder is then negative. */
  lemma NegativeShiftLeavesAlphabet()
    ensures Shift('A', -1) == '@' && !IsUpper(Shift('A', -1))
  {
    assert CRem(-1, 26) == -1;
  }

  /** Offset of letter c in its alphabet. */
  function LetterOffset(c: Char8): int
    requires IsAlpha(c)
  {
    if IsUpper(c) then c as int - 'A' as int else c as int - 'a' as int
  }

  /** A letter shifted by k >= 0 sits k places further on, modulo 26. */
  lemma ShiftLetter(c: Char8, shift: int)
    requires shift >= 0 && IsAlpha(c)
    ensures IsAlpha(Shift(c, shift)) && IsUpper(Shift(c, shift)) == IsUpper(c)
    ensures LetterOffset(Shift(c, shift)) == (LetterOffset(c) + shift) % 26
  {
  }

  /** Decoding undoes encoding on letters, for every shift of at least 0. */
  lemma DecodeRestoresLetters(text: String8, shift: int, i: nat)
    requires shift >= 0 && i < |text| && IsAlpha(text[i])
    ensures Shifted(Shifted(text, shift), DecodeShift(shift))[i] == text[i]
  {
    LetterRoundTrip(text[i], shift);
  }

  /** And encoding undoes decoding on letters. */
  lemma EncodeRestoresLetters(text: String8, shift: int, i: nat)
    requires shift >= 0 && i < |text| && IsAlpha(text[i])
    ensures Shifted(Shifted(text, DecodeShift(shift)), shift)[i] == text[i]
  {
    LetterRoundTrip(text[i], shift);
  }

  lemma LetterRoundTrip(c: Char8, shift: int)
    requires shift >= 0 && IsAlpha(c)
    ensures Shift(Shift(c, shift), DecodeShift(shift)) == c
    ensures Shift(Shift(c, DecodeShift(shift)), shift) == c
  {
    var back := DecodeShift(shift);
    ShiftLetter(c, shift);
    ShiftLetter(Shift(c, shift), back);
    ShiftLetter(c, back);
    ShiftLetter(Shift(c, back), shift);
    ModSum(LetterOffset(c), shift);
  }

  /** Adding k and then 26 - k % 26 moves an offset a whole number of turns. */
  lemma ModSum(x: int, k: int)
    requires 0 <= x < 26 && k >= 0
    ensures ((x + k) % 26 + 26 - k % 26) % 26 == x
    ensures ((x + 26 - k % 26) % 26 + k) % 26 == x
  {
    ModSumForward(x, k);
    ModSumBackward(x, k);
  }

  lemma ModSumForward(x: int, k: int)
    requires 0 <= x < 26 && k >= 0
    ensures ((x + k) % 26 + 26 - k % 26) % 26 == x
  {
    var r, q := k % 26, k / 26;
    assert k == r + 26 * q;
    var s := x + r;
    DivModUnique(s % 26, 26, q + s / 26);
    assert (x + k) % 26 == s % 26;
    if s < 26 {
      DivModUnique(x, 26, 1);
    } else {
      DivModUnique(s - 26, 26, 1);
      DivModUnique(x, 26, 0);
    }
  }

  lemma ModSumBackward(x: int, k: int)
    requires 0 <= x < 26 && k >= 0
    ensures ((x + 26 - k % 26) % 26 + k) % 26 == x
  {
    var r, q := k % 26, k / 26;
    assert k == r + 26 * q;
    if x >= r {
      DivModUnique(x - r, 26, 1);
      DivModUnique(x, 26, q);
    } else {
      DivModUnique(x + 26 - r, 26, 0);
      DivModUnique(x, 26, q + 1);
    }
  }

  /** A digit shifted by k >= 0 sits k places further on, modulo 10. */
  lemma ShiftDigit(c: Char8, shift: int)
    requires shift >= 0 && IsDigit(c)
    ensures IsDigit(Shift(c, shift))
    ensures Shift(c, shift) as int - '0' as int == (c as int - '0' as int + shift) % 10
  {
  }

  /** Shift 0 changes nothing. */
  lemma ShiftZero(text: String8)
    ensures Shifted(text, 0) == text
  {
    forall i | 0 <= i < |text|
      ensures Shifted(text, 0)[i] == text[i]
    {
      ShiftCharZero(text[i]);
    }
  }

  lemma ShiftCharZero(c: Char8)
    ensures Shift(c, 0) == c
  {
    if IsAlpha(c) {
      ShiftLetter(c, 0);
    } else if IsDigit(c) {
      ShiftDigit(c, 0);
    }
  }

  /** Shifts k and k + 26 agree on letters. */
  lemma LetterShiftPeriod(c: Char8, shift: int)
    requires shift >= 0 && IsAlpha(c)
    ensures Shift(c, shift + 26) == Shift(c, shift)
  {
    ShiftLetter(c, shift);
    ShiftLetter(c, shift + 26);
  }

  /** Trial `clave` of the brute-force attack is `decode(text, clave)`: the
      trial at the key used to encode restores every letter. */
  lemma TrialIsDecode(text: String8, clave: int)
    requires 0 <= clave < 26
    ensures Shifted(text, 26 - clave) == Shifted(text, DecodeShift(clave))
  {
  }

  // ---------------------------------------------------------------------------
  // The digits are not restored

  /** A digit encoded and decoded with a shift in 0..25 comes back six
      places further on: `decode` adds 26 - k % 26, not 10 - k % 10. */
  lemma DigitsNotRestored(text: String8, shift: int, i: nat)
    requires 0 <= shift < 26 && i < |text| && IsDigit(text[i])
    ensures Shifted(Shifted(text, shift), DecodeShift(shift))[i] as int - '0' as int
      == (text[i] as int - '0' as int + 6) % 10
  {
    var c := text[i];
    var back := DecodeShift(shift);
    assert back == 26 - shift;
    var d := Shift(c, shift);
    assert Shifted(text, shift)[i] == d;
    ShiftDigit(c, shift);
    ShiftDigit(d, back);
    assert Shifted(Shifted(text, shift), back)[i] == Shift(d, back);
    DigitDrift(c as int - '0' as int, shift);
  }

  lemma DigitDrift(x: int, shift: int)
    requires 0 <= x < 10 && 0 <= shift < 26
    ensures ((x + shift) % 10 + (26 - shift)) % 10 == (x + 6) % 10
  {
    var q := (x + shift) / 10;
    assert x + shift == 10 * q + (x + shift) % 10;
    assert (x + shift) % 10 + (26 - shift) == x + 6 + 10 * (2 - q);
  }

  /** The smallest instance: "0" encoded and decoded with shift 0 is "6". */
  lemma DigitZeroComesBackAsSix()
    ensures Shifted(Shifted("0", 0), DecodeShift(0)) == "6"
  {
    assert Shifted("0", 0)[0] == '0';
    assert Shifted(Shifted("0", 0), DecodeShift(0))[0] == '6';
  }

  /** A decoder that turns letters back by 26 - k % 26 and digits back by
      10 - k % 10. */
  function CorrectedShift(c: Char8, shift: int): Char8
  {
    if IsAlpha(c) then Shift(c, 26 - CRem(shift, 26))
    else if IsDigit(c) then Shift(c, 10 - CRem(shift, 10))
    else c
  }

  function CorrectedDecode(text: String8, shift: int): (r: String8)
    ensures |r| == |text|
  {
    seq(|text|, i requires 0 <= i < |text| => CorrectedShift(text[i], shift))
  }

  /** The corrected decoder inverts `encode` on every character. */
  lemma CorrectedRoundTrip(text: String8, shift: int)
    requires shift >= 0
    ensures CorrectedDecode(Shifted(text, shift), shift) == text
    ensures Shifted(CorrectedDecode(text, shift), shift) == text
  {
    forall i | 0 <= i < |text|
      ensures CorrectedDecode(Shifted(text, shift), shift)[i] == text[i]
      ensures Shifted(CorrectedDecode(text, shift), shift)[i] == text[i]
    {
      CorrectedCharRoundTrip(text[i], shift);
    }
  }

  lemma CorrectedCharRoundTrip(c: Char8, shift: int)
    requires shift >= 0
    ensures CorrectedShift(Shift(c, shift), shift) == c
    ensures Shift(CorrectedShift(c, shift), shift) == c
  {
    if IsAlpha(c) {
      CorrectedLetterRoundTrip(c, shift);
    } else if IsDigit(c) {
      CorrectedDigitRoundTrip(c, shift);
    }
  }

  lemma CorrectedLetterRoundTrip(c: Char8, shift: int)
    requires shift >= 0 && IsAlpha(c)
    ensures CorrectedShift(Shift(c, shift), shift) == c
    ensures Shift(CorrectedShift(c, shift), shift) == c
  {
    ShiftLetter(c, shift);
    assert CorrectedShift(Shift(c, shift), shift) == Shift(Shift(c, shift), DecodeShift(shift));
    assert CorrectedShift(c, shift) == Shift(c, DecodeShift(shift));
    LetterRoundTrip(c, shift);
  }

  lemma CorrectedDigitRoundTrip(c: Char8, shift: int)
    requires shift >= 0 && IsDigit(c)
    ensures CorrectedShift(Shift(c, shift), shift) == c
    ensures Shift(CorrectedShift(c, shift), shift) == c
  {
    var back := 10 - CRem(shift, 10);
    var d := c as int - '0' as int;
    DigitModSum(d, shift);
    var there := Shift(c, shift);
    ShiftDigit(c, shift);
    ShiftDigit(there, back);
    assert CorrectedShift(there, shift) == Shift(there, back);
    assert Shift(there, back) as int - '0' as int == d;
    var away := Shift(c, back);
    ShiftDigit(c, back);
    ShiftDigit(away, shift);
    assert CorrectedShift(c, shift) == away;
    assert Shift(away, shift) as int - '0' as int == d;
  }

  lemma DigitModSum(x: int, k: int)
    requires 0 <= x < 10 && k >= 0
    ensures ((x + k) % 10 + 10 - k % 10) % 10 == x
    ensures ((x + 10 - k % 10) % 10 + k) % 10 == x
  {
    var q := k / 10;
    assert k == 10 * q + k % 10;
  }

  // ---------------------------------------------------------------------------
  // Frequency analysis

  /** The letters of Spanish text from most to least common, as tried. */
  const ReferenceLetters: String8 := "eaosrnidlc"

  /** The common words a trial decoding is searched for. */
  const CommonWords: seq<String8> := ["el", "de", "la", "que", "en", "y", "los", "se"]

  /** Alphabet offset of a letter of either case; -1 for anything else. */
  function LetterIndex(c: Char8): int
  {
    if IsLower(c) then c as int - 'a' as int
    else if IsUpper(c) then c as int - 'A' as int
    else -1
  }

  /** Occurrences of letter `l`, in either case, in `t`. */
  function Count(t: String8, l: int): nat
  {
    if t == [] then 0
    else Count(t[..|t| - 1], l) + (if LetterIndex(t[|t| - 1]) == l then 1 else 0)
  }

  /** The most frequent of the first `n` letters, the lowest one on a tie. */
  function MostFrequentIn(t: String8, n: nat): (m: nat)
    requires 1 <= n <= 26
    ensures m < n
    ensures forall l :: 0 <= l < n ==> Count(t, l) <= Count(t, m)
    ensures forall l :: 0 <= l < m ==> Count(t, l) < Count(t, m)
  {
    if n == 1 then 0
    else
      var m := MostFrequentIn(t, n - 1);
      if Count(t, n - 1) > Count(t, m) then n - 1 else m
  }

  function MostFrequent(t: String8): (m: nat)
    ensures m < 26
  {
    MostFrequentIn(t, 26)
  }

  /** `w` occurs in `s` starting at `i`. */
  predicate OccursAt(s: String8, w: String8, i: int)
  {
    0 <= i && i + |w| <= |s| && s[i..i + |w|] == w
  }

  /** `s.find(w) != npos`. */
  predicate Contains(s: String8, w: String8)
  {
    exists i :: 0 <= i <= |s| - |w| && OccursAt(s, w, i)
  }

  /** How many entries of `words` occur in `s`, each counted once. */
  function Found(s: String8, words: seq<String8>): (n: nat)
    ensures n <= |words|
  {
    if words == [] then 0
    else Found(s, words[..|words| - 1]) + (if Contains(s, words[|words| - 1]) then 1 else 0)
  }

  /** The score of a key: the common words its trial decoding contains. */
  function Score(t: String8, clave: int): nat
  {
    Found(Shifted(t, 26 - clave), CommonWords)
  }

  /** The key that would turn reference letter `r` into letter `m`. */
  function KeyFor(m: int, r: Char8): int
  {
    (m - (r as int - 'a' as int) + 26) % 26
  }

  /** The key guess: for each reference letter in turn the key mapping it to
      the most frequent letter is scored, and the first key with the highest
      score is returned. */
  method EvaluatePossibleKey(texto: String8) returns (mejorClave: int)
    ensures 0 <= mejorClave < 26
    ensures var m := MostFrequent(texto);
      exists j :: 0 <= j < |ReferenceLetters| && mejorClave == KeyFor(m, ReferenceLetters[j])
        && (forall i :: 0 <= i < |ReferenceLetters| ==>
              Score(texto, KeyFor(m, ReferenceLetters[i])) <= Score(texto, mejorClave))
        && (forall i :: 0 <= i < j ==>
              Score(texto, KeyFor(m, ReferenceLetters[i])) < Score(texto, mejorClave))
  {
    var frecuencias := LetterFrequencies(texto);
    var letrasEsp := ReferenceLetters;
    var indiceMax := MostFrequentLetter(texto, frecuencias);

    mejorClave := 0;
    var mejorPuntaje := -1;
    ghost var best := 0;
    for r := 0 to |letrasEsp|
      invariant r == 0 ==> mejorPuntaje == -1 && mejorClave == 0
      invariant r > 0 ==> (best < r && mejorClave == KeyFor(indiceMax, letrasEsp[best])
        && mejorPuntaje == Score(texto, mejorClave)
        && (forall i :: 0 <= i < r ==> Score(texto, KeyFor(indiceMax, letrasEsp[i])) <= mejorPuntaje)
        && (forall i :: 0 <= i < best ==> Score(texto, KeyFor(indiceMax, letrasEsp[i])) < mejorPuntaje))
    {
      var letraRef := letrasEsp[r];
      var clave := (indiceMax - (letraRef as int - 'a' as int) + 26) % 26;
      assert clave == KeyFor(indiceMax, letrasEsp[r]);
      var descifrado := Encode(texto, 26 - clave);
      var puntaje := CommonWordsFound(descifrado);
      if puntaje > mejorPuntaje {
        mejorPuntaje := puntaje;
        mejorClave := clave;
        best := r;
      }
    }
  }

  /** The search for the most frequent letter in `evaluatePossibleKey`. */
  method MostFrequentLetter(texto: String8, frecuencias: array<int>) returns (indiceMax: nat)
    requires frecuencias.Length == 26
    requires forall l :: 0 <= l < 26 ==> frecuencias[l] == Count(texto, l)
    ensures indiceMax == MostFrequent(texto)
  {
    indiceMax := 0;
    for i := 1 to 26
      invariant indiceMax == MostFrequentIn(texto, i)
    {
      if frecuencias[i] > frecuencias[indiceMax] {
        indiceMax := i;
      }
    }
  }

  /** The counting loop of `evaluatePossibleKey`: `frecuencias[l]` counts
      letter l in either case. */
  method LetterFrequencies(texto: String8) returns (frecuencias: array<int>)
    ensures fresh(frecuencias) && frecuencias.Length == 26
    ensures forall l :: 0 <= l < 26 ==> frecuencias[l] == Count(texto, l)
  {
    frecuencias := new int[26](_ => 0);
    for i := 0 to |texto|
      invariant forall l :: 0 <= l < 26 ==> frecuencias[l] == Count(texto[..i], l)
    {
      var c := texto[i];
      if 'a' <= c <= 'z' {
        frecuencias[c as int - 'a' as int] := frecuencias[c as int - 'a' as int] + 1;
      } else if 'A' <= c <= 'Z' {
        frecuencias[c as int - 'A' as int] := frecuencias[c as int - 'A' as int] + 1;
      }
      assert texto[..i + 1][..i] == texto[..i];
    }
    assert texto[..|texto|] == texto;
  }

  /** The scoring loop of `evaluatePossibleKey`: one point per common word
      the trial decoding contains. */
  method CommonWordsFound(descifrado: String8) returns (puntaje: int)
    ensures puntaje == Found(descifrado, CommonWords)
  {
    var comunes := CommonWords;
    puntaje := 0;
    for w := 0 to |comunes|
      invariant puntaje == Found(descifrado, comunes[..w])
    {
      if Contains(descifrado, comunes[w]) {
        puntaje := puntaje + 1;
      }
      assert comunes[..w + 1][..w] == comunes[..w];
    }
    assert comunes[..|comunes|] == comunes;
  }
}
