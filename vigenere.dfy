/** Class `Vigenere`: a key of letters A..Z, encoding and decoding that shift
    each letter of the text by the next key letter (the key index advances
    only on letters, and case is kept), and two fitness scores for decoded
    Spanish text: the class's marker score and the free word count. */
module VigenereCipher {
  import opened Ascii
  import opened Bits
  import opened Results

  /** A normalised key: only the letters 'A'..'Z'. */
  predicate IsKey(k: String8)
  {
    forall i :: 0 <= i < |k| ==> IsUpper(k[i])
  }

  /** What `normalizeKey` returns: the letters of the raw key, in order,
      uppercased. */
  function NormalizedKey(raw: String8): (k: String8)
    ensures IsKey(k) && |k| <= |raw|
  {
    if raw == [] then []
    else
      var c := raw[|raw| - 1];
      NormalizedKey(raw[..|raw| - 1]) + (if IsAlpha(c) then [ToUpper(c)] else [])
  }

  /** A key that is already normalised is left as it is. */
  lemma {:induction false} NormalizedKeyOfKey(k: String8)
    requires IsKey(k)
    ensures NormalizedKey(k) == k
  {
    if k != [] {
      NormalizedKeyOfKey(k[..|k| - 1]);
      assert k == k[..|k| - 1] + [k[|k| - 1]];
    }
  }

  /** Normalising twice gives the same key. */
  lemma NormalizeIdempotent(raw: String8)
    ensures NormalizedKey(NormalizedKey(raw)) == NormalizedKey(raw)
  {
    NormalizedKeyOfKey(NormalizedKey(raw));
  }

  /** The normalised key is empty exactly when the raw key has no letter. */
  lemma {:induction false} NormalizedKeyEmpty(raw: String8)
    ensures NormalizedKey(raw) == [] <==> forall i :: 0 <= i < |raw| ==> !IsAlpha(raw[i])
  {
    if raw != [] {
      var init := raw[..|raw| - 1];
      NormalizedKeyEmpty(init);
      assert forall i :: 0 <= i < |init| ==> init[i] == raw[i];
    }
  }

  /** The key the constructor stores, or its `invalid_argument`. The check
      reads the parameter, which shadows the member, so it rejects only an
      empty raw key and accepts one without letters. */
  function KeyCheck(rawKey: String8): Result<String8>
  {
    if rawKey == [] then Failure("La clave no puede estar vacía o sin letras.")
    else Success(NormalizedKey(rawKey))
  }

  /** The check the error message describes: reject a key that is empty or
      has no letters. */
  function CorrectedKeyCheck(rawKey: String8): Result<String8>
  {
    var k := NormalizedKey(rawKey);
    if k == [] then Failure("La clave no puede estar vacía o sin letras.") else Success(k)
  }

  /** "123" is accepted and leaves the cipher with an empty key. */
  lemma KeyWithoutLettersAccepted()
    ensures KeyCheck("123") == Success([])
  {
    NormalizedKeyEmpty("123");
  }

  /** The corrected check rejects exactly the keys without a letter, and what
      it accepts is a non-empty normalised key, as encoding needs. */
  lemma CorrectedKeyCheckSound(rawKey: String8)
    ensures CorrectedKeyCheck(rawKey).Failure? <==> forall i :: 0 <= i < |rawKey| ==> !IsAlpha(rawKey[i])
    ensures CorrectedKeyCheck(rawKey).Success? ==>
      CorrectedKeyCheck(rawKey).value != [] && IsKey(CorrectedKeyCheck(rawKey).value)
  {
    NormalizedKeyEmpty(rawKey);
  }

  /** The two checks agree on every key that has a letter. */
  lemma CorrectedKeyCheckAgrees(rawKey: String8)
    requires exists i :: 0 <= i < |rawKey| && IsAlpha(rawKey[i])
    ensures CorrectedKeyCheck(rawKey) == KeyCheck(rawKey)
  {
    NormalizedKeyEmpty(rawKey);
  }

  // ---------------------------------------------------------------------------
  // Encoding

  /** The number of letters in `t`: the key index after reading `t`. */
  function LetterCount(t: String8): (n: nat)
    ensures n <= |t|
  {
    if t == [] then 0 else LetterCount(t[..|t| - 1]) + (if IsAlpha(t[|t| - 1]) then 1 else 0)
  }

  /** The shift of the key letter used for the letter after the first `i`.
      The source reads a key letter only after a letter of the text, and
      then a non-empty key; the empty key's 0 is never used by `encode` or
      `decode` (see `LetterNeedsKey`). */
  function KeyShift(key: String8, i: nat): (s: nat)
    requires IsKey(key)
    ensures s < 26
  {
    if key == [] then 0 else key[i % |key|] as int - 'A' as int
  }

  /** A text's letter count grows along its prefixes. */
  lemma {:induction false} LetterCountPrefix(t: String8, m: nat)
    requires m <= |t|
    ensures LetterCount(t[..m]) <= LetterCount(t)
    decreases |t|
  {
    if m < |t| {
      assert t[..|t| - 1][..m] == t[..m];
      LetterCountPrefix(t[..|t| - 1], m);
    } else {
      assert t[..m] == t;
    }
  }

  /** A letter at position `n` is preceded by fewer letters than the text
      holds, so a text without letters is the only one `encode` and `decode`
      read with no key letter. */
  lemma LetterNeedsKey(t: String8, n: nat)
    requires n < |t| && IsAlpha(t[n])
    ensures LetterCount(t[..n]) < LetterCount(t)
  {
    assert t[..n + 1][..n] == t[..n];
    LetterCountPrefix(t, n + 1);
  }

  function CaseBase(c: Char8): Char8
  {
    if IsLower(c) then 'a' else 'A'
  }

  function EncodeLetter(c: Char8, shift: nat): (r: Char8)
    requires IsAlpha(c) && shift < 26
    ensures IsUpper(r) <==> IsUpper(c)
    ensures IsLower(r) <==> IsLower(c)
  {
    var base := CaseBase(c);
    ((c as int - base as int + shift) % 26 + base as int) as char
  }

  function DecodeLetter(c: Char8, shift: nat): (r: Char8)
    requires IsAlpha(c) && shift < 26
    ensures IsUpper(r) <==> IsUpper(c)
    ensures IsLower(r) <==> IsLower(c)
  {
    var base := CaseBase(c);
    (((c as int - base as int) - shift + 26) % 26 + base as int) as char
  }

  /** Character j of `encode`'s result: a letter shifted by the key letter
      its letter count selects, any other character as it is. */
  function EncodedAt(key: String8, text: String8, j: nat): Char8
    requires IsKey(key) && j < |text|
  {
    if IsAlpha(text[j]) then EncodeLetter(text[j], KeyShift(key, LetterCount(text[..j]))) else text[j]
  }

  function DecodedAt(key: String8, text: String8, j: nat): Char8
    requires IsKey(key) && j < |text|
  {
    if IsAlpha(text[j]) then DecodeLetter(text[j], KeyShift(key, LetterCount(text[..j]))) else text[j]
  }

  /** What `encode` returns. */
  function Encoded(key: String8, text: String8): (r: String8)
    requires IsKey(key)
    ensures |r| == |text|
  {
    seq(|text|, j requires 0 <= j < |text| => EncodedAt(key, text, j))
  }

  /** What `decode` returns. */
  function Decoded(key: String8, text: String8): (r: String8)
    requires IsKey(key)
    ensures |r| == |text|
  {
    seq(|text|, j requires 0 <= j < |text| => DecodedAt(key, text, j))
  }

  /** Encoding keeps the length, leaves every non-letter where it was, and
      keeps the case of every letter; so does decoding. */
  lemma CipherShape(key: String8, text: String8, j: nat)
    requires IsKey(key) && key != [] && j < |text|
    ensures !IsAlpha(text[j]) ==> Encoded(key, text)[j] == text[j] && Decoded(key, text)[j] == text[j]
    ensures IsUpper(Encoded(key, text)[j]) <==> IsUpper(text[j])
    ensures IsLower(Encoded(key, text)[j]) <==> IsLower(text[j])
    ensures IsUpper(Decoded(key, text)[j]) <==> IsUpper(text[j])
    ensures IsLower(Decoded(key, text)[j]) <==> IsLower(text[j])
  {
  }

  /** A letter count of 0 means a text without letters, and only that. */
  lemma {:induction false} LetterCountZero(t: String8)
    ensures LetterCount(t) == 0 <==> forall j :: 0 <= j < |t| ==> !IsAlpha(t[j])
  {
    if t != [] {
      var init := t[..|t| - 1];
      LetterCountZero(init);
      assert forall j :: 0 <= j < |init| ==> init[j] == t[j];
    }
  }

  /** A text without letters comes back unchanged from `encode` and
      `decode`, under any key, the empty one included. */
  lemma NoLettersUnchanged(key: String8, text: String8)
    requires IsKey(key) && LetterCount(text) == 0
    ensures Encoded(key, text) == text && Decoded(key, text) == text
  {
    LetterCountZero(text);
  }

  /** Two texts with letters at the same places have the same letter count. */
  lemma {:induction false} LetterCountSame(a: String8, b: String8)
    requires |a| == |b|
    requires forall j :: 0 <= j < |a| ==> (IsAlpha(a[j]) <==> IsAlpha(b[j]))
    ensures LetterCount(a) == LetterCount(b)
  {
    if a != [] {
      LetterCountSame(a[..|a| - 1], b[..|b| - 1]);
    }
  }

  /** Undoing a shift of a letter offset, and redoing it, modulo 26. */
  lemma OffsetRoundTrip(a: int, s: int)
    requires 0 <= a < 26 && 0 <= s < 26
    ensures ((a + s) % 26 - s + 26) % 26 == a
    ensures ((a - s + 26) % 26 + s) % 26 == a
  {
    if a + s < 26 {
      assert (a + s) % 26 == a + s;
    } else {
      assert (a + s) % 26 == a + s - 26;
    }
    if a - s >= 0 {
      assert (a - s + 26) % 26 == a - s;
    } else {
      assert (a - s + 26) % 26 == a - s + 26;
    }
  }

  lemma LetterRoundTrip(c: Char8, shift: nat)
    requires IsAlpha(c) && shift < 26
    ensures DecodeLetter(EncodeLetter(c, shift), shift) == c
    ensures EncodeLetter(DecodeLetter(c, shift), shift) == c
  {
    OffsetRoundTrip(c as int - CaseBase(c) as int, shift);
  }

  /** `decode(encode(t)) == t` under any non-empty normalised key. */
  lemma DecodeEncode(key: String8, text: String8)
    requires IsKey(key) && key != []
    ensures Decoded(key, Encoded(key, text)) == text
  {
    var e := Encoded(key, text);
    forall j | 0 <= j < |text|
      ensures Decoded(key, e)[j] == text[j]
    {
      LetterCountSame(e[..j], text[..j]);
      if IsAlpha(text[j]) {
        LetterRoundTrip(text[j], KeyShift(key, LetterCount(text[..j])));
      }
    }
  }

  /** `encode(decode(t)) == t` under any non-empty normalised key. */
  lemma EncodeDecode(key: String8, text: String8)
    requires IsKey(key) && key != []
    ensures Encoded(key, Decoded(key, text)) == text
  {
    var d := Decoded(key, text);
    forall j | 0 <= j < |text|
      ensures Encoded(key, d)[j] == text[j]
    {
      LetterCountSame(d[..j], text[..j]);
      if IsAlpha(text[j]) {
        LetterRoundTrip(text[j], KeyShift(key, LetterCount(text[..j])));
      }
    }
  }

  // ---------------------------------------------------------------------------
  // The marker score

  /** The markers whose occurrences the static `fitness` rewards. */
  const Markers: seq<String8> :=
    [" DE ", " LA ", " EL ", " QUE ", " Y ", " A ", " EN ", " UN ", " PARA ", " CON "]
    + [" POR ", " COMO ", " SU ", " AL ", " DEL ", " LOS ", " SE ", " NO ", " MAS ", " O "]
    + [" SI ", " YA ", " TODO ", " ESTA ", " HAY ", " ESTO ", " SON ", " TIENE ", " HACE ", " SUS "]
    + [" VIDA ", " NOS ", " TE ", " LO ", " ME ", " ESTE ", " ESA ", " ESE ", " BIEN ", " MUY "]
    + [" PUEDE ", " TAMBIEN ", " AUN ", " MI ", " DOS ", " UNO ", " OTRO ", " NUEVO ", " SIN ", " ENTRE "]
    + [" SOBRE "]

  predicate MatchAt(text: String8, w: String8, q: nat)
  {
    q + |w| <= |text| && text[q..q + |w|] == w
  }

  /** `text.find(w, pos)`: the first place at or after `pos` where `w`
      occurs, or -1 for `npos`. */
  function Find(text: String8, w: String8, pos: nat): (p: int)
    requires w != []
    ensures p == -1 || (pos <= p && MatchAt(text, w, p))
    ensures forall q :: pos <= q && (p == -1 || q < p) ==> !MatchAt(text, w, q)
    decreases |text| - pos
  {
    if pos + |w| > |text| then -1
    else if MatchAt(text, w, pos) then pos
    else Find(text, w, pos + 1)
  }

  /** The occurrences of `w` counted left to right from `pos`, each search
      resuming after the end of the last occurrence. */
  function CountFrom(text: String8, w: String8, pos: nat): nat
    requires w != []
    decreases |text| - pos
  {
    if pos + |w| > |text| then 0
    else if MatchAt(text, w, pos) then 1 + CountFrom(text, w, pos + |w|)
    else CountFrom(text, w, pos + 1)
  }

  /** What the `find` loop for one marker counts: none when `find` fails,
      otherwise one plus those after the occurrence found. */
  lemma {:induction false} FindCounts(text: String8, w: String8, pos: nat)
    requires w != []
    ensures Find(text, w, pos) == -1 ==> CountFrom(text, w, pos) == 0
    ensures Find(text, w, pos) != -1 ==>
      CountFrom(text, w, pos) == 1 + CountFrom(text, w, Find(text, w, pos) + |w|)
    decreases |text| - pos
  {
    if pos + |w| <= |text| && !MatchAt(text, w, pos) {
      FindCounts(text, w, pos + 1);
    }
  }

  /** No occurrence is counted exactly when `w` does not occur from `pos`. */
  lemma {:induction false} CountFromZero(text: String8, w: String8, pos: nat)
    requires w != []
    ensures CountFrom(text, w, pos) == 0 <==> forall q :: pos <= q ==> !MatchAt(text, w, q)
    decreases |text| - pos
  {
    if pos + |w| <= |text| && !MatchAt(text, w, pos) {
      CountFromZero(text, w, pos + 1);
    }
  }

  /** The score of the first markers: each marker's length times its count. */
  function MarkerScore(text: String8, ms: seq<String8>): nat
    requires forall k :: 0 <= k < |ms| ==> ms[k] != []
  {
    if ms == [] then 0
    else
      var w := ms[|ms| - 1];
      MarkerScore(text, ms[..|ms| - 1]) + |w| * CountFrom(text, w, 0)
  }

  lemma MarkersNonEmpty()
    ensures forall k :: 0 <= k < |Markers| ==> |Markers[k]| >= 3
  {
  }

  /** What the static `fitness` returns. */
  function MarkerFitness(text: String8): nat
  {
    MarkersNonEmpty();
    MarkerScore(text, Markers)
  }

  /** A score of 0 means that no marker occurs, and only that. */
  lemma {:induction false} MarkerScoreZero(text: String8, ms: seq<String8>)
    requires forall k :: 0 <= k < |ms| ==> ms[k] != []
    ensures MarkerScore(text, ms) == 0 <==>
      forall k, q :: 0 <= k < |ms| ==> !MatchAt(text, ms[k], q)
  {
    if ms != [] {
      var init, w := ms[..|ms| - 1], ms[|ms| - 1];
      MarkerScoreZero(text, init);
      CountFromZero(text, w, 0);
      assert forall k :: 0 <= k < |init| ==> init[k] == ms[k];
      assert |w| * CountFrom(text, w, 0) == 0 <==> CountFrom(text, w, 0) == 0;
    }
  }

  lemma MarkerFitnessZero(text: String8)
    ensures MarkerFitness(text) == 0 <==>
      forall k, q :: 0 <= k < |Markers| ==> !MatchAt(text, Markers[k], q)
  {
    MarkersNonEmpty();
    MarkerScoreZero(text, Markers);
  }

  /** Text appended after `t` never removes an occurrence counted in `t`:
      the matches that lie inside `t` are the same in `t + u`. */
  lemma {:induction false} CountFromAppend(t: String8, u: String8, w: String8, pos: nat)
    requires w != []
    ensures CountFrom(t, w, pos) <= CountFrom(t + u, w, pos)
    decreases |t| - pos
  {
    if pos + |w| <= |t| {
      assert (t + u)[pos..pos + |w|] == t[pos..pos + |w|];
      if MatchAt(t, w, pos) {
        CountFromAppend(t, u, w, pos + |w|);
      } else {
        CountFromAppend(t, u, w, pos + 1);
      }
    }
  }

  /** The score of a list of markers can only grow when text is appended. */
  lemma {:induction false} MarkerScoreAppend(t: String8, u: String8, ms: seq<String8>)
    requires forall k :: 0 <= k < |ms| ==> ms[k] != []
    ensures MarkerScore(t, ms) <= MarkerScore(t + u, ms)
  {
    if ms != [] {
      var w := ms[|ms| - 1];
      MarkerScoreAppend(t, u, ms[..|ms| - 1]);
      CountFromAppend(t, u, w, 0);
      MulLeq(|w|, CountFrom(t, w, 0), CountFrom(t + u, w, 0));
    }
  }

  /** The static `fitness` is monotone under appending text. */
  lemma MarkerFitnessAppend(t: String8, u: String8)
    ensures MarkerFitness(t) <= MarkerFitness(t + u)
  {
    MarkersNonEmpty();
    MarkerScoreAppend(t, u, Markers);
  }

  // ---------------------------------------------------------------------------
  // The word count of the free `fitness`

  const KeyWords: seq<String8> := ["EL", "LA", "DE", "QUE", "Y", "EN", "UN", "SER", "ES", "CON"]

  /** How many entries of `ws` equal `w`. */
  function Occurrences(ws: seq<String8>, w: String8): nat
  {
    if ws == [] then 0 else Occurrences(ws[..|ws| - 1], w) + (if ws[|ws| - 1] == w then 1 else 0)
  }

  /** The state of the free `fitness` after reading a text: the score and
      the uppercased word being read. */
  datatype Scan = Scan(score: nat, word: String8)

  function WordScan(t: String8): Scan
  {
    if t == [] then Scan(0, [])
    else
      var s := WordScan(t[..|t| - 1]);
      var c := t[|t| - 1];
      if IsAlpha(c) then Scan(s.score, s.word + [ToUpper(c)])
      else if s.word != [] then Scan(s.score + Occurrences(KeyWords, s.word), [])
      else s
  }

  /** What the free `fitness` returns. */
  function WordFitness(t: String8): nat
  {
    WordScan(t).score
  }

  function UpperOf(w: String8): (u: String8)
    ensures |u| == |w|
  {
    seq(|w|, i requires 0 <= i < |w| => ToUpper(w[i]))
  }

  /** Letters after `t` only extend the word being read. */
  lemma {:induction false} ScanLetters(t: String8, letters: String8)
    requires forall i :: 0 <= i < |letters| ==> IsAlpha(letters[i])
    ensures WordScan(t + letters) == Scan(WordScan(t).score, WordScan(t).word + UpperOf(letters))
  {
    if letters != [] {
      var init := letters[..|letters| - 1];
      ScanLetters(t, init);
      assert (t + letters)[..|t + letters| - 1] == t + init;
      assert UpperOf(letters) == UpperOf(init) + [ToUpper(letters[|letters| - 1])];
    } else {
      assert t + letters == t;
    }
  }

  /** A word at the very end of the text, with nothing after it, is not
      counted. */
  lemma TrailingWordNotCounted(t: String8, letters: String8)
    requires forall i :: 0 <= i < |letters| ==> IsAlpha(letters[i])
    ensures WordFitness(t + letters) == WordFitness(t)
  {
    ScanLetters(t, letters);
  }

  /** Words each followed by a space: the text they make. */
  function Terminated(ws: seq<String8>): String8
  {
    if ws == [] then [] else Terminated(ws[..|ws| - 1]) + ws[|ws| - 1] + [' ']
  }

  /** The number of words of `ws` that, uppercased, are key words. */
  function KeyWordCount(ws: seq<String8>): nat
  {
    if ws == [] then 0 else KeyWordCount(ws[..|ws| - 1]) + Occurrences(KeyWords, UpperOf(ws[|ws| - 1]))
  }

  /** For words of letters each followed by a space, the free `fitness`
      counts the words that, uppercased, equal an entry of the list. */
  lemma {:induction false} WordFitnessCountsWords(ws: seq<String8>)
    requires forall k :: 0 <= k < |ws| ==> ws[k] != [] && forall i :: 0 <= i < |ws[k]| ==> IsAlpha(ws[k][i])
    ensures WordScan(Terminated(ws)) == Scan(KeyWordCount(ws), [])
  {
    if ws != [] {
      var init, w := ws[..|ws| - 1], ws[|ws| - 1];
      WordFitnessCountsWords(init);
      ScanLetters(Terminated(init), w);
      var t := Terminated(init) + w + [' '];
      assert t[..|t| - 1] == Terminated(init) + w;
      assert WordScan(Terminated(init) + w) == Scan(KeyWordCount(init), UpperOf(w));
      assert UpperOf(w) != [];
    }
  }

  // ---------------------------------------------------------------------------
  // The class

  class Vigenere {
    var key: String8

    /** The key is always normalised. */
    predicate Valid()
      reads this
    {
      IsKey(key)
    }

    /** The defaulted constructor: an empty key. */
    constructor Default()
      ensures Valid() && key == []
    {
      key := [];
    }

    /** The key constructor; the empty raw key, for which it throws, is the
        failure of `KeyCheck`. */
    constructor (rawKey: String8)
      requires KeyCheck(rawKey).Success?
      ensures Valid() && key == KeyCheck(rawKey).value
    {
      var k := NormalizeKey(rawKey);
      key := k;
    }

    static method NormalizeKey(rawKey: String8) returns (k: String8)
      ensures k == NormalizedKey(rawKey)
    {
      k := [];
      for n := 0 to |rawKey|
        invariant k == NormalizedKey(rawKey[..n])
      {
        var c := rawKey[n];
        assert rawKey[..n + 1][..n] == rawKey[..n];
        if IsAlpha(c) {
          k := k + [ToUpper(c)];
        }
      }
      assert rawKey[..|rawKey|] == rawKey;
    }

    method Encode(text: String8) returns (result: String8)
      requires Valid() && (key != [] || LetterCount(text) == 0)
      ensures result == Encoded(key, text)
    {
      result := [];
      var i := 0;
      for n := 0 to |text|
        invariant |result| == n && i == LetterCount(text[..n])
        invariant forall j :: 0 <= j < n ==> result[j] == EncodedAt(key, text, j)
      {
        var c := text[n];
        assert text[..n + 1][..n] == text[..n];
        if IsAlpha(c) {
          LetterNeedsKey(text, n);
          var base := if IsLower(c) then 'a' else 'A';
          var shift := key[i % |key|] as int - 'A' as int;
          assert base == CaseBase(c) && shift == KeyShift(key, i);
          var encodedChar := ((c as int - base as int + shift) % 26 + base as int) as char;
          assert encodedChar == EncodeLetter(c, shift);
          result := result + [encodedChar];
          i := i + 1;
        } else {
          result := result + [c];
        }
      }
    }

    method Decode(text: String8) returns (result: String8)
      requires Valid() && (key != [] || LetterCount(text) == 0)
      ensures result == Decoded(key, text)
    {
      result := [];
      var i := 0;
      for n := 0 to |text|
        invariant |result| == n && i == LetterCount(text[..n])
        invariant forall j :: 0 <= j < n ==> result[j] == DecodedAt(key, text, j)
      {
        var c := text[n];
        assert text[..n + 1][..n] == text[..n];
        if IsAlpha(c) {
          LetterNeedsKey(text, n);
          var base := if IsLower(c) then 'a' else 'A';
          var shift := key[i % |key|] as int - 'A' as int;
          assert base == CaseBase(c) && shift == KeyShift(key, i);
          var decodedChar := (((c as int - base as int) - shift + 26) % 26 + base as int) as char;
          assert decodedChar == DecodeLetter(c, shift);
          result := result + [decodedChar];
          i := i + 1;
        } else {
          result := result + [c];
        }
      }
    }

    /** The static `fitness`. */
    static method Fitness(text: String8) returns (score: nat)
      ensures score == MarkerFitness(text)
    {
      MarkersNonEmpty();
      score := ScoreMarkers(text, Markers);
    }

    /** The loop of `fitness` over a list of markers. */
    static method ScoreMarkers(text: String8, markers: seq<String8>) returns (score: nat)
      requires forall k :: 0 <= k < |markers| ==> markers[k] != []
      ensures score == MarkerScore(text, markers)
    {
      score := 0;
      for m := 0 to |markers|
        invariant score == MarkerScore(text, markers[..m])
      {
        var w := markers[m];
        var done := markers[..m + 1];
        assert done[..m] == markers[..m] && done[m] == w;
        assert MarkerScore(text, done) == MarkerScore(text, markers[..m]) + |w| * CountFrom(text, w, 0);
        var count := CountMarker(text, w);
        score := score + |w| * count;
      }
      assert markers[..|markers|] == markers;
    }

    /** The `find` loop of `fitness` for one marker: the occurrences found,
        each search resuming after the last occurrence. */
    static method CountMarker(text: String8, w: String8) returns (count: nat)
      requires w != []
      ensures count == CountFrom(text, w, 0)
    {
      count := 0;
      var pos := 0;
      while true
        invariant pos <= |text|
        invariant count + CountFrom(text, w, pos) == CountFrom(text, w, 0)
        decreases |text| - pos
      {
        var found := Find(text, w, pos);
        FindCounts(text, w, pos);
        if found == -1 {
          break;
        }
        pos := found;
        count := count + 1;
        pos := pos + |w|;
      }
    }
  }

  /** The free `fitness`. */
  method WordFitnessOf(decodedText: String8) returns (score: nat)
    ensures score == WordFitness(decodedText)
  {
    score := 0;
    var word: String8 := [];
    for n := 0 to |decodedText|
      invariant WordScan(decodedText[..n]) == Scan(score, word)
    {
      var c := decodedText[n];
      assert decodedText[..n + 1][..n] == decodedText[..n];
      if IsAlpha(c) {
        word := word + [ToUpper(c)];
      } else if word != [] {
        for k := 0 to |KeyWords|
          invariant score == WordScan(decodedText[..n]).score + Occurrences(KeyWords[..k], word)
        {
          assert KeyWords[..k + 1][..k] == KeyWords[..k];
          if word == KeyWords[k] {
            score := score + 1;
          }
        }
        assert KeyWords[..|KeyWords|] == KeyWords;
        word := [];
      }
    }
    assert decodedText[..|decodedText|] == decodedText;
  }
}
