/** Characters and bytes as the C++ sources see them: a `char` is an 8-bit code
    unit, read through its unsigned value 0..255, and the `<cctype>`
    classification is that of the "C" locale. */
module Ascii {

  /** A C++ `char`, by its unsigned value. */
  type Char8 = c: char | c as int < 256

  /** A `std::string`. */
  type String8 = seq<Char8>

  /** A `uint8_t` / `unsigned char`. */
  type Byte = x: int | 0 <= x < 256

  predicate IsUpper(c: char) { 'A' <= c <= 'Z' }

  predicate IsLower(c: char) { 'a' <= c <= 'z' }

  predicate IsAlpha(c: char) { IsUpper(c) || IsLower(c) }

  predicate IsDigit(c: char) { '0' <= c <= '9' }

  /** `isspace`: space, tab, newline, vertical tab, form feed, carriage return. */
  predicate IsSpace(c: char) { c == ' ' || '\t' <= c <= '\r' }

  /** `isprint`: the characters 0x20..0x7E. */
  predicate IsPrint(c: char) { ' ' <= c <= '~' }

  /** `ispunct`: printable, not a space, not a letter or digit. */
  predicate IsPunct(c: char) { IsPrint(c) && c != ' ' && !IsAlpha(c) && !IsDigit(c) }

  /** A cast of an `int` to `char` (`(char)` or `static_cast<char>`): its low
      eight bits. */
  function CharOf(v: int): Char8
  {
    (v % 256) as char
  }

  function ToUpper(c: Char8): (u: Char8)
    ensures IsLower(c) ==> IsUpper(u) && u as int == c as int - 32
    ensures !IsLower(c) ==> u == c
  {
    if IsLower(c) then (c as int - 32) as char else c
  }

  /** Length of the run of non-space characters that starts `s`. */
  function WordLength(s: String8): (n: nat)
    ensures n <= |s|
    ensures forall i :: 0 <= i < n ==> !IsSpace(s[i])
    ensures n < |s| ==> IsSpace(s[n])
  {
    if s == [] || IsSpace(s[0]) then 0 else 1 + WordLength(s[1..])
  }

  /** The words that successive `stream >> std::string` extractions read from
      `s`: leading white space is skipped, then a maximal run of non-space
      characters is one word. */
  function Tokens(s: String8): (ts: seq<String8>)
    ensures forall k :: 0 <= k < |ts| ==> ts[k] != [] && NoSpace(ts[k])
    decreases |s|
  {
    if s == [] then []
    else if IsSpace(s[0]) then Tokens(s[1..])
    else
      var n := WordLength(s);
      [s[..n]] + Tokens(s[n..])
  }

  predicate NoSpace(w: String8)
  {
    forall i :: 0 <= i < |w| ==> !IsSpace(w[i])
  }

  /** The words of `ws` with one `sep` between neighbours and none at the end. */
  function JoinWith(ws: seq<String8>, sep: Char8): String8
  {
    if ws == [] then []
    else if |ws| == 1 then ws[0]
    else ws[0] + [sep] + JoinWith(ws[1..], sep)
  }

  lemma {:induction false} WordLengthOfWord(w: String8, rest: String8)
    requires NoSpace(w)
    requires rest == [] || IsSpace(rest[0])
    ensures WordLength(w + rest) == |w|
  {
    if w != [] {
      assert (w + rest)[1..] == w[1..] + rest;
      WordLengthOfWord(w[1..], rest);
    } else {
      assert w + rest == rest;
    }
  }

  /** Extracting words from words joined by a space gives the words back. */
  lemma {:induction false} TokensOfJoin(ws: seq<String8>)
    requires forall k :: 0 <= k < |ws| ==> ws[k] != [] && NoSpace(ws[k])
    ensures Tokens(JoinWith(ws, ' ')) == ws
  {
    if |ws| == 1 {
      WordLengthOfWord(ws[0], []);
      assert ws[0] + [] == ws[0];
      assert ws[0][|ws[0]|..] == [];
    } else if |ws| > 1 {
      var w, rest := ws[0], [' '] + JoinWith(ws[1..], ' ');
      var s := JoinWith(ws, ' ');
      assert s == w + rest;
      WordLengthOfWord(w, rest);
      assert s[..|w|] == w;
      assert s[|w|..] == rest;
      assert rest[1..] == JoinWith(ws[1..], ' ');
      TokensOfJoin(ws[1..]);
      assert Tokens(rest) == Tokens(rest[1..]);
    }
  }

  /** Joining one more word adds a separator and the word. */
  lemma {:induction false} JoinSnoc(ws: seq<String8>, w: String8, sep: Char8)
    ensures JoinWith(ws + [w], sep) == if ws == [] then w else JoinWith(ws, sep) + [sep] + w
  {
    if |ws| == 1 {
      assert (ws + [w])[1..] == [w];
    } else if |ws| > 1 {
      assert (ws + [w])[1..] == ws[1..] + [w];
      JoinSnoc(ws[1..], w, sep);
    }
  }

  /** One `stream >> word` extraction from the unread text `s`: it skips white
      space and reads the next maximal run of non-space characters. It fails,
      `ok` false, when only white space is left. */
  method Extract(s: String8) returns (ok: bool, word: String8, rest: String8)
    ensures ok <==> Tokens(s) != []
    ensures ok ==> Tokens(s) == [word] + Tokens(rest) && |rest| < |s|
  {
    var i := 0;
    while i < |s| && IsSpace(s[i])
      invariant 0 <= i <= |s|
      invariant Tokens(s[i..]) == Tokens(s)
    {
      assert s[i..][1..] == s[i + 1..];
      i := i + 1;
    }
    var j := i;
    while j < |s| && !IsSpace(s[j])
      invariant i <= j <= |s|
      invariant forall k :: i <= k < j ==> !IsSpace(s[k])
    {
      j := j + 1;
    }
    ok := i < |s|;
    word := s[i..j];
    rest := s[j..];
    if ok {
      var n := WordLength(s[i..]);
      assert n == j - i;
      assert s[i..][n..] == rest;
      assert s[i..][..n] == word;
      assert Tokens(s[i..]) == [word] + Tokens(rest);
    } else {
      assert s[i..] == [];
    }
  }

  /** Words are read independently on both sides of a space. */
  lemma {:induction false} TokensAppend(a: String8, b: String8)
    ensures Tokens(a + [' '] + b) == Tokens(a) + Tokens(b)
    decreases |a|
  {
    var s := a + [' '] + b;
    if a == [] {
      assert s[1..] == b;
    } else if IsSpace(a[0]) {
      assert s[1..] == a[1..] + [' '] + b;
      TokensAppend(a[1..], b);
    } else {
      var n := WordLength(a);
      WordLengthOfWord(a[..n], a[n..] + [' '] + b);
      assert a[..n] + (a[n..] + [' '] + b) == s;
      assert s[..n] == a[..n];
      assert s[n..] == a[n..] + [' '] + b;
      TokensAppend(a[n..], b);
    }
  }
}
