# GoingSecure cipher toolkit, modelled in Dafny

GoingSecure is a didactic C++ toolkit of classical and toy ciphers. This
project models its deterministic core and proves what that code promises.

- **`DES`**: a simplified 16-round Feistel block cipher over `std::bitset<64>`.
  - Its key schedule takes bits `i..i+47` of the key as subkey `i`.
  - The initial and final permutations are the identity.
  - The expansion `E` and the permutation `P` use `32 - table[i]` bit indexing.
  - A single S-box serves all eight 6-bit groups.
- **`Vigenere`**: key normalisation and case-preserving encode/decode. It also has
  - the marker-word `fitness` score;
  - the exhaustive depth-first key search `breakEncode`;
  - the free-function breaker `breakBruteForce`, which uses globals and its own word-count `fitness`.
- **`CesarEncryption`**: a shift cipher over letters and digits, its decoder, the 26 trial decodings of `bruteForceAttack`, and the frequency-analysis guess `evaluatePossibleKey`.
- **`XOREncoder`**: repeating-key XOR, the readable-text test and the whitespace-separated hex reader `HexToBytes`. The three attacks are modelled by the keys they report, in order.
- **`AsciiBinary`**: characters as eight `'0'`/`'1'` digits and text as such groups separated by spaces, in both directions.
- **`stringToBitset` / `bitsetToString`** (`source/utils.cpp`): packing up to eight characters into the cipher's 64-bit block and back.
- **`CryptoGenerator`**:
  - hex encode and decode;
  - Base64 encoding per section 4 of RFC 4648;
  - the password policy check and `secureWipe`;
  - the argument checks and output shapes of the random generators.

How the model represents the C++ types:

- A C++ `char` is modelled by its unsigned value, as `Char8` (a `char` below 256).
- A `std::string` is a `String8 = seq<Char8>`, and a byte is a `Byte` in 0..255.
- `<cctype>` classification is that of the "C" locale.
- A `std::bitset<N>` is a `seq<bool>` of length N, bit `i` at index `i` (module `Bits`).
- Each class whose methods work in loops is a Dafny `class` or a module of methods with `for`/`while` loops. Each method is proved equal to a specification function, and the laws are lemmas about those functions.
- Errors the source throws are `Result` failures.

Where a doc comment and the code disagree, the model follows the code:

- `CesarEncryption::decode` does not invert `encode` on digits (see Findings).
- `validatePassword` also requires a punctuation character, which its comment at `CryptoGenerator.h:251` omits.
- `DES` has no `decode`. The model adds `Des.Decrypt`, the inverse that the comment at `DES.h:147-148` describes.

Modules:

| module | file | source |
|---|---|---|
| `Ascii` | `ascii.dfy` | character classes, `stream >> word` extraction |
| `Results` | `result.dfy` | success or error |
| `Bits` | `bits.dfy` | bit strings and their values |
| `Hex` | `hex.dfy` | `std::hex` writing and reading |
| `Des` | `des.dfy` | `DES.h` |
| `Utils` | `utils.dfy` | `utils.cpp` |
| `AsciiBinary` | `asciibinary.dfy` | `AsciiBinary.h` |
| `XorEncoder` | `xor.dfy` | `XOREncoder.h` |
| `Caesar` | `caesar.dfy` | `CesarEncryption.h` |
| `VigenereCipher` | `vigenere.dfy` | `Vigenere.h`, class and free `fitness` |
| `VigenereBreak` | `vigenere_break.dfy` | `Vigenere.h`, `breakEncode`, `dfs`, `breakBruteForce` |
| `CryptoGen` | `cryptogen.dfy` | `CryptoGenerator.h` |

## Model

| member | source | states |
|---|---|---|
| Des.TablesInRange | GoingSecure/include/DES.h:171-196 | every `E` and `P` entry is in 1..32, so `32 - table[i]` is a bit index 0..31; the S-box is 4 rows of 16 values in 0..15 |
| Des.PTableIsPermutation | GoingSecure/include/DES.h:183-188 | `P` is a permutation of 1..32: an inverse table undoes it on both sides |
| Des.SBoxRowsArePermutations | GoingSecure/include/DES.h:191-196 | each S-box row is a permutation of 0..15 |
| Des.DES.Default | GoingSecure/include/DES.h:26 | the default constructor leaves an all-zero key and no subkeys |
| Des.DES.constructor | GoingSecure/include/DES.h:32-34 | the key constructor stores the key and exactly the 16 subkeys of its schedule |
| Des.DES.GenerateSubkeys | GoingSecure/include/DES.h:49-54 | appends the 16 subkeys of the key after those already present (a second call appends again) |
| Des.ScheduleIsShiftAndMask | GoingSecure/include/DES.h:51 | the value of subkey `i` is `(key >> i) & 0xFFFFFFFFFFFF` |
| Des.DES.IPermutation | GoingSecure/include/DES.h:61-67 | the initial permutation returns its input |
| Des.DES.Expand | GoingSecure/include/DES.h:74-80 | output bit `i` is input bit `32 - E[i]`, for all 48 bits |
| Des.ExpansionInjective | GoingSecure/include/DES.h:74-80 | the expansion keeps every input bit: equal expansions come from equal halves |
| Des.DES.Substitute | GoingSecure/include/DES.h:87-99 | the output is the substitution of every 6-bit group through the S-box |
| Des.SubstitutionNibble | GoingSecure/include/DES.h:89-97 | output bits `4g..4g+3`, most significant first, hold `SBOX[row][col]`; `row` is bits `6g` and `6g+5`, `col` is bits `6g+1..6g+4` |
| Des.SBoxIndicesInRange | GoingSecure/include/DES.h:93 | `% 4` and `% 16` never change the row and column |
| Des.DES.WriteNibble | GoingSecure/include/DES.h:94-97 | the inner loop writes output bits `4i..4i+3` with the S-box value's bits, most significant first, and leaves the earlier bits unchanged |
| Des.DES.PermuteP | GoingSecure/include/DES.h:106-112 | output bit `i` is input bit `32 - P[i]`, for all 32 bits |
| Des.PPermutationBijective | GoingSecure/include/DES.h:106-112 | `permuteP` has an inverse on both sides, so it is a bijection on 32-bit values |
| Des.PPermutationPreservesCount | GoingSecure/include/DES.h:106-112 | `permuteP` keeps the number of set bits |
| Des.DES.Feistel | GoingSecure/include/DES.h:120-127 | the round function is expand, XOR with the subkey, substitute, permute |
| Des.DES.FPermutation | GoingSecure/include/DES.h:134-140 | the final permutation returns its input |
| Des.DES.Encode | GoingSecure/include/DES.h:150-164 | 16 rounds of `(L, R) -> (R, L ^ f(R, k))` under the first 16 subkeys, with left = high half and right = low half; the result joins right above left |
| Des.HalvesAreShifts | GoingSecure/include/DES.h:152-153 | the halves are `data >> 32` and the low 32 bits of `data` |
| Des.JoinIsShiftOr | GoingSecure/include/DES.h:161-162 | the joined block is `right << 32` OR `left`: right in the high half, left in the low half |
| Des.RoundsReverse | GoingSecure/include/DES.h:147-148 | replaying the rounds with the subkeys in reverse order, on the swapped halves, undoes them |
| Des.DecryptEncrypt | GoingSecure/include/DES.h:147-148 | decryption (the same network, subkeys reversed) recovers every plaintext, under any subkeys |
| Des.EncryptDecrypt | GoingSecure/include/DES.h:147-148 | encryption also undoes decryption |
| Des.EncryptInjective | GoingSecure/include/DES.h:150-164 | for fixed subkeys, distinct plaintexts give distinct ciphertexts |
| Utils.StringToBitset | GoingSecure/source/utils.cpp:4-13 | the result is the block of the first eight characters, character `i` in bits `8i..8i+7` |
| Utils.ToBlockAt | GoingSecure/source/utils.cpp:6-10 | block bit `8i+j` is bit `j` of character `i`, and false where the string has no character `i` |
| Utils.ToBlockGroup | GoingSecure/source/utils.cpp:4-13 | byte `i` of the block is character `i`'s value, or zero past the end of the string |
| Utils.BitsetToString | GoingSecure/source/utils.cpp:15-25 | returns exactly eight characters, character `i` built from block bits `8i..8i+7` |
| Utils.BlockRoundTrip | GoingSecure/source/utils.cpp:4-25 | `stringToBitset(bitsetToString(b)) == b` for every block |
| Utils.StringRoundTrip | GoingSecure/source/utils.cpp:4-25 | `bitsetToString(stringToBitset(s))` is `s` cut to eight characters or padded with `'\0'` |
| Utils.EightCharsRoundTrip | GoingSecure/source/utils.cpp:4-25 | an eight-character string survives the round trip unchanged |
| AsciiBinary.Bitset | GoingSecure/include/AsciiBinary.h:40-48 | eight `'0'`/`'1'` characters giving the unsigned value of `c`, most significant bit first |
| AsciiBinary.BinaryAt | GoingSecure/include/AsciiBinary.h:43-46 | digit `i` of the `w`-digit form is bit `w-1-i` of the value |
| AsciiBinary.StringToBinary | GoingSecure/include/AsciiBinary.h:61-73 | the groups of the characters joined by single spaces, with no trailing space |
| AsciiBinary.BinaryTextLength | GoingSecure/include/AsciiBinary.h:61-73 | the output has length `9n - 1` for `n > 0` characters and is empty for empty input |
| AsciiBinary.BinaryToChar | GoingSecure/include/AsciiBinary.h:86-93 | the low eight bits of the number the digits accumulate (digits are not validated) |
| AsciiBinary.BinaryToString | GoingSecure/include/AsciiBinary.h:107-117 | one character per whitespace-separated word, each word converted on its own |
| AsciiBinary.CharRoundTrip | GoingSecure/include/AsciiBinary.h:40-48 | `binaryToChar(bitset(c)) == c` for every character |
| AsciiBinary.BitsRoundTrip | GoingSecure/include/AsciiBinary.h:86-93 | `bitset(binaryToChar(b)) == b` for every eight-digit `'0'`/`'1'` string |
| AsciiBinary.BinaryValueOfBinary | GoingSecure/include/AsciiBinary.h:86-93 | the digits of a value below `2^w` accumulate back to that value |
| AsciiBinary.BinaryOfBinaryValue | GoingSecure/include/AsciiBinary.h:86-93 | a `'0'`/`'1'` string is the form of the value it accumulates |
| AsciiBinary.TextRoundTrip | GoingSecure/include/AsciiBinary.h:61-117 | `binaryToString(stringToBinary(s)) == s` for every string |
| AsciiBinary.TextOfBinaryAppend | GoingSecure/include/AsciiBinary.h:107-117 | text joined by a space decodes to the concatenation of what its parts decode to |
| Ascii.Extract | GoingSecure/include/AsciiBinary.h:112 | one `stream >> word` extraction: it fails exactly when only white space is left, otherwise it yields the next word and the unread rest |
| Ascii.TokensOfJoin | GoingSecure/include/AsciiBinary.h:112 | extracting words from words joined by single spaces gives the words back |
| Hex.PairValue | GoingSecure/include/CryptoGenerator.h:104 | two hex digits read with `std::hex` are `16 * first + second` |
| Hex.ReadHex2 | GoingSecure/include/CryptoGenerator.h:90 | a byte written as two hex digits is read back as the byte |
| XorEncoder.Encode | GoingSecure/include/XOREncoder.h:43-49 | the output has the input's length, and byte `i` is `input[i] ^ key[i % key.size()]`; the key must be non-empty only when there is input, and empty input comes back empty under any key |
| XorEncoder.EncodeInvolution | GoingSecure/include/XOREncoder.h:43-49 | encoding twice with the same non-empty key gives the input back |
| XorEncoder.KnownPlaintextRevealsKey | GoingSecure/include/XOREncoder.h:46 | a plaintext byte XOR its ciphertext byte is the key byte used |
| XorEncoder.ValidCharacters | GoingSecure/include/XOREncoder.h:105-109 | a character is readable exactly when it is 9..13 or 32..126 |
| XorEncoder.ValidTextAppend | GoingSecure/include/XOREncoder.h:105-109 | text is readable exactly when both parts are (so empty text is readable) |
| XorEncoder.HexToBytes | GoingSecure/include/XOREncoder.h:60-77 | one byte per whitespace-separated word: the word's hex value, one-digit words zero-padded, truncated to eight bits |
| XorEncoder.PaddingKeepsValue | GoingSecure/include/XOREncoder.h:66-68 | padding a one-character word with `'0'` does not change the value read |
| XorEncoder.HexRoundTrip | GoingSecure/include/XOREncoder.h:60-94 | `HexToBytes` reads back exactly the bytes `printHex` writes |
| XorEncoder.DecodeWith | GoingSecure/include/XOREncoder.h:192-195 | the decoding loop of an attack is repeating-key XOR of the ciphertext |
| XorEncoder.BruteForce1Byte | GoingSecure/include/XOREncoder.h:122-137 | reports exactly the keys 0..255, ascending, whose decoding is readable, each with its text |
| XorEncoder.BruteForce2Byte | GoingSecure/include/XOREncoder.h:147-171 | reports exactly the pairs `(b1, b2)`, `b2` fastest, whose decoding (`b1` on even bytes, `b2` on odd) is readable |
| XorEncoder.TrySecondBytes | GoingSecure/include/XOREncoder.h:149-169 | the inner loop appends the reports of the keys `(b1, 0) .. (b1, 255)` |
| XorEncoder.TwoByteKeyAt | GoingSecure/include/XOREncoder.h:148-154 | key `256 * b1 + b2` of the two-byte order is `(b1, b2)` |
| XorEncoder.BruteForceByDictionary | GoingSecure/include/XOREncoder.h:184-203 | reports exactly the 13 listed keys, in list order, whose decoding is readable |
| XorEncoder.TryKeys | GoingSecure/include/XOREncoder.h:190-202 | the dictionary loop reports the valid keys of any key list, in order |
| XorEncoder.ReportedExactly | GoingSecure/include/XOREncoder.h:129-135 | a key is reported if and only if it is tried and decodes to readable text; each report carries that text |
| XorEncoder.SingleByteReportsAscend | GoingSecure/include/XOREncoder.h:122-137 | the one-byte reports come in strictly ascending key order |
| XorEncoder.TwoByteReportsAscend | GoingSecure/include/XOREncoder.h:147-171 | the two-byte reports come in strictly ascending `(b1, b2)` order |
| Caesar.CRem | GoingSecure/include/CesarEncryption.h:46 | C++ `%`: the usual remainder for a non-negative dividend, and strictly between `-m` and `m` |
| Caesar.Encode | GoingSecure/include/CesarEncryption.h:41-60 | letters move `shift` places within their alphabet, digits within the ten digits, anything else is copied |
| Caesar.Decode | GoingSecure/include/CesarEncryption.h:71-73 | decoding is encoding with shift `26 - shift % 26` |
| Caesar.BruteForceAttack | GoingSecure/include/CesarEncryption.h:85-91 | the 26 trials are `encode(text, 26 - clave)` for `clave` 0..25, in that order |
| Caesar.OthersUnchanged | GoingSecure/include/CesarEncryption.h:54-56 | characters outside A-Z, a-z and 0-9 are unchanged |
| Caesar.ShiftKeepsClass | GoingSecure/include/CesarEncryption.h:45-53 | for a shift of at least 0, uppercase stays uppercase, lowercase stays lowercase, digits stay digits |
| Caesar.NegativeShiftLeavesAlphabet | GoingSecure/include/CesarEncryption.h:46 | a negative shift can leave the alphabet: `'A'` shifted by -1 is `'@'` |
| Caesar.ShiftLetter | GoingSecure/include/CesarEncryption.h:46-49 | a letter shifted by `k >= 0` moves `k` places on, modulo 26 |
| Caesar.ShiftDigit | GoingSecure/include/CesarEncryption.h:52 | a digit shifted by `k >= 0` moves `k` places on, modulo 10 |
| Caesar.DecodeRestoresLetters | GoingSecure/include/CesarEncryption.h:46-49 | `decode(encode(t, k), k)` restores every letter, for `k >= 0` |
| Caesar.EncodeRestoresLetters | GoingSecure/include/CesarEncryption.h:71-73 | `encode(decode(t, k), k)` restores every letter, for `k >= 0` |
| Caesar.ShiftZero | GoingSecure/include/CesarEncryption.h:41-60 | shift 0 is the identity |
| Caesar.LetterShiftPeriod | GoingSecure/include/CesarEncryption.h:46-49 | shifts `k` and `k + 26` agree on letters |
| Caesar.TrialIsDecode | GoingSecure/include/CesarEncryption.h:88 | trial `clave` of the brute-force attack is `decode(text, clave)` |
| Caesar.DigitsNotRestored | GoingSecure/include/CesarEncryption.h:52 | after encode and decode with a shift in 0..25, digit `d` comes back as `(d + 6) mod 10` |
| Caesar.DigitZeroComesBackAsSix | GoingSecure/include/CesarEncryption.h:72 | `decode(encode("0", 0), 0) == "6"` |
| Caesar.CorrectedRoundTrip | GoingSecure/include/CesarEncryption.h:65 | a decoder that turns digits back modulo 10 inverts `encode` on every character, in both orders |
| Caesar.MostFrequentIn | GoingSecure/include/CesarEncryption.h:120-125 | the most frequent letter, the lowest index among equal counts |
| Caesar.LetterFrequencies | GoingSecure/include/CesarEncryption.h:106-115 | `frecuencias[l]` counts letter `l` in either case |
| Caesar.MostFrequentLetter | GoingSecure/include/CesarEncryption.h:120-125 | the loop finds that most frequent letter |
| Caesar.CommonWordsFound | GoingSecure/include/CesarEncryption.h:136-143 | one point per common word that occurs, each counted at most once |
| Caesar.EvaluatePossibleKey | GoingSecure/include/CesarEncryption.h:105-152 | the result is in 0..25; it is the key of some reference letter; no reference key scores more; every earlier one scores less (strict `>` keeps the first) |
| VigenereCipher.NormalizedKey | GoingSecure/include/Vigenere.h:15-24 | the normalised key has only `'A'..'Z'` and is no longer than the raw key |
| VigenereCipher.Vigenere.NormalizeKey | GoingSecure/include/Vigenere.h:15-24 | the loop keeps exactly the letters, in order, uppercased |
| VigenereCipher.NormalizedKeyOfKey | GoingSecure/include/Vigenere.h:15-24 | a key of `'A'..'Z'` is left as it is |
| VigenereCipher.NormalizeIdempotent | GoingSecure/include/Vigenere.h:15-24 | normalising twice gives the same key |
| VigenereCipher.NormalizedKeyEmpty | GoingSecure/include/Vigenere.h:15-24 | the normalised key is empty exactly when the raw key has no letter |
| VigenereCipher.Vigenere.Default | GoingSecure/include/Vigenere.h:7 | the default constructor leaves an empty key |
| VigenereCipher.Vigenere.constructor | GoingSecure/include/Vigenere.h:9-13 | the key constructor stores the normalised key when the raw key is not empty |
| VigenereCipher.KeyWithoutLettersAccepted | GoingSecure/include/Vigenere.h:9-13 | the raw key `"123"` is accepted and leaves an empty key |
| VigenereCipher.CorrectedKeyCheckSound | GoingSecure/include/Vigenere.h:11 | the intended check rejects exactly the keys without a letter, and what it accepts is a non-empty normalised key |
| VigenereCipher.CorrectedKeyCheckAgrees | GoingSecure/include/Vigenere.h:9-13 | the two checks agree on every key that has a letter |
| VigenereCipher.EncodeLetter | GoingSecure/include/Vigenere.h:33-39 | an encoded letter keeps its case |
| VigenereCipher.DecodeLetter | GoingSecure/include/Vigenere.h:58-64 | a decoded letter keeps its case |
| VigenereCipher.Vigenere.Encode | GoingSecure/include/Vigenere.h:26-49 | each letter shifts by the key letter its letter count selects (the index advances only on letters); other characters are copied; callable with an empty key when the text has no letter |
| VigenereCipher.Vigenere.Decode | GoingSecure/include/Vigenere.h:51-74 | each letter shifts back by the same key letter; other characters are copied; callable with an empty key when the text has no letter |
| VigenereCipher.LetterCountPrefix | GoingSecure/include/Vigenere.h:30-41 | the key index never decreases along the text |
| VigenereCipher.LetterNeedsKey | GoingSecure/include/Vigenere.h:31-36 | a key letter is read only at a letter, which leaves a letter still to come in the count, so a text without letters never reads the key |
| VigenereCipher.LetterCountZero | GoingSecure/include/Vigenere.h:30-41 | the key index stays 0 exactly when the text has no letter |
| VigenereCipher.NoLettersUnchanged | GoingSecure/include/Vigenere.h:42-44 | a text without letters comes back unchanged from `encode` and `decode`, under any key, the empty one included |
| VigenereCipher.CipherShape | GoingSecure/include/Vigenere.h:31-46 | encode and decode keep the length, leave every non-letter at its place, and keep every letter's case |
| VigenereCipher.LetterCountSame | GoingSecure/include/Vigenere.h:41 | texts with letters at the same places reach the same key index |
| VigenereCipher.DecodeEncode | GoingSecure/include/Vigenere.h:39 | `decode(encode(t)) == t` for every non-empty normalised key |
| VigenereCipher.EncodeDecode | GoingSecure/include/Vigenere.h:64 | `encode(decode(t)) == t` for every non-empty normalised key |
| VigenereCipher.Find | GoingSecure/include/Vigenere.h:94 | `find(w, pos)` is the first occurrence at or after `pos`, or `npos` when there is none |
| VigenereCipher.FindCounts | GoingSecure/include/Vigenere.h:94-97 | the count stops when `find` fails, otherwise it is one plus the count after that occurrence |
| VigenereCipher.CountFromZero | GoingSecure/include/Vigenere.h:94-97 | no occurrence is counted exactly when the marker does not occur |
| VigenereCipher.Vigenere.CountMarker | GoingSecure/include/Vigenere.h:93-97 | the `find` loop counts the non-overlapping occurrences, left to right |
| VigenereCipher.Vigenere.ScoreMarkers | GoingSecure/include/Vigenere.h:91-98 | the score is the sum of marker length times occurrence count |
| VigenereCipher.Vigenere.Fitness | GoingSecure/include/Vigenere.h:76-101 | the static `fitness` is that sum over its marker list |
| VigenereCipher.MarkerScoreZero | GoingSecure/include/Vigenere.h:91-99 | the score is 0 exactly when no marker of the list occurs |
| VigenereCipher.MarkerFitnessZero | GoingSecure/include/Vigenere.h:76-101 | `fitness` is 0 exactly when no marker occurs |
| VigenereCipher.CountFromAppend | GoingSecure/include/Vigenere.h:93-97 | appending text never lowers a marker's count: the occurrences inside the first text are still found |
| VigenereCipher.MarkerScoreAppend | GoingSecure/include/Vigenere.h:91-99 | appending text never lowers the score of a list of markers |
| VigenereCipher.MarkerFitnessAppend | GoingSecure/include/Vigenere.h:76-101 | `fitness(t) <= fitness(t + u)` for all texts |
| VigenereCipher.WordFitnessOf | GoingSecure/include/Vigenere.h:156-176 | the free `fitness` scans words of letters, uppercased, and counts list entries equal to each word ended by a non-letter |
| VigenereCipher.ScanLetters | GoingSecure/include/Vigenere.h:162-164 | letters only extend the word being read |
| VigenereCipher.TrailingWordNotCounted | GoingSecure/include/Vigenere.h:161-173 | a word at the very end of the text, with nothing after it, is never counted |
| VigenereCipher.WordFitnessCountsWords | GoingSecure/include/Vigenere.h:156-176 | for words each followed by a space, the score is the number of words that, uppercased, are list entries |
| VigenereBreak.CompletionsAt | GoingSecure/include/Vigenere.h:123-126 | key `i` tried below a prefix is the prefix followed by the base-26 numeral of `i` in `'A'..'Z'` |
| VigenereBreak.KeyIsTried | GoingSecure/include/Vigenere.h:123-126 | every key of capital letters is tried, at the index its base-26 value gives |
| VigenereBreak.SpellRank | GoingSecure/include/Vigenere.h:123-126 | a key is the numeral of its own base-26 value |
| VigenereBreak.CandidatesAt | GoingSecure/include/Vigenere.h:129-132 | every key of length 1..max is among the keys tried |
| VigenereBreak.CandidatesShape | GoingSecure/include/Vigenere.h:129-132 | every key tried is uppercase with length in 1..max, and some key is tried when max >= 1 |
| VigenereBreak.CandidatesAreKeys | GoingSecure/include/Vigenere.h:129-132 | every key tried is a non-empty key of capital letters |
| VigenereBreak.FoldSelects | GoingSecure/include/Vigenere.h:116-120 | keeping a key only on a strictly greater score yields the start, when no key beats it, or the first key of greatest score |
| VigenereBreak.KeySearch.constructor | GoingSecure/include/Vigenere.h:103-108 | a search starts with the given text and rule, an empty trail key and the given best result (no candidate below every score for `breakEncode`, the reset of :200-202 for `breakBruteForce`) |
| VigenereBreak.KeySearch.TryKey | GoingSecure/include/Vigenere.h:112-121 | the leaf decodes the text with the trail key and keeps it on a strictly greater score |
| VigenereBreak.KeySearch.Score | GoingSecure/include/Vigenere.h:115 | the score is the search's fitness of the decoded text |
| VigenereBreak.KeySearch.Branch | GoingSecure/include/Vigenere.h:123-126 | one pass of the letter loop: letter `n` at `pos`, then the walk below it |
| VigenereBreak.KeySearch.Dfs | GoingSecure/include/Vigenere.h:111-127 | `dfs` tries every completion of the trail key's prefix in order, keeps the prefix, and leaves the best as the fold over those keys |
| VigenereBreak.KeySearch.WalkLength | GoingSecure/include/Vigenere.h:130-131 | a fresh trail key of `L` letters, walked from position 0, tries every key of length `L` |
| VigenereBreak.KeySearch.SearchUpTo | GoingSecure/include/Vigenere.h:129-132 | the outer loop over lengths 1..max folds over all keys tried, shortest first |
| VigenereBreak.Search | GoingSecure/include/Vigenere.h:129-132 | the searches' result is the fold of the keep-if-better rule over every key tried |
| VigenereBreak.BreakEncode | GoingSecure/include/Vigenere.h:103-138 | `breakEncode` returns the key the marker search keeps, starting below every score |
| VigenereBreak.BreakEncodeResult | GoingSecure/include/Vigenere.h:103-138 | the result is `""` for max < 1; otherwise an uppercase key of length 1..max, the first in search order with the greatest marker score |
| VigenereBreak.BreakBruteForce | GoingSecure/include/Vigenere.h:199-213 | `breakBruteForce` returns the key the word-count search keeps, starting at score 0; the bound defaults to 3 |
| VigenereBreak.BreakBruteForceResult | GoingSecure/include/Vigenere.h:179-213 | the result is `""` exactly when no key scores above 0; otherwise an uppercase key of length 1..max, the first with the greatest word count |
| CryptoGen.ToHex | GoingSecure/include/CryptoGenerator.h:85-93 | each byte becomes two zero-padded lowercase hex digits, in order |
| CryptoGen.HexStringAt | GoingSecure/include/CryptoGenerator.h:89-91 | characters `2i` and `2i+1` of the text are the digits of byte `i` |
| CryptoGen.HexStringDigits | GoingSecure/include/CryptoGenerator.h:90 | `toHex` writes only lowercase hex digits |
| CryptoGen.FromHex | GoingSecure/include/CryptoGenerator.h:96-108 | an error for odd length, otherwise byte `i` is characters `2i` and `2i+1` read as hex and cut to eight bits |
| CryptoGen.FromHexOfToHex | GoingSecure/include/CryptoGenerator.h:85-108 | `fromHex(toHex(d)) == d` |
| CryptoGen.ToHexOfFromHex | GoingSecure/include/CryptoGenerator.h:85-108 | `toHex(fromHex(h)) == h` for every even-length text of lowercase hex digits |
| CryptoGen.PairRoundTrip | GoingSecure/include/CryptoGenerator.h:104 | two lowercase hex digits read as a byte are written back the same |
| CryptoGen.Base64TableIsAlphabet | GoingSecure/include/CryptoGenerator.h:161-164 | the table is the 64-character alphabet of section 4 of RFC 4648, value `v` at index `v` |
| CryptoGen.BlockChars | GoingSecure/include/CryptoGenerator.h:174-178 | the four 6-bit fields of the 24-bit block of `b0`, `b1`, `b2` (high to low), read from the table, are the group's four characters |
| CryptoGen.BlockSextets | GoingSecure/include/CryptoGenerator.h:174-178 | the four fields are `b0 >> 2`, then the low 2 bits of `b0` with the high 4 of `b1`, then the low 4 of `b1` with the high 2 of `b2`, then the low 6 of `b2` |
| CryptoGen.ToBase64 | GoingSecure/include/CryptoGenerator.h:159-199 | each full 3-byte group becomes 4 characters, then the tail per RFC 4648 |
| CryptoGen.EncodeTail | GoingSecure/include/CryptoGenerator.h:183-196 | a trailing byte becomes 2 characters and `"=="`, two trailing bytes 3 characters and `"="`, none nothing |
| CryptoGen.Base64Length | GoingSecure/include/CryptoGenerator.h:159-199 | the output has `4 * ceil(n / 3)` characters (so `""` for empty input) |
| CryptoGen.Base64Alphabet | GoingSecure/include/CryptoGenerator.h:159-199 | the output uses only the table's alphabet, with `'='` only in its last two places |
| CryptoGen.Base64RoundTrip | GoingSecure/include/CryptoGenerator.h:159-199 | the encoding loses nothing: an RFC 4648 decoder gives the bytes back |
| CryptoGen.SecureWipe | GoingSecure/include/CryptoGenerator.h:243-246 | every element becomes 0; the buffer keeps its length |
| CryptoGen.ValidatePassword | GoingSecure/include/CryptoGenerator.h:256-276 | true exactly when the length is at least 8 and there is an uppercase letter, a lowercase letter, a digit and a punctuation character |
| CryptoGen.PoolMembers | GoingSecure/include/CryptoGenerator.h:42-51 | the pool holds exactly the characters of the enabled classes |
| CryptoGen.PoolEmpty | GoingSecure/include/CryptoGenerator.h:47-56 | the pool is empty exactly when no class is enabled |
| CryptoGen.SymbolsArePunctuation | GoingSecure/include/CryptoGenerator.h:45 | every symbol of the pool is a punctuation character for `validatePassword` |
| CryptoGen.CryptoGenerator.constructor | GoingSecure/include/CryptoGenerator.h:18-21 | a fresh generator has drawn nothing |
| CryptoGen.CryptoGenerator.Draw | GoingSecure/include/CryptoGenerator.h:58-63 | one draw of `uniform_int_distribution(lo, hi)`: a value in `lo..hi`, counted as one more draw (however many engine steps it takes) |
| CryptoGen.CryptoGenerator.GeneratePassword | GoingSecure/include/CryptoGenerator.h:36-66 | an error, drawing nothing, exactly when no class is enabled; otherwise exactly `length` characters, each from the pool; the classes default to upper, lower and digits, without symbols |
| CryptoGen.DefaultPasswordRejected | GoingSecure/include/CryptoGenerator.h:38-41 | a password drawn from the default pool has no punctuation character, so `validatePassword` rejects it whatever its length |
| CryptoGen.CryptoGenerator.DrawFrom | GoingSecure/include/CryptoGenerator.h:58-64 | the loop draws `length` characters, each from the pool |
| CryptoGen.CryptoGenerator.GenerateBytes | GoingSecure/include/CryptoGenerator.h:74-82 | exactly `numBytes` bytes, one draw each |
| CryptoGen.CryptoGenerator.GenerateKey | GoingSecure/include/CryptoGenerator.h:117-123 | an error exactly when `bits % 8 != 0`, otherwise `bits / 8` bytes |
| CryptoGen.CryptoGenerator.GenerateIV | GoingSecure/include/CryptoGenerator.h:133-136 | exactly `blockSize` bytes |
| CryptoGen.CryptoGenerator.GenerateSalt | GoingSecure/include/CryptoGenerator.h:148-151 | exactly `length` bytes |

## Left out

- `source/main.cpp` is not part of this model: its console menu, directory listing and file reading and writing are I/O. It also calls a `DES::decode` that does not exist; `Des.Decrypt` stands in for it.
- `KeyGenerator.h` and `KeyGenerator.cpp` are not part of this model. They hold only random key generation and printing.
- `CryptoGenerator::fromBase64` is not modelled, for three reasons:
  - it decodes through `_decTable`, which is never filled, so its result is indeterminate;
  - its `reserve` argument underflows for short input;
  - it takes a mutex.

  `CryptoGen.Base64Decode` is a decoder written for the model, to state that the encoding loses nothing.
- The Mersenne Twister engine and its seeding are not modelled. A draw is any value in its range; `Draw` picks `lo` in its body, and callers learn only the range. The `draws` field counts distribution draws, not engine steps, since one draw of `uniform_int_distribution` may take several.
- CryptoGen.CryptoGenerator.GenerateBytes: the byte values are not stated, only their count, because they are random. The same holds for the characters of `GeneratePassword`, beyond their membership of the pool.
- All `std::cout` output is not modelled. This covers the attacks, `bruteForceAttack`, `breakEncode`, `breakBruteForce` and `printHex`. The attacks return what they would print, in order.
- The Vigenère scores are `double` in the source. They are sums of integers, so they are modelled as `nat`. The `-infinity` start of `breakEncode` is the `NegInfinity` level.
- The globals `bestKey`, `bestText`, `bestScore` and `trailKey` of the free breaker are fields of a `KeySearch` object, which is created afresh for each search.
- The search over `26^L` keys has exponential cost; that cost is not modelled, only the order of the keys and the tie-break.
- Integer widths are not modelled:
  - the `unsigned int` lengths of the generators and the `unsigned int` key index of the Vigenère cipher, which wraps after `2^32` letters;
  - `int` overflow in `CesarEncryption::encode` for shifts near `INT_MAX`;
  - `int` overflow in `binaryToChar` for words of more than 31 digits.

  The model computes with unbounded integers and then keeps the low eight bits.
- Caesar.Encode: a negative shift is modelled with C++ remainder semantics (`CRem`), but the laws are proved only for shifts of at least 0. The source gives no meaning to the character a negative remainder produces.
- VigenereCipher.Vigenere.Encode and VigenereCipher.Vigenere.Decode require a non-empty key when the text has a letter. There the source computes `i % 0` with an empty key, which is undefined (see Findings); a text without letters is modelled under every key.
- The free `fitness` calls `std::isalpha` on a plain `char`, which is undefined for negative values. The model classifies the unsigned value in the "C" locale.
- `HexToBytes` and `fromHex` extract through `std::hex`, which also accepts a sign and a `0x` prefix. These are not modelled: a word is read through its leading hex digits.
- XorEncoder.Encode requires a non-empty key only when the input is non-empty. There the source computes `i % key.size()` with a zero size, which is undefined; empty input is modelled under every key, the empty one included.
- CryptoGen.FromHex: for a pair of two white-space characters, such as `fromHex("  ")`, the extraction fails before any conversion and the source stores its uninitialised `byte`. The model gives 0 for that byte (`Hex.ReadHex`), a value the source does not promise. Pairs with a non-space character are read as the source reads them. `XorEncoder.HexToBytes` cannot meet this case, since the words it reads hold no white space.
- VigenereBreak.KeySearch.WalkLength, VigenereBreak.KeySearch.SearchUpTo, VigenereBreak.KeySearch.Branch and VigenereBreak.KeySearch.TryKey are not separate operations in the source. Each is a loop or lambda body of `breakEncode`/`dfs`, kept as its own method so the proof stays small.
- The same holds for the other helper methods split out of source loops: `Des.DES.WriteNibble`, `XorEncoder.TrySecondBytes`, `XorEncoder.TryKeys`, `Caesar.MostFrequentLetter`, `Caesar.LetterFrequencies`, `Caesar.CommonWordsFound`, `VigenereCipher.Vigenere.ScoreMarkers`, `VigenereCipher.Vigenere.CountMarker`, `CryptoGen.EncodeTail` and `CryptoGen.CryptoGenerator.DrawFrom`.

## Findings

| source | as written | input that shows it | evidently intended | confidence | as-written member | corrected member |
|---|---|---|---|---|---|---|
| GoingSecure/include/CesarEncryption.h:52,72 | `decode` shifts by `26 - k % 26` and applies it to digits modulo 10, so a digit comes back six places further on | `decode(encode("0", 0), 0) == "6"` | `decode` inverts `encode` on every character, as the comment at line 65 says, with digits turned back by `10 - k % 10` | high, by proof; not executed | Caesar.DigitsNotRestored | Caesar.CorrectedRoundTrip |
| GoingSecure/include/Vigenere.h:9-13 | the emptiness check reads the constructor parameter, which shadows the member, so a raw key without letters is accepted with an empty normalised key | `Vigenere("123")` leaves `key == ""`; a later `encode` then computes `i % 0` | reject a key that is empty or has no letters, as the exception message says | high, by proof; not executed | VigenereCipher.KeyWithoutLettersAccepted | VigenereCipher.CorrectedKeyCheckSound |
