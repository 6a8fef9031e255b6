# Caesar shift over a custom alphabet

A Dafny model of the shift engine of a small interactive Caesar-cipher
utility. An alphabet is an ordered letter sequence with a reverse map from
letter to position. A message is shifted character by character: a letter
moves `s` places left or right around the alphabet, and any other character is
copied unchanged. Cipher shifts by `s` and Decipher shifts by `-s`. The word
prompt accepts a trimmed, lower-cased line only when it is non-empty and made
of alphabet letters. The program has two alphabets: English (26 letters) and
Turkish (29 letters, `abcçdefgğhıijklmnoöprsştuüvyz`).

Files, one module each:

- `modular.dfy` (`Modular`): facts about Euclidean remainder. Dafny's `%`
  with a positive divisor is Rust's `rem_euclid`.
- `alphabet.dfy` (`Alphabets`): the `Alphabet` datatype, `New`, the two
  alphabets.
- `shift.dfy` (`Shifting`): `Direction`, the per-character rotation `Shift`
  (the reference definition), the program's loop `ShiftLoop`, and the
  round-trip, periodicity and direction lemmas.
- `operation.dfy` (`Operations`): `Operation`, `Apply`, and the `i32`
  negation as written.
- `word_input.dfy` (`WordInput`): the word acceptance test.
- `examples.dfy` (`Examples`): worked inputs over both alphabets, proved as lemmas.

The shift amount is a mathematical `int`. The program reads it as an `i32`.
For alphabets under 2^30 letters that width matters in one place only, the negation in `Operation::apply`, and
`Operations.ApplyAsWritten` models it there (see Findings). Every alphabet in
the program is built by `Alphabet::new`, so `Shift` and `Apply` require
`Built(a)`: the map is the one `New` collects from the letters. They also
require a non-empty alphabet, because `rem_euclid(0)` panics. Round trips need
`Valid(a)`, which is `Built(a)` plus no repeated letters. Both program
alphabets are proved `Valid`. With a repeated letter the map keeps the last
position of that letter, and the round trip can then fail
(`Examples.RepeatedLetterBreaksRoundTrip`).

## Model

| member | source | states |
|---|---|---|
| Alphabets.IndexMap | src/main.rs:13-15 | the collected map has exactly the letters as keys, and each key maps to a position that holds that letter |
| Alphabets.IndexMapKeepsLast | src/main.rs:13-15 | a repeated letter maps to its last position: no later position holds it |
| Alphabets.RepeatedLetterKeepsLastIndex | src/main.rs:13-15 | for the letters "aba", 'a' maps to 2, not 0, so the map is not the inverse of the letters |
| Alphabets.New | src/main.rs:11-21 | the alphabet keeps the letters in order; a character can be looked up iff it is one of the letters; a lookup returns a position holding that letter |
| Alphabets.NewIsInverse | src/main.rs:11-20 | for letters without repeats, `index_map[c] == i` iff `letters[i] == c` |
| Alphabets.EnglishValid | src/main.rs:115 | the English alphabet has 26 distinct letters and its map comes from them |
| Alphabets.TurkishValid | src/main.rs:116 | the Turkish alphabet has 29 distinct letters and its map comes from them |
| Shifting.NewPosition | src/main.rs:101-104 | the new position lies in `[0, len)` and equals `(index ± n) mod len`; the trailing `% len` changes nothing |
| Shifting.ShiftChar | src/main.rs:100-108 | a non-letter is copied; a letter maps to a letter whose index is `(i + offset) mod len`, where Left subtracts and Right adds |
| Shifting.Shift | src/main.rs:94-112 | output length equals input length; non-letters are copied to the same position; each letter at index `i` becomes a letter at index `(i ± (s mod len)) mod len` |
| Shifting.ShiftLoop | src/main.rs:94-112 | the push loop produces exactly the per-character rotation `Shift` |
| Shifting.PositionRoundTrip | src/main.rs:97-104 | moving a position by the normalized `s` and then by the normalized `-s` in the same direction returns to it |
| Shifting.ShiftCharRoundTrip | src/main.rs:97-108 | one character shifted by `s` and then by `-s` comes back unchanged |
| Shifting.ShiftRoundTrip | src/main.rs:94-112 | for every message, shift `s`, direction and valid alphabet, shifting by `s` and then by `-s` restores the message |
| Shifting.ShiftByMultipleIsIdentity | src/main.rs:97-103 | shifting by any multiple of the alphabet size, 0 included, leaves the message unchanged |
| Shifting.ShiftWrapsAround | src/main.rs:97 | adding a multiple of the size to the shift, or normalizing the shift first, gives the same output |
| Shifting.LeftIsRightNegated | src/main.rs:101-104 | Left by `s` equals Right by `-s` on every message |
| Shifting.ShiftLetter | src/main.rs:100-105 | the letter at position `i` becomes the letter at position `(i ± (s mod len)) mod len` |
| Operations.Apply | src/main.rs:36-43 | never returns `Err`; keeps the length; copies non-letters; maps letters to letters; in a valid alphabet Cipher moves the letter at index `i` to `(i ± (s mod len)) mod len` and Decipher to `(i ∓ (s mod len)) mod len` |
| Operations.NegatedShiftMovesBack | src/main.rs:40 | moving by the normalized `-s` lands where moving back by the normalized `s` does, in either direction |
| Operations.DecipherInvertsCipher | src/main.rs:37-42 | Decipher after Cipher, and Cipher after Decipher, with the same shift, direction and alphabet, return the original message |
| Operations.DecipherIsCipherReversed | src/main.rs:37-42 | deciphering to the Left is ciphering to the Right, and the other way round |
| Operations.WrappingNeg | src/main.rs:40 | `i32` negation without an overflow check: exact for every value except `i32::MIN`, which negates to itself |
| Operations.ApplyAsWritten | src/main.rs:36-43 | with the `i32` negation, the result is always `Ok` and agrees with `Apply` for every shift except `i32::MIN` |
| Examples.AsWrittenRoundTripFailsAtI32Min | src/main.rs:40 | with shift `i32::MIN`, English, Right: "a" ciphers to "c" and deciphers to "e" |
| Examples.CipherAbc | src/main.rs:115 | English, shift 1, Right: Cipher of "abc" is "bcd" and Decipher of "bcd" is "abc" |
| Examples.CipherZWraps | src/main.rs:115-116 | shift 1, Right: Cipher of "z" is "a" in both the 26- and the 29-letter alphabet |
| Examples.CipherTurkishLetter | src/main.rs:116 | Turkish, shift 1, Right: Cipher of "ç" is "d" |
| Examples.RepeatedLetterBreaksRoundTrip | src/main.rs:13-15 | over the letters "aba", shifting "a" right by 1 and then by -1 gives "b", not "a" |
| WordInput.IsWhitespace | src/main.rs:55 | Rust's `char::is_whitespace`, the Unicode White_Space code points: space, tab, line feed and carriage return are whitespace; no ASCII letter or digit is |
| WordInput.Accepts | src/main.rs:55-61 | an accepted word is non-empty, has a non-whitespace character, and every character is a key of the alphabet's map |
| WordInput.AcceptsExactly | src/main.rs:55-61 | for an alphabet without whitespace letters: accepted iff non-empty and every character is a key of the map |
| WordInput.AlphabetsHaveNoWhitespace | src/main.rs:115-116 | neither program alphabet contains a whitespace character |
| WordInput.ResultOfAcceptedIsAccepted | src/main.rs:60-61 | ciphering or deciphering an accepted word gives a word the prompt would accept too |

## Left out

- Console I/O: reading lines, printing prompts and results, and the re-prompt loops `get_int_input`, `leaning` and the menus in `main` (src/main.rs:45-52, 68-92, 114-193). These are interaction, not computation.
- Parsing the shift with `parse::<i32>` (src/main.rs:76). This is a library call. The model takes the parsed number.
- `trim` and `to_lowercase` on the word (src/main.rs:53). Their Unicode behaviour is library code. `WordInput.Accepts` takes the already normalized line, so uppercase input is not modelled.
- The process-ending `expect` on a failed read of standard input (src/main.rs:51, 74).
- Shifting.Shift: the shift is a mathematical `int`, which is exact for alphabets under 2^30 letters. Above that, `index as i32 ± normalized_shift` (src/main.rs:102-103) can overflow, and the model does not follow it. The two program alphabets have 26 and 29 letters. Only the negation at line 40 is modelled at `i32` width, in `Operations.ApplyAsWritten`.
- Shifting.Shift: requires a non-empty alphabet. `rem_euclid(0)` panics in the program, and the model does not include that panic.
- Operations.Apply: uses exact negation. This is the corrected behaviour described under Findings, not the `i32` negation as written.

The program's own rejection message promises more than its test, and the
model follows the test. The message (src/main.rs:56) asks for a non-empty
word without spaces or newline characters. The test at src/main.rs:55
rejects only an empty or all-whitespace line. A word with inner whitespace
is rejected only because no alphabet contains a whitespace letter.
`WordInput.Accepts` models the two tests as written.
`WordInput.AcceptsExactly` proves that they amount to "non-empty and all
letters" for alphabets without whitespace, which both program alphabets
satisfy.

## Findings

| source | as written | input that shows it | evidently intended | confidence | as-written member | corrected member |
|---|---|---|---|---|---|---|
| src/main.rs:40 | Decipher negates the `i32` shift with `-shifting`, which overflows for `i32::MIN` | shift `-2147483648` (accepted by the integer prompt), English, Right, word "a": Cipher gives "c", then Decipher gives "e" | Decipher undoes Cipher for every shift the prompt accepts | medium, not executed: a release build wraps to `i32::MIN` as modelled; a debug build panics instead, which also breaks the round trip | Operations.ApplyAsWritten, Examples.AsWrittenRoundTripFailsAtI32Min | Operations.Apply, Operations.DecipherInvertsCipher |
