/** The accept/reject test the word prompt applies to the trimmed,
    lower-cased line (src/main.rs:53-64). */
module WordInput {
  import opened Alphabets
  import opened Shifting
  import opened Operations

  /** Rust's `char::is_whitespace`: the Unicode White_Space property. It
      covers the spaces and line breaks the prompt's message names, and no
      ASCII letter or digit. */
  predicate IsWhitespace(c: char): (w: bool)
    ensures c == ' ' || c == '\t' || c == '\n' || c == '\r' ==> w
    ensures 'a' <= c <= 'z' || 'A' <= c <= 'Z' || '0' <= c <= '9' ==> !w
  {
    || '\U{0009}' <= c <= '\U{000D}'
    || c == ' '
    || c == '\U{0085}'
    || c == '\U{00A0}'
    || c == '\U{1680}'
    || '\U{2000}' <= c <= '\U{200A}'
    || c == '\U{2028}'
    || c == '\U{2029}'
    || c == '\U{202F}'
    || c == '\U{205F}'
    || c == '\U{3000}'
  }

  /** The first test rejects an empty or all-whitespace line; the second
      accepts the line only if every character can be looked up in the
      alphabet. */
  function Accepts(word: string, a: Alphabet): (ok: bool)
    ensures ok ==> |word| > 0 && forall i :: 0 <= i < |word| ==> word[i] in a.indexMap
    ensures ok ==> exists i :: 0 <= i < |word| && !IsWhitespace(word[i])
  {
    if |word| == 0 || forall i | 0 <= i < |word| :: IsWhitespace(word[i]) then
      false
    else
      forall i | 0 <= i < |word| :: word[i] in a.indexMap
  }

  /** No letter of the alphabet is a whitespace character. */
  predicate NoWhitespaceLetters(a: Alphabet) {
    forall i :: 0 <= i < |a.letters| ==> !IsWhitespace(a.letters[i])
  }

  /** For an alphabet without whitespace letters the whitespace test is
      subsumed: a word is accepted exactly when it is non-empty and every
      character is a key of the alphabet's map. */
  lemma AcceptsExactly(word: string, a: Alphabet)
    requires Built(a) && NoWhitespaceLetters(a)
    ensures Accepts(word, a) <==> |word| > 0 && forall i :: 0 <= i < |word| ==> word[i] in a.indexMap
  {
    if |word| > 0 && forall i :: 0 <= i < |word| ==> word[i] in a.indexMap {
      var c := word[0];
      assert a.letters[a.indexMap[c]] == c;
      assert !IsWhitespace(c);
    }
  }

  /** A letter from 'a' upwards that is below U+1680 and is neither U+0085
      nor U+00A0 is not whitespace. */
  lemma NotWhitespace(c: char)
    requires 'a' <= c < '\U{1680}' && c != '\U{0085}' && c != '\U{00A0}'
    ensures !IsWhitespace(c)
  {
  }

  /** Neither of the program's alphabets contains whitespace. */
  lemma AlphabetsHaveNoWhitespace()
    ensures NoWhitespaceLetters(English)
    ensures NoWhitespaceLetters(Turkish)
  {
    EnglishHasNoWhitespace();
    TurkishHasNoWhitespace();
  }

  lemma EnglishHasNoWhitespace()
    ensures NoWhitespaceLetters(English)
  {
    forall i | 0 <= i < |English.letters|
      ensures !IsWhitespace(English.letters[i])
    {
      assert 'a' <= English.letters[i] <= 'z';
      NotWhitespace(English.letters[i]);
    }
  }

  lemma TurkishHasNoWhitespace()
    ensures NoWhitespaceLetters(Turkish)
  {
    forall i | 0 <= i < |Turkish.letters|
      ensures !IsWhitespace(Turkish.letters[i])
    {
      assert 'a' <= Turkish.letters[i] <= '\U{0160}' && Turkish.letters[i] != '\U{0085}' && Turkish.letters[i] != '\U{00A0}';
      NotWhitespace(Turkish.letters[i]);
    }
  }

  /** A word the prompt accepts stays acceptable after either operation:
      the result is non-empty and made of alphabet letters only. */
  lemma ResultOfAcceptedIsAccepted(op: Operation, word: string, shifting: int, d: Direction, a: Alphabet)
    requires Built(a) && a.Size() > 0 && NoWhitespaceLetters(a)
    requires Accepts(word, a)
    ensures Accepts(Apply(op, word, shifting, d, a).value, a)
  {
    AcceptsExactly(word, a);
    AcceptsExactly(Apply(op, word, shifting, d, a).value, a);
  }
}
