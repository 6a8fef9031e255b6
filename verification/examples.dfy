/** Worked inputs over the program's two alphabets (src/main.rs:115-116), and
    one over a letter string with a repeat. */
module Examples {
  import opened Alphabets
  import opened Shifting
  import opened Operations
  import Modular

  /** The letter `c` at position `i` moves to the letter `c'` at position `k`. */
  lemma MovesTo(a: Alphabet, c: char, s: int, d: Direction, c': char, i: int, k: int)
    requires Valid(a) && 0 <= i < a.Size() && 0 <= k < a.Size()
    requires a.letters[i] == c && a.letters[k] == c'
    requires k == (i + Offset(d, s % a.Size())) % a.Size()
    ensures Shift([c], s, d, a) == [c']
  {
    ShiftLetter(a, i, s, d);
  }

  lemma EnglishFacts()
    ensures Valid(English) && English.Size() == 26
    ensures English.letters[0] == 'a' && English.letters[1] == 'b' && English.letters[2] == 'c'
    ensures English.letters[3] == 'd' && English.letters[4] == 'e' && English.letters[25] == 'z'
  {
    EnglishValid();
  }

  lemma TurkishFacts()
    ensures Valid(Turkish) && Turkish.Size() == 29
    ensures Turkish.letters[0] == 'a' && Turkish.letters[3] == 'ç' && Turkish.letters[4] == 'd'
    ensures Turkish.letters[28] == 'z'
  {
    TurkishValid();
  }

  /** Over any alphabet that starts with "abcd", shifting "abc" one place
      to the right gives "bcd". */
  lemma ShiftAbcOver(a: Alphabet)
    requires Valid(a) && a.Size() >= 4
    requires a.letters[0] == 'a' && a.letters[1] == 'b' && a.letters[2] == 'c' && a.letters[3] == 'd'
    ensures Shift("abc", 1, Right, a) == "bcd"
  {
    MovesTo(a, 'a', 1, Right, 'b', 0, 1);
    MovesTo(a, 'b', 1, Right, 'c', 1, 2);
    MovesTo(a, 'c', 1, Right, 'd', 2, 3);
    calc {
      Shift("abc", 1, Right, a);
      { assert "abc" == "a" + ("b" + "c"); }
      Shift("a" + ("b" + "c"), 1, Right, a);
      { ShiftConcat("a", "b" + "c", 1, Right, a); ShiftConcat("b", "c", 1, Right, a); }
      "b" + ("c" + "d");
    }
  }

  /** Ciphering "abc" one place to the right over the English alphabet
      gives "bcd", and deciphering "bcd" the same way gives "abc". */
  lemma CipherAbc()
    ensures Valid(English)
    ensures Apply(Cipher, "abc", 1, Right, English) == Ok("bcd")
    ensures Apply(Decipher, "bcd", 1, Right, English) == Ok("abc")
  {
    EnglishFacts();
    ShiftAbcOver(English);
    DecipherInvertsCipher("abc", 1, Right, English);
  }

  /** Over any alphabet running from 'a' to 'z', the last letter wraps
      around to the first. */
  lemma ShiftZOver(a: Alphabet)
    requires Valid(a) && a.Size() > 0
    requires a.letters[0] == 'a' && a.letters[a.Size() - 1] == 'z'
    ensures Shift("z", 1, Right, a) == "a"
  {
    var n := a.Size();
    assert n > 1;
    Modular.ModSmall(1, n);
    Modular.ModUnique(n, 1, 0, n);
    MovesTo(a, 'z', 1, Right, 'a', n - 1, 0);
  }

  /** "z" ciphered one place to the right is "a" in both alphabets, each
      wrapping at its own length. */
  lemma CipherZWraps()
    ensures Valid(English) && Valid(Turkish)
    ensures Apply(Cipher, "z", 1, Right, English) == Ok("a")
    ensures Apply(Cipher, "z", 1, Right, Turkish) == Ok("a")
  {
    EnglishFacts();
    TurkishFacts();
    ShiftZOver(English);
    ShiftZOver(Turkish);
  }

  /** A Turkish-only letter takes part in the rotation: "ç" moves to "d". */
  lemma CipherTurkishLetter()
    ensures Valid(Turkish)
    ensures Apply(Cipher, "ç", 1, Right, Turkish) == Ok("d")
  {
    TurkishFacts();
    MovesTo(Turkish, 'ç', 1, Right, 'd', 3, 4);
  }

  /** `i32::MIN` leaves remainder 2 modulo 26. */
  lemma I32MinModEnglish()
    ensures I32Min % English.Size() == 2
  {
  }

  /** With the shift `i32::MIN` the negation wraps, Decipher shifts the same
      way as Cipher, and ciphering then deciphering "a" over the English
      alphabet gives "e" instead of "a". */
  lemma AsWrittenRoundTripFailsAtI32Min()
    ensures Valid(English)
    ensures ApplyAsWritten(Decipher, ApplyAsWritten(Cipher, "a", I32Min, Right, English).value, I32Min, Right, English)
         == Ok("e")
  {
    EnglishFacts();
    I32MinModEnglish();
    MovesTo(English, 'a', 2, Right, 'c', 0, 2);
    MovesTo(English, 'c', 2, Right, 'e', 2, 4);
    ShiftCongruent("a", I32Min, 2, Right, English);
    ShiftCongruent("c", I32Min, 2, Right, English);
    assert WrappingNeg(I32Min) == I32Min;
  }

  /** With a repeated letter the round trip fails: over "aba", whose map
      sends 'a' to its last position 2, shifting "a" one place right gives
      "a" (position 0), and shifting back gives "b". */
  lemma RepeatedLetterBreaksRoundTrip()
    ensures Shift(Shift("a", 1, Right, New("aba")), -1, Right, New("aba")) == "b"
  {
    var a := New("aba");
    RepeatedLetterKeepsLastIndex();
    assert a.indexMap['a'] == 2 && a.Size() == 3;
    assert Shift("a", 1, Right, a)[0] == a.letters[0];
    assert Shift("a", 1, Right, a) == "a";
    assert (-1) % 3 == 2;
    assert Shift("a", -1, Right, a)[0] == a.letters[1];
  }
}
