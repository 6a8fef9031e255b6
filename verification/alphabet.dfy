/** An alphabet is an ordered letter sequence together with the reverse
    lookup from a letter to its zero-based position (src/main.rs:5-21). */
module Alphabets {

  datatype Alphabet = Alphabet(letters: seq<char>, indexMap: map<char, nat>)
  {
    /** Number of letters, the modulus of every shift over this alphabet. */
    function Size(): nat {
      |letters|
    }
  }

  /** Every letter occurs at most once. */
  predicate Distinct(letters: seq<char>) {
    forall i, j :: 0 <= i < j < |letters| ==> letters[i] != letters[j]
  }

  /** The map that collecting `(letter, position)` pairs in order produces:
      a later occurrence of a letter overwrites an earlier one, so each
      letter ends up at its LAST position. */
  function IndexMap(letters: seq<char>): (m: map<char, nat>)
    ensures forall c :: c in m <==> c in letters
    ensures forall c :: c in m ==> m[c] < |letters| && letters[m[c]] == c
  {
    if |letters| == 0 then map[]
    else
      var last := |letters| - 1;
      IndexMap(letters[..last])[letters[last] := last]
  }

  /** A letter is mapped to its last position: no later position holds it. */
  lemma {:induction false} IndexMapKeepsLast(letters: seq<char>, c: char, j: int)
    requires c in IndexMap(letters) && IndexMap(letters)[c] < j < |letters|
    ensures letters[j] != c
  {
    var last := |letters| - 1;
    var prefix := letters[..last];
    if c != letters[last] && j < last {
      assert IndexMap(letters)[c] == IndexMap(prefix)[c];
      IndexMapKeepsLast(prefix, c, j);
      assert prefix[j] == letters[j];
    }
  }

  /** Builds an alphabet from its letter string: every letter, and nothing
      else, can be looked up, and looking a letter up gives a position
      holding that letter. */
  function New(letters: seq<char>): (a: Alphabet)
    ensures a.letters == letters
    ensures forall c :: c in a.indexMap <==> c in letters
    ensures forall c :: c in a.indexMap ==> a.indexMap[c] < |letters| && letters[a.indexMap[c]] == c
  {
    Alphabet(letters, IndexMap(letters))
  }

  /** The representation invariant every alphabet of the program keeps:
      it was built by `New`, so its map is the one collected from its letters. */
  predicate Built(a: Alphabet) {
    a.indexMap == IndexMap(a.letters)
  }

  /** A built alphabet without repeated letters: its map is a bijection
      between the letters and the positions `[0, Size())`. */
  predicate Valid(a: Alphabet) {
    Built(a) && Distinct(a.letters)
  }

  /** In a valid alphabet, looking up the letter at position `i` gives back `i`. */
  lemma IndexOfLetter(a: Alphabet, i: int)
    requires Valid(a) && 0 <= i < a.Size()
    ensures a.letters[i] in a.indexMap && a.indexMap[a.letters[i]] == i
  {
    assert a.letters[i] in a.letters;
  }

  /** On a letter string without repeats, the map `New` builds is the exact
      inverse of the letter sequence. */
  lemma NewIsInverse(letters: seq<char>)
    requires Distinct(letters)
    ensures forall c, i :: 0 <= i < |letters| ==>
      (c in New(letters).indexMap && New(letters).indexMap[c] == i <==> letters[i] == c)
  {
    var a := New(letters);
    forall c, i | 0 <= i < |letters|
      ensures c in a.indexMap && a.indexMap[c] == i <==> letters[i] == c
    {
      if letters[i] == c {
        IndexOfLetter(a, i);
      }
    }
  }

  /** With repeated letters the map keeps the last position of each letter,
      so it is no longer the inverse of the letter sequence. */
  lemma RepeatedLetterKeepsLastIndex()
    ensures New("aba").indexMap['a'] == 2
  {
    assert IndexMap("a") == map['a' := 0];
    assert "aba"[..2] == "ab";
    assert "ab"[..1] == "a";
  }

  const EnglishLetters: string := "abcdefghijklmnopqrstuvwxyz"
  const TurkishLetters: string := "abcçdefgğhıijklmnoöprsştuüvyz"

  /** The two alphabets the program builds at start-up. */
  const English: Alphabet := New(EnglishLetters)
  const Turkish: Alphabet := New(TurkishLetters)

  /** No letter of `s` occurs in `t`. */
  predicate Disjoint(s: seq<char>, t: seq<char>) {
    forall i, j :: 0 <= i < |s| && 0 <= j < |t| ==> s[i] != t[j]
  }

  /** Two repeat-free, disjoint letter strings join into a repeat-free one. */
  lemma DistinctConcat(s: seq<char>, t: seq<char>)
    requires Distinct(s) && Distinct(t) && Disjoint(s, t)
    ensures Distinct(s + t)
  {
    var u := s + t;
    forall i, j | 0 <= i < j < |u|
      ensures u[i] != u[j]
    {
      if j < |s| {
        assert u[i] == s[i] && u[j] == s[j];
      } else if i < |s| {
        assert u[i] == s[i] && u[j] == t[j - |s|];
      } else {
        assert u[i] == t[i - |s|] && u[j] == t[j - |s|];
      }
    }
  }

  // Each alphabet is checked for repeats in two halves, which keeps every
  // proof obligation small.

  lemma EnglishHalves()
    ensures EnglishLetters == "abcdefghijklm" + "nopqrstuvwxyz"
  {
  }

  lemma EnglishHalvesDistinct()
    ensures Distinct("abcdefghijklm") && Distinct("nopqrstuvwxyz")
  {
  }

  lemma EnglishHalvesDisjoint()
    ensures Disjoint("abcdefghijklm", "nopqrstuvwxyz")
  {
  }

  lemma TurkishHalves()
    ensures TurkishLetters == "abcçdefgğhıijkl" + "mnoöprsştuüvyz"
  {
  }

  lemma TurkishHalvesDistinct()
    ensures Distinct("abcçdefgğhıijkl") && Distinct("mnoöprsştuüvyz")
  {
  }

  lemma TurkishHalvesDisjoint()
    ensures Disjoint("abcçdefgğhıijkl", "mnoöprsştuüvyz")
  {
  }

  lemma EnglishValid()
    ensures Valid(English) && English.Size() == 26
  {
    EnglishHalves();
    EnglishHalvesDistinct();
    EnglishHalvesDisjoint();
    DistinctConcat("abcdefghijklm", "nopqrstuvwxyz");
  }

  lemma TurkishValid()
    ensures Valid(Turkish) && Turkish.Size() == 29
  {
    TurkishHalves();
    TurkishHalvesDistinct();
    TurkishHalvesDisjoint();
    DistinctConcat("abcçdefgğhıijkl", "mnoöprsştuüvyz");
  }
}
