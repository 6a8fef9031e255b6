/** The per-character rotation over an alphabet (src/main.rs:24-28, 94-112). */
module Shifting {
  import opened Alphabets
  import Modular

  datatype Direction = Left | Right

  /** The signed offset a direction applies: Left subtracts, Right adds. */
  function Offset(d: Direction, n: int): int {
    match d
    case Left => -n
    case Right => n
  }

  /** The new position of a letter at `index` once the normalized shift `n`
      is applied, computed as the program does, with a second `% len`
      after the Euclidean remainder; that second remainder changes nothing. */
  function NewPosition(index: int, n: int, d: Direction, len: int): (k: int)
    requires len > 0
    ensures 0 <= k < len
    ensures k == (index + Offset(d, n)) % len
  {
    var k := match d
      case Left => ((index - n) % len) % len
      case Right => ((index + n) % len) % len;
    Modular.ModSmall((index + Offset(d, n)) % len, len);
    k
  }

  /** One character of the message: a letter of the alphabet moves to its
      new position, anything else is copied. */
  function ShiftChar(c: char, n: int, d: Direction, a: Alphabet): (r: char)
    requires Built(a) && a.Size() > 0
    ensures c !in a.indexMap ==> r == c
    ensures c in a.indexMap ==> r in a.indexMap
    ensures Valid(a) && c in a.indexMap ==>
      a.indexMap[r] == (a.indexMap[c] + Offset(d, n)) % a.Size()
  {
    if c in a.indexMap then
      var k := NewPosition(a.indexMap[c], n, d, a.Size());
      assert Valid(a) ==> a.indexMap[a.letters[k]] == k by {
        if Valid(a) {
          IndexOfLetter(a, k);
        }
      }
      a.letters[k]
    else
      c
  }

  /** The whole message shifted by `s` positions in direction `d`; the shift
      is first brought into `[0, Size())` by Euclidean remainder, so
      negative and oversized shifts wrap around. */
  function Shift(message: string, s: int, d: Direction, a: Alphabet): (r: string)
    requires Built(a) && a.Size() > 0
    ensures |r| == |message|
    ensures forall i :: 0 <= i < |message| && message[i] !in a.indexMap ==> r[i] == message[i]
    ensures forall i :: 0 <= i < |message| && message[i] in a.indexMap ==> r[i] in a.indexMap
    ensures Valid(a) ==>
      forall i :: 0 <= i < |message| && message[i] in a.indexMap ==>
        a.indexMap[r[i]] == (a.indexMap[message[i]] + Offset(d, s % a.Size())) % a.Size()
  {
    var n := s % a.Size();
    var r := seq(|message|, i requires 0 <= i < |message| => ShiftChar(message[i], n, d, a));
    assert forall i :: 0 <= i < |message| ==> r[i] == ShiftChar(message[i], n, d, a);
    r
  }

  /** The loop of the program: one pushed character per input character. */
  method ShiftLoop(message: string, shifting: int, direction: Direction, a: Alphabet)
    returns (result: string)
    requires Built(a) && a.Size() > 0
    ensures result == Shift(message, shifting, direction, a)
  {
    result := [];
    var len := a.Size();
    var normalized := shifting % len;
    for i := 0 to |message|
      invariant |result| == i
      invariant forall j :: 0 <= j < i ==> result[j] == ShiftChar(message[j], normalized, direction, a)
    {
      var c := message[i];
      if c in a.indexMap {
        var index := a.indexMap[c];
        var k := match direction
          case Left => ((index - normalized) % len) % len
          case Right => ((index + normalized) % len) % len;
        result := result + [a.letters[k]];
      } else {
        result := result + [c];
      }
    }
  }

  /** On positions: moving by the normalized `s` and then by the normalized
      `-s`, in the same direction, returns to the starting position. */
  lemma PositionRoundTrip(i: int, s: int, d: Direction, len: int)
    requires 0 <= i < len
    ensures ((i + Offset(d, s % len)) % len + Offset(d, (-s) % len)) % len == i
  {
    match d
    case Right =>
      Modular.ModAddCancel(i, s, len);
    case Left =>
      Modular.ModSubCancel(i, s, len);
  }

  /** Shifting one character by `s` and then by `-s`, in the same direction,
      gives the character back. */
  lemma ShiftCharRoundTrip(c: char, s: int, d: Direction, a: Alphabet)
    requires Valid(a) && a.Size() > 0
    ensures ShiftChar(ShiftChar(c, s % a.Size(), d, a), (-s) % a.Size(), d, a) == c
  {
    var len := a.Size();
    if c in a.indexMap {
      var i := a.indexMap[c];
      var c' := ShiftChar(c, s % len, d, a);
      var j := (i + Offset(d, s % len)) % len;
      assert a.indexMap[c'] == j;
      var c'' := ShiftChar(c', (-s) % len, d, a);
      assert a.indexMap[c''] == (j + Offset(d, (-s) % len)) % len;
      PositionRoundTrip(i, s, d, len);
      assert a.letters[a.indexMap[c'']] == c'' && a.letters[i] == c;
    }
  }

  /** Shifting by `s` and then by `-s` restores ANY message: letters come
      back through the rotation, other characters are never touched. */
  lemma {:induction false} ShiftRoundTrip(message: string, s: int, d: Direction, a: Alphabet)
    requires Valid(a) && a.Size() > 0
    ensures Shift(Shift(message, s, d, a), -s, d, a) == message
  {
    var r := Shift(Shift(message, s, d, a), -s, d, a);
    forall i | 0 <= i < |message|
      ensures r[i] == message[i]
    {
      ShiftCharRoundTrip(message[i], s, d, a);
    }
  }

  /** Shifting by any multiple of the alphabet size, zero included, leaves
      the message as it is. */
  lemma ShiftByMultipleIsIdentity(message: string, k: int, d: Direction, a: Alphabet)
    requires Built(a) && a.Size() > 0
    ensures Shift(message, k * a.Size(), d, a) == message
  {
    var len := a.Size();
    Modular.ModAddMultiple(0, k, len);
    assert (k * len) % len == 0;
    var r := Shift(message, k * len, d, a);
    forall i | 0 <= i < |message|
      ensures r[i] == message[i]
    {
      if message[i] in a.indexMap {
        Modular.ModSmall(a.indexMap[message[i]], len);
      }
    }
  }

  /** Only the shift's remainder matters: shifting by `s` and by `s` plus any
      multiple of the alphabet size give the same message, and so does
      shifting by the already normalized amount. */
  lemma ShiftWrapsAround(message: string, s: int, k: int, d: Direction, a: Alphabet)
    requires Built(a) && a.Size() > 0
    ensures Shift(message, s + k * a.Size(), d, a) == Shift(message, s, d, a)
    ensures Shift(message, s % a.Size(), d, a) == Shift(message, s, d, a)
  {
    var len := a.Size();
    Modular.ModAddMultiple(s, k, len);
    Modular.ModSmall(s % len, len);
  }

  /** Shifts with the same remainder modulo the alphabet size agree. */
  lemma ShiftCongruent(message: string, s: int, t: int, d: Direction, a: Alphabet)
    requires Built(a) && a.Size() > 0 && s % a.Size() == t % a.Size()
    ensures Shift(message, s, d, a) == Shift(message, t, d, a)
  {
  }

  /** Direction and sign are interchangeable: Left by `s` is Right by `-s`. */
  lemma LeftIsRightNegated(message: string, s: int, a: Alphabet)
    requires Built(a) && a.Size() > 0
    ensures Shift(message, s, Left, a) == Shift(message, -s, Right, a)
  {
    var len := a.Size();
    var l, r := Shift(message, s, Left, a), Shift(message, -s, Right, a);
    forall i | 0 <= i < |message|
      ensures l[i] == r[i]
    {
      if message[i] in a.indexMap {
        Modular.ModSubIsAddNeg(a.indexMap[message[i]], s, len);
      }
    }
  }

  /** The letter at position `i` moves to position `(i + offset) mod size`. */
  lemma ShiftLetter(a: Alphabet, i: int, s: int, d: Direction)
    requires Valid(a) && 0 <= i < a.Size()
    ensures Shift([a.letters[i]], s, d, a) == [a.letters[(i + Offset(d, s % a.Size())) % a.Size()]]
  {
    IndexOfLetter(a, i);
    var r := Shift([a.letters[i]], s, d, a);
    var k := (i + Offset(d, s % a.Size())) % a.Size();
    assert a.indexMap[r[0]] == k;
  }

  /** The rotation works character by character, so it distributes over
      concatenation. */
  lemma ShiftConcat(m1: string, m2: string, s: int, d: Direction, a: Alphabet)
    requires Built(a) && a.Size() > 0
    ensures Shift(m1 + m2, s, d, a) == Shift(m1, s, d, a) + Shift(m2, s, d, a)
  {
  }
}
