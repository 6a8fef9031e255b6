/** Cipher and Decipher over an alphabet (src/main.rs:30-43). */
module Operations {
  import opened Alphabets
  import opened Shifting
  import Modular

  datatype Operation = Cipher | Decipher

  /** The program's `Result<String, String>`. */
  datatype Result<T> = Ok(value: T) | Err(error: string)

  /** The offset a letter moves by: Cipher moves it by the normalized shift
      in direction `d`, Decipher by the same amount the other way. */
  function LetterOffset(op: Operation, shifting: int, d: Direction, len: int): int
    requires len > 0
  {
    match op
    case Cipher => Offset(d, shifting % len)
    case Decipher => -Offset(d, shifting % len)
  }

  /** Moving by the normalized `-s` lands where moving back by the
      normalized `s` does. */
  lemma NegatedShiftMovesBack(j: int, s: int, d: Direction, len: int)
    requires len > 0
    ensures (j + Offset(d, (-s) % len)) % len == (j - Offset(d, s % len)) % len
  {
    match d
    case Right =>
      Modular.ModSubIsAddNeg(j, s, len);
    case Left =>
      NegatedShiftMovesBackLeft(j, s, len);
  }

  lemma NegatedShiftMovesBackLeft(j: int, s: int, len: int)
    requires len > 0
    ensures (j - (-s) % len) % len == (j + s % len) % len
  {
    var t := -s;
    Modular.ModSubIsAddNeg(j, t, len);
    assert (-t) % len == s % len by {
      assert -t == s;
    }
  }

  /** Applies an operation. It never fails, keeps the length of the message
      and leaves every character outside the alphabet where it was; in a
      valid alphabet Cipher moves each letter forward by the shift in
      direction `d` and Decipher moves it back by the same amount. */
  function Apply(op: Operation, message: string, shifting: int, d: Direction, a: Alphabet): (r: Result<string>)
    requires Built(a) && a.Size() > 0
    ensures r.Ok?
    ensures |r.value| == |message|
    ensures forall i :: 0 <= i < |message| && message[i] !in a.indexMap ==> r.value[i] == message[i]
    ensures forall i :: 0 <= i < |message| && message[i] in a.indexMap ==> r.value[i] in a.indexMap
    ensures Valid(a) ==>
      forall i :: 0 <= i < |message| && message[i] in a.indexMap ==>
        a.indexMap[r.value[i]] == (a.indexMap[message[i]] + LetterOffset(op, shifting, d, a.Size())) % a.Size()
  {
    match op
    case Cipher =>
      Ok(Shift(message, shifting, d, a))
    case Decipher =>
      var out := Shift(message, -shifting, d, a);
      // The letter arithmetic of the last ensures holds for valid alphabets.
      if Valid(a) then
        DecipherMovesBack(message, shifting, d, a);
        Ok(out)
      else
        Ok(out)
  }

  /** Shifting by `-s` moves every letter back by the normalized `s`. */
  lemma DecipherMovesBack(message: string, s: int, d: Direction, a: Alphabet)
    requires Valid(a) && a.Size() > 0
    ensures forall i :: 0 <= i < |message| && message[i] in a.indexMap ==>
      a.indexMap[Shift(message, -s, d, a)[i]] == (a.indexMap[message[i]] - Offset(d, s % a.Size())) % a.Size()
  {
    var out := Shift(message, -s, d, a);
    forall i | 0 <= i < |message| && message[i] in a.indexMap
      ensures a.indexMap[out[i]] == (a.indexMap[message[i]] - Offset(d, s % a.Size())) % a.Size()
    {
      NegatedShiftMovesBack(a.indexMap[message[i]], s, d, a.Size());
    }
  }

  /** Decipher undoes Cipher, and Cipher undoes Decipher, for the same
      shift, direction and alphabet, on every message. */
  lemma DecipherInvertsCipher(message: string, shifting: int, d: Direction, a: Alphabet)
    requires Valid(a) && a.Size() > 0
    ensures Apply(Decipher, Apply(Cipher, message, shifting, d, a).value, shifting, d, a) == Ok(message)
    ensures Apply(Cipher, Apply(Decipher, message, shifting, d, a).value, shifting, d, a) == Ok(message)
  {
    ShiftRoundTrip(message, shifting, d, a);
    ShiftRoundTrip(message, -shifting, d, a);
    assert -(-shifting) == shifting;
  }

  /** Deciphering in one direction is ciphering in the other. */
  lemma DecipherIsCipherReversed(message: string, shifting: int, a: Alphabet)
    requires Built(a) && a.Size() > 0
    ensures Apply(Decipher, message, shifting, Left, a) == Apply(Cipher, message, shifting, Right, a)
    ensures Apply(Decipher, message, shifting, Right, a) == Apply(Cipher, message, shifting, Left, a)
  {
    LeftIsRightNegated(message, -shifting, a);
    LeftIsRightNegated(message, shifting, a);
    assert -(-shifting) == shifting;
  }

  // The shift amount is an `i32` in the program (src/main.rs:37, 76).

  const I32Min: int := -0x8000_0000
  const I32Max: int := 0x7fff_ffff

  predicate IsI32(x: int) {
    I32Min <= x <= I32Max
  }

  /** Two's-complement wrap-around of an integer into the `i32` range. */
  function Wrap32(x: int): (r: int)
    ensures IsI32(r)
    ensures IsI32(x) ==> r == x
  {
    (x - I32Min) % 0x1_0000_0000 + I32Min
  }

  /** `-shifting` on an `i32` without an overflow check: every value but
      `i32::MIN` negates exactly, and `i32::MIN` comes back as itself. */
  function WrappingNeg(x: int): (r: int)
    requires IsI32(x)
    ensures IsI32(r)
    ensures x != I32Min ==> r == -x
    ensures x == I32Min ==> r == I32Min
  {
    Wrap32(-x)
  }

  /** `Operation::apply` as written, with the `i32` negation of line 40. It
      agrees with `Apply` on every shift except `i32::MIN`. */
  function ApplyAsWritten(op: Operation, message: string, shifting: int, d: Direction, a: Alphabet): (r: Result<string>)
    requires IsI32(shifting) && Built(a) && a.Size() > 0
    ensures r.Ok?
    ensures shifting != I32Min ==> r == Apply(op, message, shifting, d, a)
  {
    match op
    case Cipher => Ok(Shift(message, shifting, d, a))
    case Decipher => Ok(Shift(message, WrappingNeg(shifting), d, a))
  }
}
