/** `generateCode` (main.go): `n` bytes, each drawn from the 62-letter
    alphabet `a`-`z`, `A`-`Z`, `0`-`9` by `rand.Intn(62)`. The random draws
    are an input: one index below 62 per byte. */
module Codes {
  import opened Text

  /** The alphabet size, `len(letters)`. */
  const AlphabetSize: nat := 62

  /** The length `shortenHandler` asks for. */
  const CodeLength: nat := 6

  /** One result of `rand.Intn(len(letters))`. */
  type LetterIndex = i: int | 0 <= i < AlphabetSize

  /** The constant `letters` of `generateCode`, written in three pieces
      only so that the verifier can index it. */
  const Letters: string := "abcdefghijklmnopqrstuvwxyz" + "ABCDEFGHIJKLMNOPQRSTUVWXYZ" + "0123456789"

  /** `letters[i]`, computed from the three ranges the constant spells out
      (LetterIsLetters). */
  function Letter(i: LetterIndex): (c: Byte) {
    if i < 26 then ('a' as int + i) as char
    else if i < 52 then ('A' as int + i - 26) as char
    else ('0' as int + i - 52) as char
  }

  /** Letter reads the constant: `letters` has one byte per draw, and
      `Letter(i)` is its byte `i`. */
  lemma {:induction false} LetterIsLetters(i: LetterIndex)
    ensures |Letters| == AlphabetSize
    ensures Letter(i) == Letters[i]
  {
    if i < 26 {
      LowerSpelled(i);
    } else if i < 52 {
      UpperSpelled(i - 26);
    } else {
      DigitsSpelled(i - 52);
    }
  }

  lemma LowerSpelled(i: nat)
    requires i < 26
    ensures "abcdefghijklmnopqrstuvwxyz"[i] == ('a' as int + i) as char
  {
  }

  lemma UpperSpelled(i: nat)
    requires i < 26
    ensures "ABCDEFGHIJKLMNOPQRSTUVWXYZ"[i] == ('A' as int + i) as char
  {
  }

  lemma DigitsSpelled(i: nat)
    requires i < 10
    ensures "0123456789"[i] == ('0' as int + i) as char
  {
  }

  predicate IsAlphanumeric(c: Byte) {
    ('a' <= c <= 'z') || ('A' <= c <= 'Z') || ('0' <= c <= '9')
  }

  /** Position of an alphanumeric byte in the alphabet. */
  function LetterIndexOf(c: Byte): (i: LetterIndex)
    requires IsAlphanumeric(c)
  {
    if 'a' <= c <= 'z' then c as int - 'a' as int
    else if 'A' <= c <= 'Z' then c as int - 'A' as int + 26
    else c as int - '0' as int + 52
  }

  /** The alphabet is exactly the alphanumeric bytes, each once. */
  lemma {:induction false} LetterBijection(i: LetterIndex, c: Byte)
    ensures IsAlphanumeric(Letter(i)) && LetterIndexOf(Letter(i)) == i
    ensures IsAlphanumeric(c) ==> Letter(LetterIndexOf(c)) == c
  {
  }

  /** A code `shortenHandler` can store. */
  predicate IsCode(code: Bytes) {
    |code| == CodeLength && forall i :: 0 <= i < |code| ==> IsAlphanumeric(code[i])
  }

  /** `generateCode(n)` given the `n` draws it makes. */
  function GenerateCode(n: nat, draws: seq<LetterIndex>): (code: Bytes)
    requires |draws| == n
    ensures |code| == n
    ensures forall i :: 0 <= i < n ==> code[i] == Letter(draws[i]) && IsAlphanumeric(code[i])
  {
    if n == 0 then []
    else GenerateCode(n - 1, draws[..n - 1]) + [Letter(draws[n - 1])]
  }

  /** Byte `i` of the code is `letters[draws[i]]`: the assignment inside the
      loop of `generateCode`. */
  lemma {:induction false} GenerateCodeReadsLetters(n: nat, draws: seq<LetterIndex>)
    requires |draws| == n
    ensures forall i :: 0 <= i < n ==> GenerateCode(n, draws)[i] == Letters[draws[i]]
  {
    forall i | 0 <= i < n
      ensures GenerateCode(n, draws)[i] == Letters[draws[i]]
    {
      LetterIsLetters(draws[i]);
    }
  }

  /** The draws behind a code, read back from it. */
  function Draws(code: Bytes): (draws: seq<LetterIndex>)
    requires forall i :: 0 <= i < |code| ==> IsAlphanumeric(code[i])
    ensures |draws| == |code|
  {
    seq(|code|, i requires 0 <= i < |code| => LetterIndexOf(code[i]))
  }

  /** Reading the draws back recovers them, so two codes collide exactly
      when their draws do. */
  lemma {:induction false} DrawsOfCode(n: nat, draws: seq<LetterIndex>)
    requires |draws| == n
    ensures Draws(GenerateCode(n, draws)) == draws
  {
    var code := GenerateCode(n, draws);
    forall i | 0 <= i < n
      ensures Draws(code)[i] == draws[i]
    {
      LetterBijection(draws[i], code[i]);
    }
  }

  lemma {:induction false} CodesCollideOnlyOnSameDraws(n: nat, d1: seq<LetterIndex>, d2: seq<LetterIndex>)
    requires |d1| == n && |d2| == n
    ensures GenerateCode(n, d1) == GenerateCode(n, d2) <==> d1 == d2
  {
    if GenerateCode(n, d1) == GenerateCode(n, d2) {
      DrawsOfCode(n, d1);
      DrawsOfCode(n, d2);
    }
  }
}
