/**
 What section 4 of RFC 4648 says of a text and the bytes it stands for, letter by
 letter, in the bits of each.
 */
module Rfc4648 {
  import opened CText

  const ALPHABET: string := "ABCDEFGHIJKLM" + "NOPQRSTUVWXYZ" + "abcdefghijklm" + "nopqrstuvwxyz" + "0123456789" + "+/"

  /** The letter of six bits. */
  function LetterOf(x: nat): int
    requires x < 64
  {
    ALPHABET[x] as int
  }

  /** The first place of a byte in the alphabet from `x` on, -1 when there is none. */
  function PlaceFrom(ch: int, x: nat): (p: int)
    requires x <= 64
    ensures -1 <= p < 64
    decreases 64 - x
  {
    if x == 64 then -1 else if LetterOf(x) == ch then x else PlaceFrom(ch, x + 1)
  }

  predicate InAlphabet(ch: int) {
    PlaceFrom(ch, 0) >= 0
  }

  /** Where a letter stands in the alphabet, 0 for what is no letter. */
  function Place(ch: int): (x: nat)
    ensures x < 64
  {
    if InAlphabet(ch) then PlaceFrom(ch, 0) else 0
  }

  function Pow2(n: int): (p: nat)
    ensures p > 0
  {
    if n <= 0 then 1 else 2 * Pow2(n - 1)
  }

  function ByteAt(d: seq<Byte>, i: nat): int {
    if i < |d| then d[i] else 0
  }

  /** The six bits of `d` from bit 6j on, the most significant first, with zeros behind the end: they lie in two bytes. */
  function SixBits(d: seq<Byte>, j: nat): (x: nat)
    ensures x < 64
  {
    (ByteAt(d, 6 * j / 8) * 256 + ByteAt(d, 6 * j / 8 + 1)) / Pow2(10 - 6 * j % 8) % 64
  }

  /** Byte `j` of the text of `d`: the letter of its six bits, or '=' behind the last bit. */
  function CodeAt(d: seq<Byte>, j: nat): int {
    if 6 * j < 8 * |d| then LetterOf(SixBits(d, j)) else 61
  }

  /** `t` is the text of `d`: four letters for every three bytes begun. */
  ghost predicate IsTextOf(t: seq<Byte>, d: seq<Byte>) {
    |t| == (|d| + 2) / 3 * 4 && forall j :: 0 <= j < |t| ==> t[j] == CodeAt(d, j)
  }

  /** Letters in groups of four, with '=' in the last `pad` places, at most two. */
  ghost predicate Padded(t: seq<Byte>, pad: nat) {
    && |t| % 4 == 0 && pad <= 2 && pad <= |t|
    && forall i {:trigger t[i]} :: 0 <= i < |t| ==> if i < |t| - pad then InAlphabet(t[i]) else t[i] == 61
  }

  function Places(t: seq<Byte>): (p: seq<nat>)
    ensures |p| == |t| && forall i :: 0 <= i < |t| ==> p[i] == Place(t[i])
  {
    seq(|t|, i requires 0 <= i < |t| => Place(t[i]))
  }

  function NumberAt(p: seq<nat>, i: nat): nat {
    if i < |p| then p[i] else 0
  }

  /** The eight bits from bit 8i on of numbers of six bits each: they lie in two of them. */
  function EightBits(p: seq<nat>, i: nat): (b: Byte) {
    (NumberAt(p, 8 * i / 6) * 64 + NumberAt(p, 8 * i / 6 + 1)) / Pow2(4 - 8 * i % 6) % 256
  }

  /** The bytes that a text with `pad` places of padding stands for. */
  ghost predicate StandsFor(t: seq<Byte>, pad: nat, d: seq<Byte>) {
    Padded(t, pad) && |d| == |t| / 4 * 3 - pad && forall i :: 0 <= i < |d| ==> d[i] == EightBits(Places(t), i)
  }

  // ----- the alphabet by value

  lemma Capitals(x: nat)
    requires x < 26
    ensures LetterOf(x) == 65 + x
  {}

  lemma SmallLetters(x: nat)
    requires 26 <= x < 52
    ensures LetterOf(x) == 97 + (x - 26)
  {}

  lemma Numerals(x: nat)
    requires 52 <= x < 64
    ensures LetterOf(x) == if x < 62 then 48 + (x - 52) else if x == 62 then 43 else 47
  {}

  lemma LettersByValue(x: nat)
    requires x < 64
    ensures LetterOf(x) == if x < 26 then 65 + x else if x < 52 then 97 + (x - 26) else if x < 62 then 48 + (x - 52) else if x == 62 then 43 else 47
  {
    if x < 26 { Capitals(x); } else if x < 52 { SmallLetters(x); } else { Numerals(x); }
  }

  lemma {:induction false} PlaceFound(ch: int, x: nat, n: nat)
    requires x <= n < 64 && LetterOf(n) == ch
    ensures PlaceFrom(ch, x) == n
    decreases n - x
  {
    if x < n {
      LettersByValue(x);
      LettersByValue(n);
      PlaceFound(ch, x + 1, n);
    }
  }

  lemma {:induction false} NoPlace(ch: int, x: nat)
    requires x <= 64 && !(65 <= ch <= 90 || 97 <= ch <= 122 || 48 <= ch <= 57 || ch == 43 || ch == 47)
    ensures PlaceFrom(ch, x) == -1
    decreases 64 - x
  {
    if x < 64 {
      LettersByValue(x);
      NoPlace(ch, x + 1);
    }
  }

  lemma PlaceByValue(ch: int)
    ensures PlaceFrom(ch, 0) == if 65 <= ch <= 90 then ch - 65 else if 97 <= ch <= 122 then ch - 97 + 26 else if 48 <= ch <= 57 then ch - 48 + 52
                                else if ch == 43 then 62 else if ch == 47 then 63 else -1
  {
    var x := if 65 <= ch <= 90 then ch - 65 else if 97 <= ch <= 122 then ch - 97 + 26 else if 48 <= ch <= 57 then ch - 48 + 52
             else if ch == 43 then 62 else if ch == 47 then 63 else -1;
    if x >= 0 {
      LettersByValue(x);
      PlaceFound(ch, 0, x);
    } else {
      NoPlace(ch, 0);
    }
  }

  /** The padding is what the last two bytes show. */
  lemma PaddingShows(t: seq<Byte>, pad: nat)
    requires Padded(t, pad)
    ensures pad == if |t| == 0 || t[|t| - 1] != 61 then 0 else if t[|t| - 2] != 61 then 1 else 2
  {
    PlaceByValue(61);
    if |t| > 0 {
      var last, other := t[|t| - 1], t[|t| - 2];
    }
  }
}
