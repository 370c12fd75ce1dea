/**
 Base64 as the VM converts bytes to text and back (section 4 of RFC 4648): the
 writing pass, the sizing pass of the decoder, and the round trip between them.
 */
module Base64 {
  import opened CText
  import Codec
  import opened Rfc4648

  type Digit = d: int | 0 <= d < 64

  const PAD: Byte := 61  // '='

  function Letter(d: Digit): Byte {
    if d < 26 then 65 + d
    else if d < 52 then 97 + (d - 26)
    else if d < 62 then 48 + (d - 52)
    else if d == 62 then 43
    else 47
  }

  /** bytes_base64_decode_char. */
  function DigitOf(ch: Byte): int {
    if 65 <= ch <= 90 then ch - 65
    else if 97 <= ch <= 122 then ch - 97 + 26
    else if 48 <= ch <= 57 then ch - 48 + 52
    else if ch == 43 then 62
    else if ch == 47 then 63
    else -1
  }

  lemma LetterRoundTrip(d: Digit)
    ensures DigitOf(Letter(d)) == d && Letter(d) != PAD && Letter(d) != 0
  {}

  lemma DigitRoundTrip(ch: Byte)
    requires DigitOf(ch) >= 0
    ensures DigitOf(ch) < 64 && Letter(DigitOf(ch)) == ch && ch != PAD
  {}

  // ----- one group

  /** The four letters of one, two or three bytes: 24 bits cut into four digits. */
  function EncodeGroup(g: seq<Byte>): (t: seq<Byte>)
    requires 1 <= |g| <= 3
    ensures |t| == 4
  {
    var b1: int, b2: int := if |g| > 1 then g[1] else 0, if |g| > 2 then g[2] else 0;
    [Letter(g[0] / 4), Letter(g[0] % 4 * 16 + b1 / 16),
     if |g| > 1 then Letter(b1 % 16 * 4 + b2 / 64) else PAD,
     if |g| > 2 then Letter(b2 % 64) else PAD]
  }

  /** How many bytes a group of four letters stands for, 0 when it is malformed. */
  function GroupSize(t: seq<Byte>): nat
    requires |t| == 4
  {
    if DigitOf(t[0]) < 0 || DigitOf(t[1]) < 0 then 0
    else if t[2] == PAD then (if t[3] == PAD then 1 else 0)
    else if DigitOf(t[2]) < 0 then 0
    else if t[3] == PAD then 2
    else if DigitOf(t[3]) < 0 then 0
    else 3
  }

  function Value(t: seq<Byte>, i: nat): Digit
    requires i < |t|
  {
    if DigitOf(t[i]) < 0 then 0 else DigitOf(t[i])
  }

  /** The bytes of the 24-bit chunk the four digits make. */
  function DecodeGroup(t: seq<Byte>): (g: seq<Byte>)
    requires |t| == 4 && GroupSize(t) > 0
    ensures |g| == GroupSize(t)
  {
    var c0: int, c1: int, c2: int, c3: int := Value(t, 0), Value(t, 1), if GroupSize(t) > 1 then Value(t, 2) else 0, if GroupSize(t) > 2 then Value(t, 3) else 0;
    var chunk := ((c0 * 64 + c1) * 64 + c2) * 64 + c3;
    [chunk / 256 / 256 % 256, chunk / 256 % 256, chunk % 256][..GroupSize(t)]
  }

  lemma Split4(x: int, q: int, r: int)
    requires x == q * 4 + r && 0 <= r < 4
    ensures x / 4 == q && x % 4 == r
  {}

  lemma Split16(x: int, q: int, r: int)
    requires x == q * 16 + r && 0 <= r < 16
    ensures x / 16 == q && x % 16 == r
  {}

  lemma Split256(x: int, q: int, r: int)
    requires x == q * 256 + r && 0 <= r < 256
    ensures x / 256 == q && x % 256 == r
  {}

  /** Four digits of six bits and three bytes of eight are the same 24 bits; `a`, `b` and `c`, `d` are where they part. */
  lemma Regroup(c0: int, a: int, b: int, c: int, d: int, c3: int)
    requires 0 <= c0 < 64 && 0 <= a < 4 && 0 <= b < 16 && 0 <= c < 16 && 0 <= d < 4 && 0 <= c3 < 64
    ensures var chunk := ((c0 * 64 + (a * 16 + b)) * 64 + (c * 4 + d)) * 64 + c3;
            chunk % 256 == d * 64 + c3 && chunk / 256 % 256 == b * 16 + c && chunk / 256 / 256 % 256 == c0 * 4 + a
  {
    var chunk := ((c0 * 64 + (a * 16 + b)) * 64 + (c * 4 + d)) * 64 + c3;
    var high, mid, low := c0 * 4 + a, b * 16 + c, d * 64 + c3;
    Split256(chunk, high * 256 + mid, low);
    Split256(high * 256 + mid, high, mid);
    Split256(high, 0, high);
  }

  /** A group of letters that stands for digits `c0`, `a*16+b`, `c*4+d`, `c3` decodes to those bits. */
  lemma DecodesTo(t: seq<Byte>, c0: int, a: int, b: int, c: int, d: int, c3: int)
    requires |t| == 4 && GroupSize(t) > 0 && 0 <= c0 < 64 && 0 <= a < 4 && 0 <= b < 16 && 0 <= c < 16 && 0 <= d < 4 && 0 <= c3 < 64
    requires Value(t, 0) == c0 && Value(t, 1) == a * 16 + b
    requires (if GroupSize(t) > 1 then Value(t, 2) else 0) == c * 4 + d && (if GroupSize(t) > 2 then Value(t, 3) else 0) == c3
    ensures DecodeGroup(t) == [c0 * 4 + a, b * 16 + c, d * 64 + c3][..GroupSize(t)]
  {
    Regroup(c0, a, b, c, d, c3);
  }

  lemma EncodedDigits(g: seq<Byte>)
    requires 1 <= |g| <= 3
    ensures var t := EncodeGroup(g);
            var b1, b2 := if |g| > 1 then g[1] else 0, if |g| > 2 then g[2] else 0;
            && GroupSize(t) == |g| && Value(t, 0) == g[0] / 4 && Value(t, 1) == g[0] % 4 * 16 + b1 / 16
            && (if |g| > 1 then Value(t, 2) else 0) == b1 % 16 * 4 + b2 / 64 && (if |g| > 2 then Value(t, 3) else 0) == b2 % 64
  {
    var b1: int, b2: int := if |g| > 1 then g[1] else 0, if |g| > 2 then g[2] else 0;
    LetterRoundTrip(g[0] / 4);
    LetterRoundTrip(g[0] % 4 * 16 + b1 / 16);
    LetterRoundTrip(b1 % 16 * 4 + b2 / 64);
    LetterRoundTrip(b2 % 64);
  }

  /** Decoding a group that was encoded gives its bytes back. */
  lemma GroupRoundTrip(g: seq<Byte>)
    requires 1 <= |g| <= 3
    ensures GroupSize(EncodeGroup(g)) == |g| && DecodeGroup(EncodeGroup(g)) == g
  {
    var b0: int, b1: int, b2: int := g[0], if |g| > 1 then g[1] else 0, if |g| > 2 then g[2] else 0;
    EncodedDigits(g);
    DecodesTo(EncodeGroup(g), b0 / 4, b0 % 4, b1 / 16, b1 % 16, b2 / 64, b2 % 64);
  }

  /** The unused low bits of a padded group are zero, as an encoder leaves them. */
  predicate CanonicalGroup(t: seq<Byte>)
    requires |t| == 4
  {
    (GroupSize(t) == 1 ==> Value(t, 1) % 16 == 0) && (GroupSize(t) == 2 ==> Value(t, 2) % 4 == 0)
  }

  /** Encoding a decoded group gives its letters back exactly when its unused bits are zero. */
  lemma GroupBackIff(t: seq<Byte>)
    requires |t| == 4 && GroupSize(t) > 0
    ensures EncodeGroup(DecodeGroup(t)) == t <==> CanonicalGroup(t)
  {
    var n := GroupSize(t);
    var c0: int, c1: int, c2: int, c3: int := Value(t, 0), Value(t, 1), if n > 1 then Value(t, 2) else 0, if n > 2 then Value(t, 3) else 0;
    var a, b, c, d := c1 / 16, c1 % 16, c2 / 4, c2 % 4;
    DecodesTo(t, c0, a, b, c, d, c3);
    EncodedAs(t, n, c0, a, b, c, d, c3);
  }

  lemma EncodedAs(t: seq<Byte>, n: nat, c0: int, a: int, b: int, c: int, d: int, c3: int)
    requires |t| == 4 && n == GroupSize(t) > 0 && 0 <= c0 < 64 && 0 <= a < 4 && 0 <= b < 16 && 0 <= c < 16 && 0 <= d < 4 && 0 <= c3 < 64
    requires Value(t, 0) == c0 && Value(t, 1) == a * 16 + b
    requires (if n > 1 then Value(t, 2) else 0) == c * 4 + d && (if n > 2 then Value(t, 3) else 0) == c3
    ensures EncodeGroup([c0 * 4 + a, b * 16 + c, d * 64 + c3][..n]) == t <==> (n == 1 ==> b == 0) && (n == 2 ==> d == 0)
  {
    EncodesBits(n, c0, a, b, c, d, c3);
    forall i | 0 <= i < 4 && DigitOf(t[i]) >= 0 ensures Letter(Value(t, i)) == t[i] { DigitRoundTrip(t[i]); }
    LettersDiffer(a * 16, a * 16 + b);
    LettersDiffer(c * 4, c * 4 + d);
    var e := EncodeGroup([c0 * 4 + a, b * 16 + c, d * 64 + c3][..n]);
    assert e[0] == t[0] && e[3] == t[3];
    assert e[1] == t[1] <==> (n == 1 ==> b == 0);
    assert e[2] == t[2] <==> (n == 2 ==> d == 0);
  }

  lemma LettersDiffer(x: Digit, y: Digit)
    ensures Letter(x) == Letter(y) <==> x == y
  {
    LetterRoundTrip(x);
    LetterRoundTrip(y);
  }

  lemma EncodesBits(n: nat, c0: int, a: int, b: int, c: int, d: int, c3: int)
    requires 1 <= n <= 3 && 0 <= c0 < 64 && 0 <= a < 4 && 0 <= b < 16 && 0 <= c < 16 && 0 <= d < 4 && 0 <= c3 < 64
    ensures EncodeGroup([c0 * 4 + a, b * 16 + c, d * 64 + c3][..n])
         == [Letter(c0), Letter(if n == 1 then a * 16 else a * 16 + b),
             if n == 1 then PAD else if n == 2 then Letter(c * 4) else Letter(c * 4 + d), if n < 3 then PAD else Letter(c3)]
  {
    Split4(c0 * 4 + a, c0, a);
    Split16(b * 16 + c, b, c);
    Split64(d * 64 + c3, d, c3);
  }

  lemma Split64(x: int, q: int, r: int)
    requires x == q * 64 + r && 0 <= r < 64
    ensures x / 64 == q && x % 64 == r
  {}

  // ----- whole texts

  function EncodeBytes(d: seq<Byte>): (t: seq<Byte>) {
    if d == [] then []
    else if |d| <= 3 then EncodeGroup(d)
    else EncodeGroup(d[..3]) + EncodeBytes(d[3..])
  }

  /** Four letters for every three bytes begun. */
  lemma {:induction false} EncodedLength(d: seq<Byte>)
    ensures |EncodeBytes(d)| == (|d| + 2) / 3 * 4
    decreases |d|
  {
    if |d| > 3 {
      EncodedLength(d[3..]);
      assert (|d| + 2) / 3 == (|d| - 3 + 2) / 3 + 1;
    }
  }

  datatype Decoding = Bad | Good(bytes: seq<Byte>)

  /** Groups of four; a padded group only at the very end. */
  function DecodeText(t: seq<Byte>): Decoding {
    if t == [] then Good([])
    else if |t| < 4 || GroupSize(t[..4]) == 0 then Bad
    else if GroupSize(t[..4]) < 3 && |t| > 4 then Bad
    else match DecodeText(t[4..])
      case Bad => Bad
      case Good(rest) => Good(DecodeGroup(t[..4]) + rest)
  }

  /** Decoding what was encoded is the identity, for all bytes. */
  lemma {:induction false} RoundTrip(d: seq<Byte>)
    ensures DecodeText(EncodeBytes(d)) == Good(d)
    decreases |d|
  {
    if d != [] {
      var g, rest := if |d| <= 3 then d else d[..3], if |d| <= 3 then [] else d[3..];
      var t := EncodeBytes(d);
      GroupRoundTrip(g);
      RoundTrip(rest);
      assert t == EncodeGroup(g) + EncodeBytes(rest);
      assert t[..4] == EncodeGroup(g) && t[4..] == EncodeBytes(rest);
      assert d == g + rest;
    }
  }

  ghost predicate Canonical(t: seq<Byte>)
    decreases |t|
  {
    |t| >= 4 ==> CanonicalGroup(t[..4]) && Canonical(t[4..])
  }

  /** Encoding what was decoded gives the text back exactly when its unused bits are zero. */
  lemma {:induction false} BackIff(t: seq<Byte>)
    requires DecodeText(t).Good?
    ensures EncodeBytes(DecodeText(t).bytes) == t <==> Canonical(t)
    decreases |t|
  {
    if t != [] {
      var g, rest := DecodeGroup(t[..4]), DecodeText(t[4..]).bytes;
      GroupBackIff(t[..4]);
      BackIff(t[4..]);
      if |t| == 4 {
        assert t[4..] == [] && g + rest == g && t[..4] == t;
      } else {
        assert (g + rest)[..3] == g && (g + rest)[3..] == rest;
        SomeBytes(t[4..]);
        assert EncodeBytes(g + rest) == EncodeGroup(g) + EncodeBytes(rest);
        assert EncodeBytes(g + rest)[..4] == EncodeGroup(g) && EncodeBytes(g + rest)[4..] == EncodeBytes(rest);
        assert t == t[..4] + t[4..];
      }
    }
  }

  lemma SomeBytes(t: seq<Byte>)
    requires t != [] && DecodeText(t).Good?
    ensures |DecodeText(t).bytes| >= 1
  {}

  // ----- against the standard

  lemma LetterIs(d: Digit)
    ensures Letter(d) == LetterOf(d)
  {
    LettersByValue(d);
  }

  lemma DigitIs(ch: Byte)
    ensures InAlphabet(ch) <==> DigitOf(ch) >= 0
    ensures Place(ch) == if DigitOf(ch) < 0 then 0 else DigitOf(ch)
  {
    PlaceByValue(ch);
  }

  lemma FirstSix(b0: Byte, b1: int)
    requires 0 <= b1 < 256
    ensures (b0 * 256 + b1) / 1024 % 64 == b0 / 4 && (b0 * 256 + b1) / 16 % 64 == b0 % 4 * 16 + b1 / 16
  {
    Split4(b0, b0 / 4, b0 % 4);
    assert (b0 * 256 + b1) / 16 == b0 * 16 + b1 / 16;
  }

  lemma LastSix(b1: int, b2: int)
    requires 0 <= b1 < 256 && 0 <= b2 < 256
    ensures (b1 * 256 + b2) / 64 % 64 == b1 % 16 * 4 + b2 / 64
  {
    assert (b1 * 256 + b2) / 64 == b1 * 4 + b2 / 64;
    Split16(b1, b1 / 16, b1 % 16);
    Split64(b1 * 4 + b2 / 64, b1 / 16, b1 % 16 * 4 + b2 / 64);
  }

  lemma SixBitsFirst(d: seq<Byte>, b0: Byte, b1: Byte)
    requires ByteAt(d, 0) == b0 && ByteAt(d, 1) == b1
    ensures SixBits(d, 0) == b0 / 4 && SixBits(d, 1) == b0 % 4 * 16 + b1 / 16
  {
    assert Pow2(10) == 1024 && Pow2(4) == 16;
    FirstSix(b0, b1);
  }

  lemma SixBitsLast(d: seq<Byte>, b1: Byte, b2: Byte)
    requires ByteAt(d, 1) == b1 && ByteAt(d, 2) == b2
    ensures SixBits(d, 2) == b1 % 16 * 4 + b2 / 64 && SixBits(d, 3) == b2 % 64
  {
    assert Pow2(6) == 64 && Pow2(8) == 256;
    LastSix(b1, b2);
    Split256(b2 * 256 + ByteAt(d, 3), b2, ByteAt(d, 3));
  }

  /** The letters of the first three bytes of `d`. */
  lemma GroupCoded(d: seq<Byte>, g: seq<Byte>)
    requires 1 <= |g| <= 3 && g <= d && (|g| < 3 ==> g == d)
    ensures EncodeGroup(g) == [CodeAt(d, 0), CodeAt(d, 1), CodeAt(d, 2), CodeAt(d, 3)]
  {
    var b0: Byte, b1: Byte, b2: Byte := g[0], if |g| > 1 then g[1] else 0, if |g| > 2 then g[2] else 0;
    SixBitsFirst(d, b0, b1);
    SixBitsLast(d, b1, b2);
    forall x: Digit ensures Letter(x) == LetterOf(x) { LetterIs(x); }
    assert 6 * 1 < 8 * |d| && (6 * 2 < 8 * |d| <==> |g| > 1) && (6 * 3 < 8 * |d| <==> |g| > 2);
  }

  lemma CodeShifts(d: seq<Byte>, j: nat)
    requires |d| >= 3
    ensures CodeAt(d, j + 4) == CodeAt(d[3..], j)
  {
    assert 6 * (j + 4) / 8 == 6 * j / 8 + 3 && 6 * (j + 4) % 8 == 6 * j % 8;
  }

  /** The encoding is the text of the standard, for all bytes. */
  lemma {:induction false} EncodedByValue(d: seq<Byte>)
    ensures IsTextOf(EncodeBytes(d), d)
    decreases |d|
  {
    EncodedLength(d);
    var t := EncodeBytes(d);
    if d != [] {
      var g, rest := if |d| <= 3 then d else d[..3], if |d| <= 3 then [] else d[3..];
      assert t == EncodeGroup(g) + EncodeBytes(rest);
      EncodedByValue(rest);
      forall j | 0 <= j < |t| ensures t[j] == CodeAt(d, j) {
        if j < 4 {
          GroupCoded(d, g);
        } else {
          CodeShifts(d, j - 4);
        }
      }
    }
  }

  /** The end of the text: one byte over leaves "==", two leave "=", and '=' stands nowhere else. */
  lemma PaddingByValue(d: seq<Byte>)
    ensures var t := EncodeBytes(d); var n := |t| - (if |d| % 3 == 0 then 0 else 3 - |d| % 3);
            0 <= n <= |t| && forall j :: 0 <= j < |t| ==> (t[j] == 61 <==> j >= n)
  {
    EncodedByValue(d);
    var t := EncodeBytes(d);
    forall j | 0 <= j < |t| ensures t[j] == 61 <==> 6 * j >= 8 * |d| {
      if 6 * j < 8 * |d| { LettersByValue(SixBits(d, j)); }
    }
    LastBit(|d| / 3, |d| % 3, |d|);
  }

  /** Where the bits of `n` bytes end among the letters. */
  lemma LastBit(q: nat, r: nat, n: nat)
    requires r < 3 && n == 3 * q + r
    ensures (n + 2) / 3 * 4 == if r == 0 then 4 * q else 4 * q + 4
    ensures forall j :: 6 * j >= 8 * n <==> j >= if r == 0 then 4 * q else 4 * q + r + 1
  {
    assert (n + 2) / 3 == if r == 0 then q else q + 1;
  }

  lemma Eights(c0: int, a: int, b: int, c: int, d: int, c3: int)
    requires 0 <= c0 < 64 && 0 <= a < 4 && 0 <= b < 16 && 0 <= c < 16 && 0 <= d < 4 && 0 <= c3 < 64
    ensures (c0 * 64 + (a * 16 + b)) / 16 % 256 == c0 * 4 + a && ((a * 16 + b) * 64 + (c * 4 + d)) / 4 % 256 == b * 16 + c && ((c * 4 + d) * 64 + c3) % 256 == d * 64 + c3
  {
    Split16(c0 * 64 + (a * 16 + b), c0 * 4 + a, b);
    Split4((a * 16 + b) * 64 + (c * 4 + d), (a * 16 + b) * 16 + c, d);
    Split256((a * 16 + b) * 16 + c, a, b * 16 + c);
    Split256((c * 4 + d) * 64 + c3, c, d * 64 + c3);
  }

  lemma EightBitsFirst(p: seq<nat>, c0: nat, c1: nat, c2: nat, c3: nat)
    requires |p| >= 4 && p[0] == c0 && p[1] == c1 && p[2] == c2 && p[3] == c3
    ensures EightBits(p, 0) == (c0 * 64 + c1) / 16 % 256 && EightBits(p, 1) == (c1 * 64 + c2) / 4 % 256 && EightBits(p, 2) == (c2 * 64 + c3) % 256
  {
    assert Pow2(4) == 16 && Pow2(2) == 4 && Pow2(0) == 1;
  }

  lemma PlacesAre(t: seq<Byte>, g: seq<Byte>)
    requires |g| == 4 && g <= t
    ensures Places(t)[0] == Value(g, 0) && Places(t)[1] == Value(g, 1) && Places(t)[2] == Value(g, 2) && Places(t)[3] == Value(g, 3)
  {
    DigitIs(t[0]);
    DigitIs(t[1]);
    DigitIs(t[2]);
    DigitIs(t[3]);
  }

  /** The bytes of the first group of a text. */
  lemma GroupDecoded(t: seq<Byte>, g: seq<Byte>)
    requires |g| == 4 && g <= t && GroupSize(g) > 0
    ensures DecodeGroup(g) == [EightBits(Places(t), 0), EightBits(Places(t), 1), EightBits(Places(t), 2)][..GroupSize(g)]
  {
    PlacesAre(t, g);
    GroupNumbers(Places(t), g);
  }

  lemma GroupNumbers(p: seq<nat>, g: seq<Byte>)
    requires |g| == 4 && |p| >= 4 && GroupSize(g) > 0 && p[0] == Value(g, 0) && p[1] == Value(g, 1) && p[2] == Value(g, 2) && p[3] == Value(g, 3)
    ensures DecodeGroup(g) == [EightBits(p, 0), EightBits(p, 1), EightBits(p, 2)][..GroupSize(g)]
  {
    var n := GroupSize(g);
    EightBitsFirst(p, p[0], p[1], p[2], p[3]);
    GroupBits(g, p[0], p[1], if n > 1 then p[2] else 0, if n > 2 then p[3] else 0);
  }

  lemma GroupBits(g: seq<Byte>, c0: Digit, c1: Digit, c2: Digit, c3: Digit)
    requires |g| == 4 && GroupSize(g) > 0 && c0 == Value(g, 0) && c1 == Value(g, 1)
    requires c2 == (if GroupSize(g) > 1 then Value(g, 2) else 0) && c3 == (if GroupSize(g) > 2 then Value(g, 3) else 0)
    ensures DecodeGroup(g) == [(c0 * 64 + c1) / 16 % 256, (c1 * 64 + c2) / 4 % 256, (c2 * 64 + c3) % 256][..GroupSize(g)]
  {
    DecodesTo(g, c0, c1 / 16, c1 % 16, c2 / 4, c2 % 4, c3);
    Eights(c0, c1 / 16, c1 % 16, c2 / 4, c2 % 4, c3);
    Split16(c1, c1 / 16, c1 % 16);
    Split4(c2, c2 / 4, c2 % 4);
  }

  lemma EightShifts(p: seq<nat>, rest: seq<nat>, i: nat)
    requires |p| >= 4 && p[4..] == rest
    ensures EightBits(p, i + 3) == EightBits(rest, i)
  {
    assert 8 * (i + 3) / 6 == 8 * i / 6 + 4 && 8 * (i + 3) % 6 == 8 * i % 6;
  }

  /** What is decoded is what the text stands for in the standard, byte by byte. */
  lemma {:induction false} DecodedByValue(t: seq<Byte>) returns (pad: nat)
    requires DecodeText(t).Good?
    ensures StandsFor(t, pad, DecodeText(t).bytes)
    decreases |t|
  {
    pad := 0;
    if t != [] {
      var g, rest := t[..4], t[4..];
      var below := DecodedByValue(rest);
      GroupPadded(g);
      GroupDecoded(t, g);
      if rest == [] {
        pad := 3 - GroupSize(g);
        assert t == g && DecodeText(t).bytes == DecodeGroup(g);
      } else {
        pad := below;
        JoinStands(t, g, rest, pad, DecodeGroup(g), DecodeText(rest).bytes);
      }
    }
  }

  /** A full group in front of a text that stands for some bytes. */
  lemma JoinStands(t: seq<Byte>, g: seq<Byte>, rest: seq<Byte>, pad: nat, first: seq<Byte>, d: seq<Byte>)
    requires t == g + rest && |g| == 4 && Padded(g, 0) && StandsFor(rest, pad, d)
    requires first == [EightBits(Places(t), 0), EightBits(Places(t), 1), EightBits(Places(t), 2)]
    ensures StandsFor(t, pad, first + d)
  {
    assert Places(t)[4..] == Places(rest);
    JoinNumbers(Places(t), Places(rest), first, d);
    JoinPadded(t, g, rest, pad);
    assert |t| == 4 + |rest| && |t| / 4 == |rest| / 4 + 1;
  }

  lemma JoinNumbers(p: seq<nat>, q: seq<nat>, first: seq<Byte>, d: seq<Byte>)
    requires |p| >= 4 && p[4..] == q && first == [EightBits(p, 0), EightBits(p, 1), EightBits(p, 2)] && forall i :: 0 <= i < |d| ==> d[i] == EightBits(q, i)
    ensures forall i :: 0 <= i < |first + d| ==> (first + d)[i] == EightBits(p, i)
  {
    forall i | 0 <= i < |d| ensures d[i] == EightBits(p, i + 3) { EightShifts(p, q, i); }
    forall i | 0 <= i < |first + d| ensures (first + d)[i] == EightBits(p, i) {
      if i >= 3 { assert d[i - 3] == EightBits(p, i - 3 + 3); }
    }
  }

  lemma JoinPadded(t: seq<Byte>, g: seq<Byte>, rest: seq<Byte>, pad: nat)
    requires t == g + rest && |g| == 4 && Padded(g, 0) && Padded(rest, pad)
    ensures Padded(t, pad)
  {
    forall i | 0 <= i < |t| ensures if i < |t| - pad then InAlphabet(t[i]) else t[i] == 61 {
      if i < 4 { assert t[i] == g[i]; } else { assert t[i] == rest[i - 4]; }
    }
  }

  lemma GroupPadded(g: seq<Byte>)
    requires |g| == 4 && GroupSize(g) > 0
    ensures Padded(g, 3 - GroupSize(g))
  {
    forall k | 0 <= k < 4 ensures InAlphabet(g[k]) <==> DigitOf(g[k]) >= 0 { DigitIs(g[k]); }
  }

  lemma PaddedSize(g: seq<Byte>, pad: nat)
    requires |g| == 4 && Padded(g, pad)
    ensures GroupSize(g) == 3 - pad
  {
    DigitIs(g[0]);
    DigitIs(g[1]);
    DigitIs(g[2]);
    DigitIs(g[3]);
  }

  lemma PaddedParts(t: seq<Byte>, pad: nat)
    requires Padded(t, pad) && |t| > 4
    ensures Padded(t[..4], 0) && Padded(t[4..], pad)
  {
    var g, rest := t[..4], t[4..];
    assert forall i :: 0 <= i < 4 ==> g[i] == t[i];
    assert forall i :: 0 <= i < |rest| ==> rest[i] == t[i + 4];
  }

  /** Every text of letters padded as the standard says is accepted. */
  lemma {:induction false} PaddedDecodes(t: seq<Byte>, pad: nat)
    requires Padded(t, pad)
    ensures DecodeText(t).Good?
    decreases |t|
  {
    if |t| > 4 {
      PaddedParts(t, pad);
      PaddedSize(t[..4], 0);
      PaddedDecodes(t[4..], pad);
      DecodeStep(t);
    } else if t != [] {
      assert t[..4] == t && t[4..] == [];
      PaddedSize(t, pad);
      DecodeStep(t);
    }
  }

  // ----- the passes

  /** Four divides the length of every accepted text. */
  lemma {:induction false} AcceptedLength(t: seq<Byte>) returns (groups: nat)
    requires DecodeText(t).Good?
    ensures |t| == 4 * groups
    decreases |t|
  {
    groups := 0;
    if t != [] {
      groups := AcceptedLength(t[4..]);
      groups := groups + 1;
    }
  }

  ghost predicate Joined(t: seq<Byte>, i: nat, done: seq<Byte>)
    requires i <= |t|
  {
    match DecodeText(t[i..])
    case Bad => DecodeText(t) == Bad
    case Good(rest) => DecodeText(t) == Good(done + rest)
  }

  lemma JoinNext(t: seq<Byte>, i: nat, done: seq<Byte>)
    requires i + 4 <= |t| && Joined(t, i, done)
    ensures var g := t[i..i + 4];
            if GroupSize(g) == 0 || (GroupSize(g) < 3 && i + 4 != |t|) then DecodeText(t) == Bad else Joined(t, i + 4, done + DecodeGroup(g))
  {
    assert t[i..][..4] == t[i..i + 4] && t[i..][4..] == t[i + 4..];
    var g := t[i..i + 4];
    if !(GroupSize(g) == 0 || (GroupSize(g) < 3 && i + 4 != |t|)) {
      DecodeStep(t[i..]);
      if DecodeText(t[i + 4..]).Good? { Codec.Associative(done, DecodeGroup(g), DecodeText(t[i + 4..]).bytes); }
    }
  }

  lemma DecodeStep(u: seq<Byte>)
    requires |u| >= 4 && GroupSize(u[..4]) > 0 && (GroupSize(u[..4]) == 3 || |u| == 4)
    ensures DecodeText(u) == match DecodeText(u[4..]) case Bad => Bad case Good(rest) => Good(DecodeGroup(u[..4]) + rest)
  {}

  /** The buffer holds as much of the output as it has room for. */
  ghost predicate Fills(written: seq<Byte>, done: seq<Byte>, hasBuffer: bool, capacity: nat) {
    written == if hasBuffer then done[..if |done| <= capacity then |done| else capacity] else []
  }

  method WriteGroup(bytes: seq<Byte>, out: nat, written: seq<Byte>, hasBuffer: bool, capacity: nat, ghost done: seq<Byte>) returns (out': nat, written': seq<Byte>)
    requires out == |done| && Fills(written, done, hasBuffer, capacity)
    ensures out' == |done| + |bytes| && Fills(written', done + bytes, hasBuffer, capacity)
  {
    out', written' := out, written;
    assert done + bytes[..0] == done;
    for k := 0 to |bytes|
      invariant out' == |done| + k && Fills(written', done + bytes[..k], hasBuffer, capacity)
    {
      if hasBuffer && out' < capacity {
        written' := written' + [bytes[k]];
      }
      out' := out' + 1;
      assert done + bytes[..k + 1] == done + bytes[..k] + [bytes[k]];
    }
    assert bytes[..|bytes|] == bytes;
  }

  /** aivm_bytes_from_base64. With no output buffer it only sizes; otherwise it writes as far as the buffer goes
      and fails when that is not far enough. Both passes accept the same texts and give the same length. */
  method FromBase64(t: Text, hasBuffer: bool, capacity: nat) returns (ok: bool, length: nat, written: seq<Byte>)
    ensures ok <==> DecodeText(t).Good? && (hasBuffer ==> |DecodeText(t).bytes| <= capacity)
    ensures ok ==> length == |DecodeText(t).bytes|
    ensures ok && hasBuffer ==> written == DecodeText(t).bytes
    ensures DecodeText(t).Good? <==> exists pad: nat :: Padded(t, pad)
    ensures DecodeText(t).Good? ==> exists pad: nat :: StandsFor(t, pad, DecodeText(t).bytes)
  {
    if pad: nat :| Padded(t, pad) { PaddedDecodes(t, pad); }
    if DecodeText(t).Good? { ghost var pad := DecodedByValue(t); }
    length, written := 0, [];
    if |t| == 0 {
      return true, 0, [];
    }
    if |t| % 4 != 0 {
      if DecodeText(t).Good? { var groups := AcceptedLength(t); }
      return false, 0, [];
    }
    var out;
    ok, out, written := DecodeGroups(t, |t| / 4, hasBuffer, capacity);
    if !ok || (hasBuffer && out > capacity) {
      return false, 0, written;
    }
    length := out;
  }

  /** The loop over the groups. */
  method DecodeGroups(t: Text, ghost groups: nat, hasBuffer: bool, capacity: nat) returns (ok: bool, out: nat, written: seq<Byte>)
    requires |t| == 4 * groups
    ensures ok <==> DecodeText(t).Good?
    ensures ok ==> out == |DecodeText(t).bytes| && Fills(written, DecodeText(t).bytes, hasBuffer, capacity)
  {
    out, written := 0, [];
    var i := 0;
    ghost var done: seq<Byte>, k: nat := [], 0;
    assert t[0..] == t;
    while i < |t|
      invariant i == 4 * k && k <= groups && out == |done| && Joined(t, i, done)
      invariant Fills(written, done, hasBuffer, capacity)
    {
      JoinNext(t, i, done);
      var g := t[i..i + 4];
      var size := GroupSize(g);
      if size == 0 || (size < 3 && i + 4 != |t|) {
        return false, 0, written;
      }
      var bytes := DecodeGroup(g);
      out, written := WriteGroup(bytes, out, written, hasBuffer, capacity, done);
      done, k := done + bytes, k + 1;
      i := i + 4;
    }
    assert t[i..] == [];
    assert done + [] == done;
    ok := true;
  }

  ghost predicate Coded(d: seq<Byte>, i: nat, out: seq<Byte>)
    requires i <= |d|
  {
    EncodeBytes(d) == out + EncodeBytes(d[i..])
  }

  lemma CodeNext(d: seq<Byte>, i: nat, out: seq<Byte>, n: nat)
    requires i < |d| && Coded(d, i, out) && n == (if |d| - i >= 3 then 3 else |d| - i)
    ensures Coded(d, i + n, out + EncodeGroup(d[i..i + n]))
  {
    assert d[i..][..n] == d[i..i + n] && d[i..][n..] == d[i + n..];
    if |d| - i <= 3 { assert d[i..i + n] == d[i..] && d[i + n..] == []; }
    assert EncodeBytes(d[i..]) == EncodeGroup(d[i..i + n]) + EncodeBytes(d[i + n..]);
  }

  /** aivm_bytes_to_base64: needs room for the text and its NUL. */
  method ToBase64(d: seq<Byte>, capacity: nat) returns (ok: bool, text: Text)
    ensures ok <==> (|d| + 2) / 3 * 4 < capacity
    ensures ok ==> text == EncodeBytes(d) && IsTextOf(text, d)
  {
    EncodedByValue(d);
    text := [];
    if capacity == 0 {
      return false, [];
    }
    var i := 0;
    assert d[0..] == d;
    while i < |d|
      invariant 0 <= i <= |d| && Coded(d, i, text) && |text| < capacity
      decreases |d| - i
    {
      var n := if |d| - i >= 3 then 3 else |d| - i;
      CodeNext(d, i, text, n);
      if |text| + 4 >= capacity {
        return false, text;
      }
      text := text + EncodeGroup(d[i..i + n]);
      i := i + n;
    }
    assert d[i..] == [];
    ok := true;
  }
}
