/**
 UTF-8 text as the VM handles it (section 4 of RFC 3629): the validator, rune
 stepping with its offset cache, and substring, removal and search by runes,
 each against sequences of Unicode scalars.
 */
module Utf8 {
  import opened CText
  import opened Codec

  /** A Unicode scalar other than NUL. */
  type Scalar = c: int | 1 <= c <= 0x10FFFF && !(0xD800 <= c <= 0xDFFF) witness 1

  /** The six-bit digits of a scalar are its remainders by 64. */
  function Encode(c: Scalar): (b: seq<Byte>)
    ensures 1 <= |b| <= 4
  {
    var q := c / 64;
    var p := q / 64;
    if c < 0x80 then [c]
    else if c < 0x800 then [0xC0 + q, 0x80 + c % 64]
    else if c < 0x10000 then [0xE0 + p, 0x80 + q % 64, 0x80 + c % 64]
    else [0xF0 + p / 64, 0x80 + p % 64, 0x80 + q % 64, 0x80 + c % 64]
  }

  function EncodeAll(cs: seq<Scalar>): seq<Byte> {
    Concat(Encode, cs)
  }

  /** The byte at `i`, or the terminating NUL. */
  function At(t: seq<Byte>, i: nat): Byte {
    if i < |t| then t[i] else 0
  }

  /** (b & 0xC0) == 0x80. */
  predicate Cont(b: Byte) {
    0x80 <= b <= 0xBF
  }

  // ----- the validator

  /** How many bytes the validator consumes at `i`, 0 when it rejects. */
  function Accepts(d: seq<Byte>, i: nat): nat
    requires i < |d|
  {
    var b0 := d[i];
    if b0 == 0 then 0
    else if b0 <= 0x7F then 1
    else if 0xC2 <= b0 <= 0xDF then (if Cont(At(d, i + 1)) then 2 else 0)
    else if b0 == 0xE0 then (if 0xA0 <= At(d, i + 1) <= 0xBF && Cont(At(d, i + 2)) then 3 else 0)
    else if 0xE1 <= b0 <= 0xEC || 0xEE <= b0 <= 0xEF then (if Cont(At(d, i + 1)) && Cont(At(d, i + 2)) then 3 else 0)
    else if b0 == 0xED then (if 0x80 <= At(d, i + 1) <= 0x9F && Cont(At(d, i + 2)) then 3 else 0)
    else if b0 == 0xF0 then (if 0x90 <= At(d, i + 1) <= 0xBF && Cont(At(d, i + 2)) && Cont(At(d, i + 3)) then 4 else 0)
    else if 0xF1 <= b0 <= 0xF3 then (if Cont(At(d, i + 1)) && Cont(At(d, i + 2)) && Cont(At(d, i + 3)) then 4 else 0)
    else if b0 == 0xF4 then (if 0x80 <= At(d, i + 1) <= 0x8F && Cont(At(d, i + 2)) && Cont(At(d, i + 3)) then 4 else 0)
    else 0
  }

  /** The value of the bytes of an accepted sequence. */
  function Decoded(d: seq<Byte>, i: nat): int
    requires i < |d|
  {
    var b0: int, b1: int, b2: int, b3: int := d[i], At(d, i + 1), At(d, i + 2), At(d, i + 3);
    match Accepts(d, i)
    case 1 => b0
    case 2 => (b0 - 0xC0) * 64 + (b1 - 0x80)
    case 3 => ((b0 - 0xE0) * 64 + (b1 - 0x80)) * 64 + (b2 - 0x80)
    case _ => (((b0 - 0xF0) * 64 + (b1 - 0x80)) * 64 + (b2 - 0x80)) * 64 + (b3 - 0x80)
  }

  predicate IsScalar(c: int) {
    1 <= c <= 0x10FFFF && !(0xD800 <= c <= 0xDFFF)
  }

  lemma DecodedScalar(d: seq<Byte>, i: nat)
    requires i < |d| && Accepts(d, i) > 0
    ensures IsScalar(Decoded(d, i)) && i + Accepts(d, i) <= |d|
  {}

  /** What the validator accepts is the encoding of the scalar it stands for. */
  lemma AcceptedEncodes(d: seq<Byte>, i: nat)
    requires i < |d| && Accepts(d, i) > 0
    ensures IsScalar(Decoded(d, i)) && i + Accepts(d, i) <= |d| && Encode(Decoded(d, i)) == d[i..i + Accepts(d, i)]
  {
    DecodedScalar(d, i);
    var n := Accepts(d, i);
    match n
    case 1 =>
    case 2 => Accepted2(d, i);
    case 3 => Accepted3(d, i);
    case _ => Accepted4(d, i);
  }

  lemma Accepted2(d: seq<Byte>, i: nat)
    requires i < |d| && Accepts(d, i) == 2
    ensures i + 2 <= |d| && Encode(Decoded(d, i)) == d[i..i + 2]
  {
    assert 0xC2 <= d[i] <= 0xDF && Cont(At(d, i + 1));
    Encode2(d[i], d[i + 1]);
    assert d[i..i + 2] == [d[i], d[i + 1]];
  }

  lemma Accepted3(d: seq<Byte>, i: nat)
    requires i < |d| && Accepts(d, i) == 3
    ensures i + 3 <= |d| && Encode(Decoded(d, i)) == d[i..i + 3]
  {
    assert 0xE0 <= d[i] <= 0xEF && Cont(At(d, i + 1)) && Cont(At(d, i + 2));
    Encode3(d[i], d[i + 1], d[i + 2]);
    assert d[i..i + 3] == [d[i], d[i + 1], d[i + 2]];
  }

  lemma Accepted4(d: seq<Byte>, i: nat)
    requires i < |d| && Accepts(d, i) == 4
    ensures i + 4 <= |d| && Encode(Decoded(d, i)) == d[i..i + 4]
  {
    assert 0xF0 <= d[i] <= 0xF4 && Cont(At(d, i + 1)) && Cont(At(d, i + 2)) && Cont(At(d, i + 3));
    Encode4(d[i], d[i + 1], d[i + 2], d[i + 3]);
    assert d[i..i + 4] == [d[i], d[i + 1], d[i + 2], d[i + 3]];
  }

  lemma Encode2(b0: int, b1: int)
    requires 0xC2 <= b0 <= 0xDF && 0x80 <= b1 <= 0xBF
    ensures Encode((b0 - 0xC0) * 64 + (b1 - 0x80)) == [b0, b1]
  {
    var c := (b0 - 0xC0) * 64 + (b1 - 0x80);
    Digits(c / 64, c, b0 - 0xC0, b1 - 0x80);
  }

  lemma Encode3(b0: int, b1: int, b2: int)
    requires 0xE0 <= b0 <= 0xEF && 0x80 <= b1 <= 0xBF && 0x80 <= b2 <= 0xBF && (b0 == 0xE0 ==> b1 >= 0xA0) && (b0 == 0xED ==> b1 <= 0x9F)
    ensures Encode(((b0 - 0xE0) * 64 + (b1 - 0x80)) * 64 + (b2 - 0x80)) == [b0, b1, b2]
  {
    var q := (b0 - 0xE0) * 64 + (b1 - 0x80);
    var c := q * 64 + (b2 - 0x80);
    Digits(c / 64, c, q, b2 - 0x80);
    Digits(q / 64, q, b0 - 0xE0, b1 - 0x80);
  }

  lemma Encode4(b0: int, b1: int, b2: int, b3: int)
    requires 0xF0 <= b0 <= 0xF4 && 0x80 <= b1 <= 0xBF && 0x80 <= b2 <= 0xBF && 0x80 <= b3 <= 0xBF && (b0 == 0xF0 ==> b1 >= 0x90) && (b0 == 0xF4 ==> b1 <= 0x8F)
    ensures Encode((((b0 - 0xF0) * 64 + (b1 - 0x80)) * 64 + (b2 - 0x80)) * 64 + (b3 - 0x80)) == [b0, b1, b2, b3]
  {
    var p := (b0 - 0xF0) * 64 + (b1 - 0x80);
    var q := p * 64 + (b2 - 0x80);
    var c := q * 64 + (b3 - 0x80);
    Digits(c / 64, c, q, b3 - 0x80);
    Digits(q / 64, q, p, b2 - 0x80);
    Digits(p / 64, p, b0 - 0xF0, b1 - 0x80);
  }

  lemma Digits(q: int, c: int, high: int, low: int)
    requires q == c / 64 && c == high * 64 + low && 0 <= low < 64
    ensures q == high && c % 64 == low
  {}

  /** Every encoding is accepted, whatever follows it, and stands for its scalar. */
  lemma EncodingAccepted(pre: seq<Byte>, c: Scalar, rest: seq<Byte>)
    ensures var d := pre + Encode(c) + rest; Accepts(d, |pre|) == |Encode(c)| && Decoded(d, |pre|) == c
  {
    var d, e, n := pre + Encode(c) + rest, Encode(c), |pre|;
    assert d[n] == e[0];
    if |e| > 1 { assert d[n + 1] == e[1]; }
    if |e| > 2 { assert d[n + 2] == e[2]; }
    if |e| > 3 { assert d[n + 3] == e[3]; }
    EncodingBytes(c);
  }

  /** The bytes of an encoding lie in the ranges the validator checks, and their digits make up the scalar. */
  lemma EncodingBytes(c: Scalar)
    ensures var e := Encode(c); Accepts(e, 0) == |e| && Decoded(e, 0) == c
  {
    var q := c / 64;
    var p := q / 64;
    assert c == q * 64 + c % 64 && q == p * 64 + q % 64 && p == p / 64 * 64 + p % 64;
  }

  ghost predicate IsEncoding(d: seq<Byte>) {
    exists cs: seq<Scalar> :: EncodeAll(cs) == d
  }

  lemma AcceptNext(d: seq<Byte>, i: nat, cs: seq<Scalar>)
    requires i < |d| && EncodeAll(cs) == d[..i] && Accepts(d, i) > 0
    ensures IsScalar(Decoded(d, i)) && i + Accepts(d, i) <= |d| && EncodeAll(cs + [Decoded(d, i)]) == d[..i + Accepts(d, i)]
  {
    AcceptedEncodes(d, i);
    var c: Scalar := Decoded(d, i);
    ConcatOne<Scalar>(Encode, cs, c);
    assert d[..i] + d[i..i + Accepts(d, i)] == d[..i + Accepts(d, i)];
  }

  /** Bytes that begin with an encoding begin with that of one scalar only. */
  lemma FirstScalar(c: Scalar, x: seq<Byte>, d: Scalar, y: seq<Byte>)
    requires Encode(c) + x == Encode(d) + y
    ensures c == d && x == y
  {
    EncodingAccepted([], c, x);
    EncodingAccepted([], d, y);
    assert [] + Encode(c) + x == Encode(c) + x && [] + Encode(d) + y == Encode(d) + y;
    assert (Encode(c) + x)[|Encode(c)|..] == x && (Encode(d) + y)[|Encode(d)|..] == y;
  }

  lemma EncodeHead(cs: seq<Scalar>)
    requires cs != []
    ensures EncodeAll(cs) == Encode(cs[0]) + EncodeAll(cs[1..])
  {}

  /** Two encodings of which one begins the other: the scalars begin the others. */
  lemma {:induction false} PrefixScalars(a: seq<Scalar>, b: seq<Scalar>)
    requires EncodeAll(a) <= EncodeAll(b)
    ensures a <= b
    decreases |a|
  {
    if a != [] {
      EncodeHead(a);
      var e, x, y := Encode(a[0]), EncodeAll(a[1..]), EncodeAll(b);
      assert b != [];
      EncodeHead(b);
      var rest := y[|e + x|..];
      assert y == (e + x) + rest == e + (x + rest);
      FirstScalar(a[0], x + rest, b[0], EncodeAll(b[1..]));
      PrefixScalars(a[1..], b[1..]);
    }
  }

  lemma EncodingUnique(a: seq<Scalar>, b: seq<Scalar>)
    requires EncodeAll(a) == EncodeAll(b)
    ensures a == b
  {
    PrefixScalars(a, b);
    PrefixScalars(b, a);
  }

  /** An accepted prefix followed by a byte the validator rejects is no encoding. */
  lemma RejectedNotEncoding(d: seq<Byte>, i: nat, cs: seq<Scalar>)
    requires i < |d| && EncodeAll(cs) == d[..i] && Accepts(d, i) == 0
    ensures !IsEncoding(d)
  {
    if all: seq<Scalar> :| EncodeAll(all) == d {
      assert EncodeAll(cs) <= EncodeAll(all);
      PrefixScalars(cs, all);
      var rest := all[|cs|..];
      assert all == cs + rest;
      ConcatJoin(Encode, cs, rest);
      assert rest != [];
      assert d == d[..i] + Encode(rest[0]) + EncodeAll(rest[1..]);
      EncodingAccepted(d[..i], rest[0], EncodeAll(rest[1..]));
    }
  }

  /** aivm_bytes_is_valid_utf8_without_nul accepts exactly the encodings of sequences of nonzero scalars. */
  method IsValid(d: seq<Byte>) returns (ok: bool)
    ensures ok <==> IsEncoding(d)
  {
    ghost var cs: seq<Scalar> := [];
    var i := 0;
    while i < |d|
      invariant 0 <= i <= |d| && EncodeAll(cs) == d[..i]
    {
      var n := Accepts(d, i);
      if n == 0 {
        RejectedNotEncoding(d, i, cs);
        return false;
      }
      AcceptNext(d, i, cs);
      cs := cs + [Decoded(d, i)];
      i := i + n;
    }
    assert d[..i] == d;
    ok := true;
  }

  // ----- stepping by runes

  /** utf8_next_index: total on any text; a byte that starts no sequence counts as one rune. */
  function NextIndex(t: Text, i: nat): (j: nat)
    requires i < |t|
    ensures i < j <= |t|
  {
    var ch := t[i];
    if ch < 0x80 then i + 1
    else if 0xC0 <= ch <= 0xDF && Cont(At(t, i + 1)) then i + 2
    else if 0xE0 <= ch <= 0xEF && Cont(At(t, i + 1)) && Cont(At(t, i + 2)) then i + 3
    else if 0xF0 <= ch <= 0xF7 && Cont(At(t, i + 1)) && Cont(At(t, i + 2)) && Cont(At(t, i + 3)) then i + 4
    else i + 1
  }

  /** The `n` bytes behind byte `i` begin with bits 10. */
  ghost predicate Followed(t: Text, i: nat, n: nat) {
    i + n < |t| && forall k :: i < k <= i + n ==> t[k] / 64 == 2
  }

  /** A rune step on any text, by the leading bits: 110, 1110 and 11110 before one, two and three bytes that begin with
      10 take them along; every other byte is a rune by itself. */
  lemma StepByBits(t: Text, i: nat)
    requires i < |t|
    ensures NextIndex(t, i) - i == if t[i] / 32 == 6 && Followed(t, i, 1) then 2 else if t[i] / 16 == 14 && Followed(t, i, 2) then 3
                                   else if t[i] / 8 == 30 && Followed(t, i, 3) then 4 else 1
  {
    assert Followed(t, i, 1) <==> Cont(At(t, i + 1));
    assert Followed(t, i, 2) <==> Cont(At(t, i + 1)) && Cont(At(t, i + 2));
    assert Followed(t, i, 3) <==> Cont(At(t, i + 1)) && Cont(At(t, i + 2)) && Cont(At(t, i + 3));
  }

  /** The byte offset of rune `r`, or the end of the text. */
  function Offset(t: Text, r: nat): (o: nat)
    ensures o <= |t|
  {
    if r == 0 then 0
    else
      var o := Offset(t, r - 1);
      if o < |t| then NextIndex(t, o) else o
  }

  lemma {:induction false} OffsetPastEnd(t: Text, r: nat, k: nat)
    requires Offset(t, r) == |t| && r <= k
    ensures Offset(t, k) == |t|
  {
    if k > r { OffsetPastEnd(t, r, k - 1); }
  }

  /** On accepted text a rune step is the length of the scalar there. */
  lemma NextIsScalar(t: Text, i: nat)
    requires i < |t| && Accepts(t, i) > 0
    ensures NextIndex(t, i) == i + Accepts(t, i)
  {}

  lemma SplitAt(cs: seq<Scalar>, k: nat)
    requires k < |cs|
    ensures var t := EncodeAll(cs); var o := |EncodeAll(cs[..k])|;
            o < |t| && NextIndex(t, o) == |EncodeAll(cs[..k + 1])|
  {
    var pre, c, rest := cs[..k], cs[k], cs[k + 1..];
    ConcatOne<Scalar>(Encode, pre, c);
    ConcatJoin<Scalar>(Encode, pre + [c], rest);
    assert pre + [c] == cs[..k + 1] && cs == cs[..k + 1] + rest;
    EncodingAccepted(EncodeAll(pre), c, EncodeAll(rest));
    NextIsScalar(EncodeAll(cs), |EncodeAll(pre)|);
  }

  /** The offset of rune `r` is the length of the encoding of the scalars before it. */
  lemma {:induction false} OffsetOfScalars(cs: seq<Scalar>, r: nat)
    ensures Offset(EncodeAll(cs), r) == |EncodeAll(cs[..if r <= |cs| then r else |cs|])|
  {
    if r == 0 {
      assert EncodeAll(cs[..0]) == [];
    } else {
      OffsetOfScalars(cs, r - 1);
      if r - 1 < |cs| {
        SplitAt(cs, r - 1);
      } else {
        assert cs[..|cs|] == cs;
      }
    }
  }

  /** utf8_rune_count. */
  method RuneCount(t: Text) returns (count: nat)
    ensures Offset(t, count) == |t| && forall r :: 0 <= r < count ==> Offset(t, r) < |t|
  {
    count := 0;
    var i := 0;
    while i < |t|
      invariant i == Offset(t, count) <= |t|
      invariant forall r :: 0 <= r < count ==> Offset(t, r) < |t|
      decreases |t| - i
    {
      i := NextIndex(t, i);
      count := count + 1;
    }
  }

  lemma CountIsScalars(cs: seq<Scalar>, count: nat)
    requires var t := EncodeAll(cs); Offset(t, count) == |t| && forall r :: 0 <= r < count ==> Offset(t, r) < |t|
    ensures count == |cs|
  {
    OffsetOfScalars(cs, |cs|);
    assert cs[..|cs|] == cs;
    if count < |cs| {
      OffsetOfScalars(cs, count);
      SplitAt(cs, count);
    }
  }

  /** STR_SCALAR_LENGTH counts the bytes that continue nothing. */
  function Starts(t: Text): nat {
    if t == [] then 0 else Starts(t[..|t| - 1]) + (if Cont(t[|t| - 1]) then 0 else 1)
  }

  method ScalarLength(t: Text) returns (count: nat)
    ensures count == Starts(t)
  {
    count := 0;
    for i := 0 to |t|
      invariant count == Starts(t[..i])
    {
      assert t[..i + 1][..i] == t[..i];
      if !Cont(t[i]) { count := count + 1; }
    }
    assert t[..|t|] == t;
  }

  lemma {:induction false} StartsConcat(a: Text, b: Text)
    ensures Starts(a + b) == Starts(a) + Starts(b)
  {
    if b == [] {
      assert a + b == a;
    } else {
      StartsConcat(a, b[..|b| - 1]);
      assert (a + b)[..|a + b| - 1] == a + b[..|b| - 1];
    }
  }

  lemma {:induction false} StartsHead(e: Text)
    requires e != [] && !Cont(e[0]) && forall k :: 1 <= k < |e| ==> Cont(e[k])
    ensures Starts(e) == 1
  {
    var k := |e| - 1;
    if k > 0 {
      StartsHead(e[..k]);
    } else {
      assert Starts(e[..0]) == 0;
    }
  }

  lemma StartsOne(c: Scalar)
    ensures Starts(Encode(c)) == 1
  {
    EncodingBytes(c);
    StartsHead(Encode(c));
  }

  /** Scalar length equals the number of scalars, hence of rune steps, on accepted text. */
  lemma {:induction false} ScalarLengthIsScalars(cs: seq<Scalar>)
    ensures Starts(EncodeAll(cs)) == |cs|
  {
    if cs != [] {
      StartsConcat(Encode(cs[0]), EncodeAll(cs[1..]));
      StartsOne(cs[0]);
      ScalarLengthIsScalars(cs[1..]);
    }
  }
}
