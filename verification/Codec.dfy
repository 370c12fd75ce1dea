/**
 Little-endian fields and lists of items over bytes. A codec is a parser and an
 encoder that undo each other: what parses is the encoding of the value parsed,
 and an encoding parses back whatever follows it. Lists of a codec's items are
 a codec again.
 */
module Codec {
  import opened CText

  const TWO32: int := 0x1_0000_0000
  const TWO63: int := 0x8000_0000_0000_0000
  const TWO64: int := 0x1_0000_0000_0000_0000

  datatype Parsed<+T> = Fail | Done(value: T, size: nat)

  // ----- fields

  function U32(n: int): (b: seq<Byte>)
    requires 0 <= n < TWO32
    ensures |b| == 4
  {
    [n % 256, n / 256 % 256, n / 256 / 256 % 256, n / 256 / 256 / 256]
  }

  function ReadU32(b: seq<Byte>): (n: int)
    requires |b| >= 4
    ensures 0 <= n < TWO32
  {
    b[0] as int + 256 * (b[1] as int + 256 * (b[2] as int + 256 * b[3] as int))
  }

  lemma Digit(n: int, low: int, high: int)
    requires n == low + 256 * high && 0 <= low < 256
    ensures n % 256 == low && n / 256 == high
  {}

  lemma U32Reads(n: int, rest: seq<Byte>)
    requires 0 <= n < TWO32
    ensures ReadU32(U32(n) + rest) == n
  {
    var b := U32(n) + rest;
    var n1, n2, n3 := n / 256, n / 256 / 256, n / 256 / 256 / 256;
    assert b[0] == n % 256 && b[1] == n1 % 256 && b[2] == n2 % 256 && b[3] == n3;
    assert n == n % 256 + 256 * n1 && n1 == n1 % 256 + 256 * n2 && n2 == n2 % 256 + 256 * n3;
  }

  lemma ReadU32Writes(b: seq<Byte>)
    requires |b| >= 4
    ensures U32(ReadU32(b)) == b[..4]
  {
    var n3: int := b[3];
    var n2 := b[2] as int + 256 * n3;
    var n1 := b[1] as int + 256 * n2;
    var n := b[0] as int + 256 * n1;
    Digit(n, b[0], n1);
    Digit(n1, b[1], n2);
    Digit(n2, b[2], n3);
  }

  /** A 64-bit field read as a two's complement integer. */
  function I64(n: int): (b: seq<Byte>)
    requires -TWO63 <= n < TWO63
    ensures |b| == 8
  {
    var m := if n < 0 then n + TWO64 else n;
    U32(m % TWO32) + U32(m / TWO32)
  }

  function ReadI64(b: seq<Byte>): (n: int)
    requires |b| >= 8
    ensures -TWO63 <= n < TWO63
  {
    var m := ReadU32(b) + ReadU32(b[4..]) * TWO32;
    if m >= TWO63 then m - TWO64 else m
  }

  lemma I64Reads(n: int, rest: seq<Byte>)
    requires -TWO63 <= n < TWO63
    ensures ReadI64(I64(n) + rest) == n
  {
    var m := if n < 0 then n + TWO64 else n;
    var b := I64(n) + rest;
    assert b == U32(m % TWO32) + (U32(m / TWO32) + rest);
    assert b[4..] == U32(m / TWO32) + rest;
    U32Reads(m % TWO32, U32(m / TWO32) + rest);
    U32Reads(m / TWO32, rest);
  }

  lemma ReadI64Writes(b: seq<Byte>)
    requires |b| >= 8
    ensures I64(ReadI64(b)) == b[..8]
  {
    var low, high := ReadU32(b), ReadU32(b[4..]);
    var m := low + high * TWO32;
    assert m % TWO32 == low && m / TWO32 == high;
    ReadU32Writes(b);
    ReadU32Writes(b[4..]);
    assert b[..8] == b[..4] + b[4..][..4];
  }

  /** A 32-bit field. */
  function Field(n: int): (b: seq<Byte>)
    ensures |b| == 4
  {
    U32(n % TWO32)
  }

  predicate Is32(n: int) {
    0 <= n < TWO32
  }

  lemma FieldReads(n: int, rest: seq<Byte>)
    requires Is32(n)
    ensures |Field(n) + rest| >= 4 && ReadU32(Field(n) + rest) == n && (Field(n) + rest)[4..] == rest
  {
    U32Reads(n, rest);
  }

  lemma FieldWrites(b: seq<Byte>)
    requires |b| >= 4
    ensures Field(ReadU32(b)) == b[..4] && b == Field(ReadU32(b)) + b[4..]
  {
    FieldIsU32(ReadU32(b));
    ReadU32Writes(b);
    assert b == b[..4] + b[4..];
  }

  lemma FieldIsU32(n: int)
    requires Is32(n)
    ensures Field(n) == U32(n)
  {
    assert n % TWO32 == n;
  }

  // ----- lists

  /** What a parser accepts at the front of some bytes is the encoding of what it returns. */
  ghost predicate Sound<T>(p: seq<Byte> -> Parsed<T>, f: T -> seq<Byte>, wf: T -> bool) {
    forall b {:trigger p(b)} :: p(b).Done? ==> wf(p(b).value) && 0 < p(b).size <= |b| && b[..p(b).size] == f(p(b).value)
  }

  /** An encoding parses back, whatever follows it. */
  ghost predicate Complete<T(!new)>(p: seq<Byte> -> Parsed<T>, f: T -> seq<Byte>, wf: T -> bool) {
    forall x, rest {:trigger p(f(x) + rest)} :: wf(x) ==> p(f(x) + rest) == Done(x, |f(x)|)
  }

  function Concat<T>(f: T -> seq<Byte>, xs: seq<T>): seq<Byte> {
    if xs == [] then [] else f(xs[0]) + Concat(f, xs[1..])
  }

  lemma Associative(x: seq<Byte>, y: seq<Byte>, z: seq<Byte>)
    ensures x + (y + z) == (x + y) + z
  {}

  lemma {:induction false} ConcatJoin<T>(f: T -> seq<Byte>, a: seq<T>, b: seq<T>)
    ensures Concat(f, a + b) == Concat(f, a) + Concat(f, b)
  {
    if a == [] {
      assert a + b == b;
    } else {
      ConcatJoin(f, a[1..], b);
      assert (a + b)[0] == a[0] && (a + b)[1..] == a[1..] + b;
      Associative(f(a[0]), Concat(f, a[1..]), Concat(f, b));
    }
  }

  lemma ConcatOne<T>(f: T -> seq<Byte>, a: seq<T>, c: T)
    ensures Concat(f, a + [c]) == Concat(f, a) + f(c)
  {
    ConcatJoin(f, a, [c]);
    assert Concat(f, [c]) == f(c) + Concat(f, []);
  }

  function ParseList<T>(p: seq<Byte> -> Parsed<T>, b: seq<Byte>, n: nat): Parsed<seq<T>>
    decreases n
  {
    if n == 0 then Done([], 0)
    else match p(b)
      case Fail => Fail
      case Done(x, size) =>
        if size > |b| then Fail
        else match ParseList(p, b[size..], n - 1)
          case Fail => Fail
          case Done(xs, more) => Done([x] + xs, size + more)
  }

  lemma {:induction false} ListSound<T>(p: seq<Byte> -> Parsed<T>, f: T -> seq<Byte>, wf: T -> bool, b: seq<Byte>, n: nat)
    requires Sound(p, f, wf) && ParseList(p, b, n).Done?
    ensures var r := ParseList(p, b, n);
            |r.value| == n && r.size <= |b| && b[..r.size] == Concat(f, r.value) && forall i :: 0 <= i < n ==> wf(r.value[i])
    decreases n
  {
    if n > 0 {
      var size := p(b).size;
      ListSound(p, f, wf, b[size..], n - 1);
      var xs, more := ParseList(p, b[size..], n - 1).value, ParseList(p, b[size..], n - 1).size;
      assert ([p(b).value] + xs)[1..] == xs;
      assert b[..size + more] == b[..size] + b[size..][..more];
    }
  }

  lemma {:induction false} ListComplete<T(!new)>(p: seq<Byte> -> Parsed<T>, f: T -> seq<Byte>, wf: T -> bool, xs: seq<T>, rest: seq<Byte>)
    requires Complete(p, f, wf) && forall i :: 0 <= i < |xs| ==> wf(xs[i])
    ensures ParseList(p, Concat(f, xs) + rest, |xs|) == Done(xs, |Concat(f, xs)|)
    decreases |xs|
  {
    if xs != [] {
      var x, tail := xs[0], Concat(f, xs[1..]);
      assert Concat(f, xs) + rest == f(x) + (tail + rest);
      assert p(f(x) + (tail + rest)) == Done(x, |f(x)|);
      assert (f(x) + (tail + rest))[|f(x)|..] == tail + rest;
      ListComplete(p, f, wf, xs[1..], rest);
      assert [x] + xs[1..] == xs;
    } else {
      assert Concat(f, xs) == [];
    }
  }

  // ----- parsing a list in a loop

  /** Items met so far and the bytes they took, put before what is still to be parsed. */
  function Resumed<T>(done: seq<T>, size: nat, rest: Parsed<seq<T>>): Parsed<seq<T>> {
    match rest
    case Fail => Fail
    case Done(xs, more) => Done(done + xs, size + more)
  }

  lemma ResumeStart<T>(r: Parsed<seq<T>>)
    ensures Resumed([], 0, r) == r
  {
    if r.Done? { assert [] + r.value == r.value; }
  }

  /** One item parsed: the rest of the list is resumed behind it. */
  lemma ResumeList<T>(p: seq<Byte> -> Parsed<T>, u: seq<Byte>, m: nat, done: seq<T>, size: nat)
    requires m > 0 && (p(u).Done? ==> p(u).size <= |u|)
    ensures if p(u).Fail? then ParseList(p, u, m) == Fail
            else Resumed(done, size, ParseList(p, u, m)) == Resumed(done + [p(u).value], size + p(u).size, ParseList(p, u[p(u).size..], m - 1))
  {
    if p(u).Done? {
      var tail := ParseList(p, u[p(u).size..], m - 1);
      if tail.Done? { assert done + ([p(u).value] + tail.value) == (done + [p(u).value]) + tail.value; }
    }
  }
}
