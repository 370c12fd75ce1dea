/**
 Substring, removal and search by runes, with the one-entry offset cache the VM
 keeps between calls. The cache is keyed by the address of the text, so it is good
 while the text at that address has not changed.
 */
module Runes {
  import opened CText
  import opened Codec
  import opened Utf8


  // ----- the same operations on scalars

  function Clamp(value: int, max: nat): nat {
    if value <= 0 then 0 else if value >= max then max else value
  }

  function Sub(cs: seq<Scalar>, start: int, length: int): seq<Scalar> {
    if length <= 0 then []
    else
      var from := Clamp(start, |cs|);
      cs[from..Clamp((if start <= 0 then 0 else start) + length, |cs|)]
  }

  function Removed(cs: seq<Scalar>, start: int, length: int): seq<Scalar> {
    if length <= 0 then cs
    else
      var from, to := Clamp(start, |cs|), Clamp(start + length, |cs|);
      cs[..from] + cs[if to < from then from else to..]
  }

  ghost predicate MatchAt(cs: seq<Scalar>, ps: seq<Scalar>, k: nat) {
    k + |ps| <= |cs| && cs[k..k + |ps|] == ps
  }

  /** The first match at or after the clamped start, or -1. */
  ghost predicate FirstMatch(cs: seq<Scalar>, ps: seq<Scalar>, start: int, found: int) {
    var from := Clamp(start, |cs|);
    if found == -1 then forall k: nat :: from <= k ==> !MatchAt(cs, ps, k)
    else found >= from && MatchAt(cs, ps, found) && forall k: nat :: from <= k < found ==> !MatchAt(cs, ps, k)
  }

  // ----- bytes between rune offsets

  lemma {:induction false} OffsetGrows(t: Text, r: nat, k: nat)
    requires r <= k
    ensures Offset(t, r) <= Offset(t, k)
  {
    if r < k { OffsetGrows(t, r, k - 1); }
  }

  lemma EncodeLength(cs: seq<Scalar>, k: nat)
    requires k <= |cs|
    ensures EncodeAll(cs) == EncodeAll(cs[..k]) + EncodeAll(cs[k..])
  {
    ConcatJoin<Scalar>(Encode, cs[..k], cs[k..]);
    assert cs[..k] + cs[k..] == cs;
  }

  /** The bytes between two rune offsets encode the scalars between them. */
  lemma BetweenOffsets(cs: seq<Scalar>, i: nat, j: nat)
    requires i <= j <= |cs|
    ensures var t := EncodeAll(cs); Offset(t, i) <= Offset(t, j) && t[Offset(t, i)..Offset(t, j)] == EncodeAll(cs[i..j])
  {
    var t := EncodeAll(cs);
    OffsetOfScalars(cs, i);
    OffsetOfScalars(cs, j);
    EncodeLength(cs, j);
    EncodeLength(cs[..j], i);
    assert cs[..j][..i] == cs[..i] && cs[..j][i..] == cs[i..j];
    var x, y, z := EncodeAll(cs[..i]), EncodeAll(cs[i..j]), EncodeAll(cs[j..]);
    assert t == (x + y) + z;
    assert ((x + y) + z)[|x|..|x| + |y|] == y;
  }

  lemma OffsetBeyond(cs: seq<Scalar>, r: nat)
    ensures Offset(EncodeAll(cs), r) == Offset(EncodeAll(cs), if r <= |cs| then r else |cs|)
  {
    OffsetOfScalars(cs, r);
    OffsetOfScalars(cs, |cs|);
  }

  /** A byte match at a rune offset is a scalar match there. */
  lemma MatchIsBytes(cs: seq<Scalar>, ps: seq<Scalar>, k: nat)
    requires k <= |cs|
    ensures var t, p := EncodeAll(cs), EncodeAll(ps);
            var o := Offset(t, k);
            (o + |p| <= |t| && t[o..o + |p|] == p) <==> MatchAt(cs, ps, k)
  {
    var t, p := EncodeAll(cs), EncodeAll(ps);
    var o, rest := Offset(t, k), cs[k..];
    OffsetOfScalars(cs, k);
    EncodeLength(cs, k);
    assert t[o..] == EncodeAll(rest);
    if o + |p| <= |t| && t[o..o + |p|] == p {
      assert t[o..][..|p|] == p;
      PrefixScalars(ps, rest);
      assert rest[..|ps|] == cs[k..k + |ps|];
    }
    if MatchAt(cs, ps, k) {
      EncodeLength(rest, |ps|);
      assert rest[..|ps|] == ps;
      assert t[o..][..|p|] == p;
    }
  }

  class Cache {
    var text: int      // address of the cached text; 0 is no text
    var rune: nat
    var byte: nat

    /** The cached offset is right for the text `t` at address `at`. */
    ghost predicate Good(at: int, t: Text)
      reads this
    {
      text == at ==> byte == Offset(t, rune)
    }

    constructor ()
      ensures text == 0
    {
      text, rune, byte := 0, 0, 0;
    }

    /** utf8_byte_offset_for_rune: what the cache answers, whatever it holds; the uncached offset when its entry is right. */
    method ByteOffset(at: int, t: Text, r: nat) returns (o: nat)
      modifies this
      ensures o == Answer(old(text), old(rune), old(byte), at, t, r)
      ensures old(Good(at, t)) ==> o == Offset(t, r) && Good(at, t)
      ensures text == at && byte == o && rune <= r
    {
      var current: nat := 0;
      o := 0;
      if text == at && rune <= r {
        o, current := byte, rune;
      }
      ghost var answer := Walk(t, o, r - current);
      WalkFromRune(t, 0, r);
      while o < |t| && current < r
        invariant current <= r && Walk(t, o, r - current) == answer
        invariant old(Good(at, t)) ==> o == Offset(t, current)
        decreases r - current
      {
        o := NextIndex(t, o);
        current := current + 1;
      }
      if current < r && old(Good(at, t)) { OffsetPastEnd(t, current, r); }
      text, rune, byte := at, current, o;
    }

    /** push_substring_by_runes. */
    method Substring(at: int, t: Text, start: int, length: int) returns (s: Text)
      requires Good(at, t)
      modifies this
      ensures Good(at, t)
      ensures forall cs: seq<Scalar> :: EncodeAll(cs) == t ==> s == EncodeAll(Sub(cs, start, length))
    {
      if length <= 0 {
        assert EncodeAll([]) == [];
        return [];
      }
      var from: nat := if start <= 0 then 0 else start;
      var b := ByteOffset(at, t, from);
      var e := WalkRunes(t, b, from, length);
      OffsetGrows(t, from, from + length);
      s := t[b..e];
      SubOfAny(t, start, length, b, e);
    }

    /** push_remove_by_runes; adding start and length must not overflow 64 bits. */
    method Remove(at: int, t: Text, start: int, length: int) returns (s: Text)
      requires Good(at, t) && start + length < 0x8000_0000_0000_0000
      modifies this
      ensures Good(at, t)
      ensures forall cs: seq<Scalar> :: EncodeAll(cs) == t ==> s == EncodeAll(Removed(cs, start, length))
    {
      if length <= 0 {
        return t;
      }
      var count := RuneCount(t);
      var from, to := Clamp(start, count), Clamp(start + length, count);
      if to < from {
        to := from;
      }
      var b := ByteOffset(at, t, from);
      var e := ByteOffset(at, t, to);
      s := t[..b] + t[e..];
      forall cs: seq<Scalar> | EncodeAll(cs) == t ensures s == EncodeAll(Removed(cs, start, length)) {
        CountIsScalars(cs, count);
        RemovedBytes(cs, from, to);
      }
    }

    /** push_find_by_runes. */
    method Find(at: int, t: Text, pattern: Text, start: int) returns (found: int)
      requires Good(at, t)
      modifies this
      ensures Good(at, t)
      ensures forall cs: seq<Scalar>, ps: seq<Scalar> :: EncodeAll(cs) == t && EncodeAll(ps) == pattern ==> FirstMatch(cs, ps, start, found)
    {
      var textRunes := RuneCount(t);
      var patternRunes := RuneCount(pattern);
      var from := Clamp(start, textRunes);
      CountsAreScalars(t, textRunes);
      CountsAreScalars(pattern, patternRunes);
      if patternRunes == 0 {
        return from;
      }
      if patternRunes > textRunes || from > textRunes - patternRunes {
        return -1;
      }
      found := Scan(at, t, pattern, from, textRunes, patternRunes);
      ScanIsFirst(t, pattern, start, textRunes, patternRunes, found);
    }

    /** The scan of the candidates, one rune at a time. */
    method Scan(at: int, t: Text, pattern: Text, from: nat, textRunes: nat, patternRunes: nat) returns (found: int)
      requires Good(at, t) && from + patternRunes <= textRunes
      modifies this
      ensures Good(at, t)
      ensures ScanFound(t, pattern, from, textRunes - patternRunes, found)
    {
      var candidate := from;
      var o := ByteOffset(at, t, candidate);
      while o + |pattern| <= |t|
        invariant Good(at, t) && from <= candidate <= textRunes - patternRunes && o == Offset(t, candidate)
        invariant NoneBetween(t, pattern, from, candidate)
        decreases textRunes - candidate
      {
        if t[o..o + |pattern|] == pattern {
          return candidate;
        }
        NoneNext(t, pattern, from, candidate);
        if candidate >= textRunes - patternRunes {
          return -1;
        }
        candidate := candidate + 1;
        o := ByteOffset(at, t, candidate);
      }
      NoneLater(t, pattern, from, candidate, textRunes - patternRunes + 1);
      found := -1;
    }
  }

  ghost predicate NoneBetween(t: Text, pattern: Text, from: nat, to: nat) {
    forall k: nat :: from <= k < to ==> !BytesMatch(t, pattern, k)
  }

  lemma NoneNext(t: Text, pattern: Text, from: nat, candidate: nat)
    requires NoneBetween(t, pattern, from, candidate) && !BytesMatch(t, pattern, candidate)
    ensures NoneBetween(t, pattern, from, candidate + 1)
  {}

  lemma NoneLater(t: Text, pattern: Text, from: nat, candidate: nat, to: nat)
    requires NoneBetween(t, pattern, from, candidate) && Offset(t, candidate) + |pattern| > |t|
    ensures NoneBetween(t, pattern, from, to)
  {
    forall k: nat | candidate <= k ensures !BytesMatch(t, pattern, k) { OffsetGrows(t, candidate, k); }
  }

  lemma CountsAreScalars(t: Text, count: nat)
    requires Offset(t, count) == |t| && forall r :: 0 <= r < count ==> Offset(t, r) < |t|
    ensures forall cs: seq<Scalar> :: EncodeAll(cs) == t ==> |cs| == count
  {
    forall cs: seq<Scalar> | EncodeAll(cs) == t ensures |cs| == count { CountIsScalars(cs, count); }
  }

  /** What the scan found among bytes is the first match among scalars. */
  lemma ScanOfScalars(cs: seq<Scalar>, ps: seq<Scalar>, start: int, found: int)
    requires var from := Clamp(start, |cs|);
             from + |ps| <= |cs| && ScanFound(EncodeAll(cs), EncodeAll(ps), from, |cs| - |ps|, found)
    ensures FirstMatch(cs, ps, start, found)
  {
    var t, p, from := EncodeAll(cs), EncodeAll(ps), Clamp(start, |cs|);
    forall k: nat | from <= k && (found == -1 || k < found) ensures !MatchAt(cs, ps, k) {
      if k <= |cs| - |ps| {
        assert !BytesMatch(t, p, k);
        MatchIsBytes(cs, ps, k);
      }
    }
    if found != -1 { MatchIsBytes(cs, ps, found); }
  }

  lemma ScanIsFirst(t: Text, pattern: Text, start: int, textRunes: nat, patternRunes: nat, found: int)
    requires forall cs: seq<Scalar> :: EncodeAll(cs) == t ==> |cs| == textRunes
    requires forall ps: seq<Scalar> :: EncodeAll(ps) == pattern ==> |ps| == patternRunes
    requires var from := Clamp(start, textRunes);
             from + patternRunes <= textRunes && ScanFound(t, pattern, from, textRunes - patternRunes, found)
    ensures forall cs: seq<Scalar>, ps: seq<Scalar> :: EncodeAll(cs) == t && EncodeAll(ps) == pattern ==> FirstMatch(cs, ps, start, found)
  {
    forall cs: seq<Scalar>, ps: seq<Scalar> | EncodeAll(cs) == t && EncodeAll(ps) == pattern ensures FirstMatch(cs, ps, start, found) {
      ScanOfScalars(cs, ps, start, found);
    }
  }

  ghost predicate ScanFound(t: Text, pattern: Text, from: nat, last: nat, found: int) {
    if found == -1 then forall k: nat :: from <= k <= last ==> !BytesMatch(t, pattern, k)
    else from <= found <= last && BytesMatch(t, pattern, found) && forall k: nat :: from <= k < found ==> !BytesMatch(t, pattern, k)
  }

  ghost predicate BytesMatch(t: Text, p: Text, k: nat) {
    Offset(t, k) + |p| <= |t| && t[Offset(t, k)..Offset(t, k) + |p|] == p
  }

  /** `length` rune steps from the offset of rune `from`, or to the end. */
  method WalkRunes(t: Text, b: nat, from: nat, length: nat) returns (e: nat)
    requires b == Offset(t, from)
    ensures e == Offset(t, from + length)
  {
    e := b;
    var n: nat := 0;
    while e < |t| && n < length
      invariant n <= length && e == Offset(t, from + n)
      decreases |t| - e
    {
      e := NextIndex(t, e);
      n := n + 1;
    }
    if n < length { OffsetPastEnd(t, from + n, from + length); }
  }

  lemma BetweenRunes(cs: seq<Scalar>, t: Text, from: nat, to: nat, x: nat, y: nat)
    requires t == EncodeAll(cs) && from <= to && x == Offset(t, from) && y == Offset(t, to)
    ensures x <= y <= |t| && t[x..y] == EncodeAll(cs[Clamp(from, |cs|)..Clamp(to, |cs|)])
  {
    OffsetBeyond(cs, from);
    OffsetBeyond(cs, to);
    BetweenOffsets(cs, Clamp(from, |cs|), Clamp(to, |cs|));
  }

  lemma SubBytes(cs: seq<Scalar>, start: int, length: int, b: nat, e: nat)
    requires length > 0
    requires var from := if start <= 0 then 0 else start; b == Offset(EncodeAll(cs), from) && e == Offset(EncodeAll(cs), from + length)
    ensures b <= e <= |EncodeAll(cs)| && EncodeAll(cs)[b..e] == EncodeAll(Sub(cs, start, length))
  {
    var from := if start <= 0 then 0 else start;
    BetweenRunes(cs, EncodeAll(cs), from, from + length, b, e);
    assert Sub(cs, start, length) == cs[Clamp(from, |cs|)..Clamp(from + length, |cs|)];
  }

  lemma SubOfAny(t: Text, start: int, length: int, b: nat, e: nat)
    requires length > 0 && b <= e <= |t|
    requires var from := if start <= 0 then 0 else start; b == Offset(t, from) && e == Offset(t, from + length)
    ensures forall cs: seq<Scalar> :: EncodeAll(cs) == t ==> t[b..e] == EncodeAll(Sub(cs, start, length))
  {
    forall cs: seq<Scalar> | EncodeAll(cs) == t ensures t[b..e] == EncodeAll(Sub(cs, start, length)) {
      SubBytes(cs, start, length, b, e);
    }
  }

  lemma RemovedBytes(cs: seq<Scalar>, from: nat, to: nat)
    requires from <= to <= |cs|
    ensures var t := EncodeAll(cs); t[..Offset(t, from)] + t[Offset(t, to)..] == EncodeAll(cs[..from] + cs[to..])
  {
    var t := EncodeAll(cs);
    BetweenOffsets(cs, 0, from);
    BetweenOffsets(cs, to, |cs|);
    OffsetOfScalars(cs, |cs|);
    assert cs[..|cs|] == cs && cs[0..from] == cs[..from] && cs[to..|cs|] == cs[to..];
    ConcatJoin<Scalar>(Encode, cs[..from], cs[to..]);
    assert t[0..Offset(t, from)] == t[..Offset(t, from)] && t[Offset(t, to)..|t|] == t[Offset(t, to)..];
  }

  // ----- when the cache is right

  /** Where `n` rune steps from byte `o` lead: what the cached walk computes. */
  function Walk(t: Text, o: nat, n: nat): nat
    decreases n
  {
    if n == 0 || o >= |t| then o else Walk(t, NextIndex(t, o), n - 1)
  }

  lemma {:induction false} WalkFromRune(t: Text, r: nat, n: nat)
    ensures Walk(t, Offset(t, r), n) == Offset(t, r + n)
    decreases n
  {
    if Offset(t, r) == |t| {
      OffsetPastEnd(t, r, r + n);
    } else if n > 0 {
      WalkFromRune(t, r + 1, n - 1);
    }
  }

  /** What an entry for address `text` answers about rune `r` of the text `t` at address `at`. */
  function Answer(text: int, rune: nat, byte: nat, at: int, t: Text, r: nat): nat {
    if text == at && rune <= r then Walk(t, byte, r - rune) else Offset(t, r)
  }

  /** An entry filled from `t` at rune `k` answers every rune of a text `t'` at the same address rightly exactly when
      rune `k` starts at the same byte in both. */
  lemma CacheRightIff(at: int, t: Text, t': Text, k: nat)
    ensures (forall r: nat :: Answer(at, k, Offset(t, k), at, t', r) == Offset(t', r)) <==> Offset(t, k) == Offset(t', k)
  {
    if Offset(t, k) == Offset(t', k) {
      forall r: nat ensures Answer(at, k, Offset(t, k), at, t', r) == Offset(t', r) {
        if k <= r { WalkFromRune(t', k, r - k); }
      }
    } else {
      assert Answer(at, k, Offset(t, k), at, t', k) == Offset(t, k);
    }
  }

  lemma TwoTexts()
    ensures Offset([0xC3, 0xA9], 0) == 0 && Offset([0xC3, 0xA9], 1) == 2 && Offset([0x61, 0x62], 1) == 1
  {
    assert Offset([0x61, 0x62], 0) == 0;
    assert NextIndex([0xC3, 0xA9], 0) == 2 && NextIndex([0x61, 0x62], 0) == 1;
  }

  /** A cache filled from one text and asked about another at the same address: rune 1 of "ab" starts at byte 1, and
      the cache says 2. */
  method StaleCacheWrong() returns (o: nat)
    ensures o == 2 && Offset([0x61, 0x62], 1) == 1
  {
    var cache := new Cache();
    TwoTexts();
    var filled := cache.ByteOffset(1, [0xC3, 0xA9], 1);
    assert cache.rune == 1;
    o := cache.ByteOffset(1, [0x61, 0x62], 1);
  }
}
