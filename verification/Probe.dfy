/**
 Linear probing with wrap-around, shared by the string-to-int map
 (src/aivm_vm_map.c) and the string intern index (src/aivm_vm_string_copy.c),
 and the 64-bit FNV-1a hash both use. A table is seen here only as which of its
 slots are occupied.
 */
module Probe {
  import opened CText

  const TWO64: nat := 0x1_0000_0000_0000_0000

  function XorByte(h: nat, b: Byte): nat {
    h - h % 256 + (((h % 256) as bv8) ^ (b as bv8)) as nat
  }

  /** FNV-1a over the bytes of a C string, modulo 2^64. */
  function Fnv(t: Text): nat {
    if t == [] then 1469598103934665603 else (XorByte(Fnv(t[..|t| - 1]), t[|t| - 1]) * 1099511628211) % TWO64
  }

  /** map_hash_string and string_hash. */
  method HashBytes(t: Text) returns (h: nat)
    ensures h == Fnv(t) && h < 18446744073709551616
  {
    h := 1469598103934665603;
    for i := 0 to |t|
      invariant h == Fnv(t[..i]) && h < 18446744073709551616
    {
      assert t[..i + 1][..i] == t[..i];
      h := XorByte(h, t[i]) * 1099511628211 % 18446744073709551616;
    }
    assert t[..|t|] == t;
  }

  /** The slot reached after `d` steps from `start`. */
  function Step(start: nat, d: nat, cap: nat): (r: nat)
    requires start < cap && d < cap
    ensures r < cap
  {
    if start + d < cap then start + d else start + d - cap
  }

  function Dist(start: nat, i: nat, cap: nat): (d: nat)
    requires start < cap && i < cap
    ensures d < cap && Step(start, d, cap) == i
  {
    if start <= i then i - start else i + cap - start
  }

  lemma DistOfStep(start: nat, d: nat, cap: nat)
    requires start < cap && d < cap
    ensures Dist(start, Step(start, d, cap), cap) == d
  {}

  /** The next slot of the probe sequence. */
  function Next(i: nat, cap: nat): (r: nat)
    requires i < cap
    ensures r < cap
  {
    (i + 1) % cap
  }

  lemma NextIsStep(start: nat, d: nat, cap: nat)
    requires start < cap && d + 1 < cap
    ensures Next(Step(start, d, cap), cap) == Step(start, d + 1, cap)
  {}

  ghost predicate FullFor(occ: seq<bool>, start: nat, d: nat)
    requires start < |occ| && d <= |occ|
  {
    forall k :: 0 <= k < d ==> occ[Step(start, k, |occ|)]
  }

  /** An entry whose home is `start` may sit in slot `i`: no gap on the way to it. */
  ghost predicate Reaches(occ: seq<bool>, start: nat, i: nat)
    requires start < |occ| && i < |occ|
  {
    FullFor(occ, start, Dist(start, i, |occ|))
  }

  lemma ReachesStays(occ: seq<bool>, start: nat, i: nat, j: nat)
    requires start < |occ| && i < |occ| && j < |occ| && Reaches(occ, start, i)
    ensures Reaches(occ[j := true], start, i)
  {}

  /** A walk that is still on occupied slots has not passed a free one. */
  lemma FreeAhead(occ: seq<bool>, start: nat, d: nat, e: nat)
    requires start < |occ| && d <= |occ| && FullFor(occ, start, d) && e < |occ| && !occ[e]
    ensures d <= Dist(start, e, |occ|)
  {
    assert occ[Step(start, Dist(start, e, |occ|), |occ|)] == occ[e];
  }

  /** An entry that may sit in `i` is met before the walk from its home reaches a free slot. */
  lemma MetBefore(occ: seq<bool>, start: nat, d: nat, i: nat)
    requires start < |occ| && d < |occ| && !occ[Step(start, d, |occ|)]
    requires i < |occ| && occ[i] && Reaches(occ, start, i)
    ensures Dist(start, i, |occ|) < d
  {
    DistOfStep(start, d, |occ|);
  }

  function Count(occ: seq<bool>): nat {
    if occ == [] then 0 else Count(occ[..|occ| - 1]) + (if occ[|occ| - 1] then 1 else 0)
  }

  lemma {:induction false} CountBound(occ: seq<bool>)
    ensures Count(occ) <= |occ|
    ensures Count(occ) < |occ| ==> exists i :: 0 <= i < |occ| && !occ[i]
    ensures (forall i :: 0 <= i < |occ| ==> !occ[i]) ==> Count(occ) == 0
  {
    if occ != [] {
      var rest := occ[..|occ| - 1];
      CountBound(rest);
      if Count(occ) < |occ| && occ[|occ| - 1] {
        var i :| 0 <= i < |rest| && !rest[i];
        assert !occ[i];
      }
    }
  }

  lemma {:induction false} CountSet(occ: seq<bool>, i: nat)
    requires i < |occ| && !occ[i]
    ensures Count(occ[i := true]) == Count(occ) + 1
  {
    var k := |occ| - 1;
    var occ' := occ[i := true];
    if i == k {
      assert occ'[..k] == occ[..k];
    } else {
      assert occ'[..k] == occ[..k][i := true];
      CountSet(occ[..k], i);
    }
  }

  lemma {:induction false} CountPrefix(occ: seq<bool>, i: nat)
    requires i <= |occ|
    ensures Count(occ[..i]) <= Count(occ)
  {
    if i < |occ| {
      CountPrefix(occ[..|occ| - 1], i);
      assert occ[..|occ| - 1][..i] == occ[..i];
    } else {
      assert occ[..i] == occ;
    }
  }
}
