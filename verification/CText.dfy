/**
 NUL-terminated text inside a byte arena, as the string arena of
 src/aivm_vm_arena.c stores it: the used prefix of the arena is a run of
 segments, each a NUL-free text followed by one NUL.
 */
module CText {

  type Byte = b: int | 0 <= b < 256

  /** A C string without its terminator. */
  type Text = seq<Byte>

  ghost predicate NulFree(t: Text) {
    forall i :: 0 <= i < |t| ==> t[i] != 0
  }

  /** The bytes from `o` up to (not including) the first NUL: what `strlen` and `strcmp` see. */
  function TextAt(a: seq<Byte>, o: nat): (t: Text)
    ensures o <= |a| ==> o + |t| <= |a| && t == a[o..o + |t|]
    ensures o <= |a| && o + |t| < |a| ==> a[o + |t|] == 0
    ensures NulFree(t)
    decreases |a| - o
  {
    if o >= |a| || a[o] == 0 then [] else [a[o]] + TextAt(a, o + 1)
  }

  /** Every segment of the arena is closed by its NUL. */
  ghost predicate Terminated(a: seq<Byte>) {
    a == [] || a[|a| - 1] == 0
  }

  /** `o` is where a segment of the arena begins. */
  ghost predicate SegmentStart(a: seq<Byte>, o: nat) {
    o < |a| && (o == 0 || a[o - 1] == 0)
  }

  /** Some segment holds the text `t`. */
  ghost predicate Stored(a: seq<Byte>, t: Text) {
    exists o: nat :: SegmentStart(a, o) && TextAt(a, o) == t
  }

  /** No two segments hold the same text. */
  ghost predicate DuplicateFree(a: seq<Byte>) {
    forall o: nat, p: nat :: SegmentStart(a, o) && SegmentStart(a, p) && TextAt(a, o) == TextAt(a, p) ==> o == p
  }

  /** The arena after one more string has been copied to its end. */
  function Appended(a: seq<Byte>, t: Text): seq<Byte> {
    a + t + [0]
  }

  lemma {:induction false} TextAtUnique(a: seq<Byte>, o: nat, t: Text)
    requires o + |t| < |a| && a[o..o + |t|] == t && NulFree(t) && a[o + |t|] == 0
    ensures TextAt(a, o) == t
    decreases |t|
  {
    if t != [] {
      assert a[o] == a[o..o + |t|][0] == t[0];
      assert a[o + 1..o + 1 + |t[1..]|] == a[o..o + |t|][1..] == t[1..];
      TextAtUnique(a, o + 1, t[1..]);
    }
  }

  /** In a terminated arena the text of a segment is followed by its NUL. */
  lemma {:induction false} TerminatedText(a: seq<Byte>, o: nat)
    requires Terminated(a) && o < |a|
    ensures o + |TextAt(a, o)| < |a| && a[o + |TextAt(a, o)|] == 0
    decreases |a| - o
  {
    if a[o] != 0 {
      TerminatedText(a, o + 1);
    }
  }

  /** Segments do not overlap: one ends before the next begins. */
  lemma SegmentsDisjoint(a: seq<Byte>, o: nat, p: nat)
    requires Terminated(a) && SegmentStart(a, o) && SegmentStart(a, p) && o < p
    ensures o + |TextAt(a, o)| + 1 <= p
  {
    TerminatedText(a, o);
    var t := TextAt(a, o);
    assert forall k :: o <= k < o + |t| ==> a[k] == t[k - o];
  }

  /** Appending leaves every text already stored where it was, and stores the new one at the old end. */
  lemma AppendKeeps(a: seq<Byte>, t: Text, o: nat)
    requires Terminated(a) && NulFree(t) && o < |a|
    ensures TextAt(Appended(a, t), o) == TextAt(a, o)
  {
    TerminatedText(a, o);
    var b := Appended(a, t);
    var x := TextAt(a, o);
    assert b[o..o + |x|] == a[o..o + |x|];
    TextAtUnique(b, o, x);
  }

  lemma AppendStores(a: seq<Byte>, t: Text)
    requires Terminated(a) && NulFree(t)
    ensures Terminated(Appended(a, t))
    ensures SegmentStart(Appended(a, t), |a|)
    ensures TextAt(Appended(a, t), |a|) == t
  {
    TextAtUnique(Appended(a, t), |a|, t);
  }

  /** The segments after an append are the old ones and the new one. */
  lemma AppendSegments(a: seq<Byte>, t: Text, o: nat)
    requires Terminated(a) && NulFree(t)
    ensures SegmentStart(Appended(a, t), o) <==> SegmentStart(a, o) || o == |a|
  {
    var b := Appended(a, t);
    AppendStores(a, t);
    assert forall k :: |a| <= k < |a| + |t| ==> b[k] == t[k - |a|];
  }

  lemma AppendDuplicateFree(a: seq<Byte>, t: Text)
    requires Terminated(a) && NulFree(t) && DuplicateFree(a)
    requires forall o: nat :: SegmentStart(a, o) ==> TextAt(a, o) != t
    ensures DuplicateFree(Appended(a, t))
  {
    var b := Appended(a, t);
    AppendStores(a, t);
    forall o: nat, p: nat | SegmentStart(b, o) && SegmentStart(b, p) && TextAt(b, o) == TextAt(b, p)
      ensures o == p
    {
      AppendSegments(a, t, o);
      AppendSegments(a, t, p);
      if o < |a| { AppendKeeps(a, t, o); }
      if p < |a| { AppendKeeps(a, t, p); }
    }
  }

  /** The segment scan shared by string compaction and the copy functions: hop from segment to segment until the text is found. */
  method FindText(b: seq<Byte>, t: Text) returns (found: bool, o: nat)
    requires Terminated(b)
    ensures found ==> SegmentStart(b, o) && TextAt(b, o) == t
    ensures !found ==> !Stored(b, t)
  {
    o := 0;
    while o < |b|
      invariant o == |b| || SegmentStart(b, o) || b == []
      invariant forall p: nat :: p < o && SegmentStart(b, p) ==> TextAt(b, p) != t
    {
      var candidate := TextAt(b, o);
      TerminatedText(b, o);
      if candidate == t {
        return true, o;
      }
      forall p: nat | o < p && SegmentStart(b, p) ensures o + |candidate| + 1 <= p { SegmentsDisjoint(b, o, p); }
      o := o + |candidate| + 1;
    }
    found := false;
  }
}
