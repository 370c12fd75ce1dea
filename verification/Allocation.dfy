/**
 What the VM keeps between calls: nodes within their capacities, a string arena
 within its limit with a good intern index, and roots the collectors accept.
 */
module Allocation {
  import opened CText
  import opened Heap
  import opened Liveness
  import opened Relocation
  import opened RootSets
  import opened BytesViews
  import InternIndex

  datatype Capacities = Capacities(nodes: nat, attrs: nat, children: nat, strings: nat, bytes: nat)

  datatype Index = Index(entries: seq<InternIndex.Entry>, count: nat, complete: bool)

  /** Counts within capacities, arenas packed, children in range. */
  ghost predicate NodesFit(h: Heap, c: Capacities) {
    |h.nodes| <= c.nodes && |h.attrs| <= c.attrs && |h.children| <= c.children && WellFormed(h)
  }

  /** The arena is a run of segments within its limit, and the index over it is good. */
  ghost predicate StringsFit(a: Arena, limit: nat, c: Capacities, index: Index, copied: set<Text>) {
    && Terminated(a.bytes) && |a.bytes| <= limit <= c.strings
    && InternIndex.IndexOk(a.bytes, index.entries, index.count, index.complete, copied)
  }

  /** Everything the allocators keep: well-formed nodes, sound roots, readable strings, byte views apart. */
  ghost predicate Sane(h: Heap, r: Roots, c: Capacities, limit: nat, index: Index, copied: set<Text>) {
    NodesFit(h, c) && StringsFit(h.strings, limit, c, index, copied) && Ready(h, r, []) && BytesFit(h.bytes, h.pairs, ValuesOf(r), c.bytes)
  }

  ghost predicate Known(a: Arena, index: Index, t: Text) {
    InternIndex.Known(a.bytes, index.entries, index.complete, t)
  }

  /** The index misses no segment, if only functions that index what they write have written. */
  ghost predicate Covered(a: Arena, index: Index, interned: bool) {
    interned ==> InternIndex.Covered(a.bytes, index.entries, index.complete)
  }

  /** What every method of the VM keeps. */
  ghost predicate Good(h: Heap, r: Roots, c: Capacities, limit: nat, index: Index, copied: set<Text>, interned: bool, bytesLimit: nat) {
    Sane(h, r, c, limit, index, copied) && Covered(h.strings, index, interned) && bytesLimit <= c.bytes
  }

  /** As long as only such functions write, a copy of a text finds it exactly when it is stored. */
  lemma KnownIffStored(h: Heap, r: Roots, c: Capacities, limit: nat, index: Index, copied: set<Text>, t: Text)
    requires Sane(h, r, c, limit, index, copied) && Covered(h.strings, index, true)
    ensures Known(h.strings, index, t) <==> Stored(h.strings.bytes, t)
  {
    InternIndex.KnownIffStored(h.strings.bytes, index.entries, index.complete, t);
  }

  /** The heap and roots before an append: untouched, or moved by one string compaction. */
  ghost predicate Settled(h: Heap, r: Roots, mid: Heap, r': Roots) {
    (mid == h && r' == r) || StringsCompacted(h, r, mid, r')
  }

  /** The text written at the end of the arena, and remembered. */
  method Store(h: Heap, ghost r: Roots, ghost c: Capacities, ghost limit: nat, index: Index, ghost copied: set<Text>, ghost interned: bool, ghost bytesLimit: nat, t: Text, memory: bool)
    returns (h': Heap, index': Index)
    requires Good(h, r, c, limit, index, copied, interned, bytesLimit) && NulFree(t) && |h.strings.bytes| + |t| + 1 <= limit
    ensures h' == Grown(h, t) && Good(h', r, c, limit, index', copied + {t}, interned, bytesLimit)
    ensures index'.complete <==> index.complete && (memory || InternIndex.HasSlot(|index.entries|, index.count))
  {
    h' := Grown(h, t);
    GrownReady(h, r, [], t);
    var es, n, complete := InternIndex.Extend(h.strings.bytes, t, index.entries, index.count, index.complete, memory, copied);
    index' := Index(es, n, complete);
  }

  method Find(h: Heap, index: Index, t: Text, ghost limit: nat, ghost c: Capacities, ghost copied: set<Text>) returns (r: StrRef)
    requires StringsFit(h.strings, limit, c, index, copied) && NulFree(t)
    ensures r == NullStr || r.ArenaStr?
    ensures r != NullStr <==> Known(h.strings, index, t)
    ensures r != NullStr ==> StrOk(h.strings, r) && ReadStr(h.strings, r) == Some(t) && StringsFit(h.strings, limit, c, index, copied + {t})
    ensures t in copied ==> r != NullStr
  {
    r := NullStr;
    if t in copied { InternIndex.RememberedKnown(h.strings.bytes, index.entries, index.count, index.complete, copied, t); }
    var found, o := InternIndex.Find(h.strings.bytes, index.entries, index.complete, t, index.count);
    if found {
      r := ArenaStr(h.strings.epoch, o);
      InternIndex.KnownRemembered(h.strings.bytes, index.entries, index.count, index.complete, copied, t);
    }
  }

  lemma Stores(h: Heap, t: Text)
    requires Terminated(h.strings.bytes) && NulFree(t)
    ensures var r := ArenaStr(h.strings.epoch, |h.strings.bytes|); StrOk(Grown(h, t).strings, r) && ReadStr(Grown(h, t).strings, r) == Some(t)
  {
    AppendStores(h.strings.bytes, t);
  }

  /** aivm_compact_string_arena on values: the relocation, then the index rebuilt over the new arena. */
  method Reindex(ghost h: Heap, ghost r: Roots, h': Heap, ghost r': Roots, ghost c: Capacities, ghost limit: nat, index: Index, ghost copied: set<Text>, memory: bool) returns (index': Index)
    requires Sane(h, r, c, limit, index, copied) && StringsCompacted(h, r, h', r')
    ensures Sane(h', r', c, limit, index', {}) && Covered(h'.strings, index', true) && (index'.complete <==> h'.strings.bytes == [] || memory)
  {
    StringsCompactedSound(h, r, h', r');
    StringsKeepViews(h, r, h', r', c.bytes);
    var es, n, complete := InternIndex.Rebuild(h'.strings.bytes, index.entries, memory);
    index' := Index(es, n, complete);
  }
}
