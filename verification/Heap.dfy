/**
 The moving heap of the VM as a value: node records with their packed
 attribute and child arenas, scratch pairs, and the string and bytes arenas.
 `Meaning` reads a VM value back as a finite unfolding of the graph it denotes,
 to any depth; `Carries` says when one heap holds the live part of another
 under a renaming of handles, and `CarriedMeaning` that such a heap denotes the
 same thing, at every depth.
 */
module Heap {
  import opened CText

  datatype Option<+T> = None | Some(value: T)

  /** A C string pointer: NULL, host or program storage, or an offset into one
      generation of the string arena. Compaction starts a new generation, so a
      pointer that was not relocated no longer reads. */
  datatype StrRef = NullStr | HostStr(text: Text) | ArenaStr(epoch: nat, offset: nat)

  datatype BytesRef = HostBytes(data: seq<Byte>) | ArenaBytes(epoch: nat, offset: nat, length: nat)

  /** The sixteen value kinds of src/include/aivm_types.h; numbers are opaque bits. */
  datatype Value =
    | Void | Int(i: int) | Number(bits: int) | Bool(b: bool) | Null | Unknown
    | Str(str: StrRef)
    | Bytes(bytes: BytesRef)
    | Node(node: int)
    | Pair(pair: int)
    | NodeBuilder(h: int) | MapBuilder(h: int) | Map(h: int) | Task(h: int) | WorkerRef(h: int) | WorkerTasks(h: int)

  datatype AttrValue = Identifier(s: StrRef) | StringAttr(s: StrRef) | IntAttr(i: int) | BoolAttr(b: bool)

  datatype Attr = Attr(key: StrRef, value: AttrValue)

  datatype Record = Record(kind: StrRef, id: StrRef, attrStart: nat, attrCount: nat, childStart: nat, childCount: nat)

  datatype ScratchPair = ScratchPair(first: Value, second: Value)

  datatype Arena = Arena(epoch: nat, bytes: seq<Byte>)

  datatype Heap = Heap(
    nodes: seq<Record>, attrs: seq<Attr>, children: seq<int>,
    pairs: seq<ScratchPair>, strings: Arena, bytes: Arena)

  // ----- reading the heap

  predicate IsNode(h: Heap, n: int) { 1 <= n <= |h.nodes| }

  predicate IsPair(h: Heap, p: int) { 1 <= p <= |h.pairs| }

  function Slice<T>(s: seq<T>, start: nat, count: nat): (r: seq<T>)
    ensures start + count <= |s| ==> |r| == count && forall i :: 0 <= i < count ==> r[i] == s[start + i]
  {
    if start + count <= |s| then s[start..start + count] else []
  }

  function ChildrenOf(h: Heap, n: int): seq<int>
    requires IsNode(h, n)
  {
    Slice(h.children, h.nodes[n - 1].childStart, h.nodes[n - 1].childCount)
  }

  function AttrsOf(h: Heap, n: int): seq<Attr>
    requires IsNode(h, n)
  {
    Slice(h.attrs, h.nodes[n - 1].attrStart, h.nodes[n - 1].attrCount)
  }

  /** What a string pointer reads, or nothing when it is NULL or outside the current arena. */
  function ReadStr(strings: Arena, r: StrRef): Option<Text> {
    match r
    case NullStr => None
    case HostStr(t) => Some(t)
    case ArenaStr(e, o) => if e == strings.epoch && o < |strings.bytes| then Some(TextAt(strings.bytes, o)) else None
  }

  function ReadBytes(bytes: Arena, r: BytesRef): Option<seq<Byte>> {
    match r
    case HostBytes(d) => Some(d)
    case ArenaBytes(e, o, n) => if e == bytes.epoch && o + n <= |bytes.bytes| then Some(bytes.bytes[o..o + n]) else None
  }

  datatype AttrMeaning = TextAttr(key: Option<Text>, identifier: bool, text: Option<Text>) | PlainAttr(key: Option<Text>, value: AttrValue)

  function MeaningOfAttr(strings: Arena, a: Attr): AttrMeaning {
    match a.value
    case Identifier(s) => TextAttr(ReadStr(strings, a.key), true, ReadStr(strings, s))
    case StringAttr(s) => TextAttr(ReadStr(strings, a.key), false, ReadStr(strings, s))
    case _ => PlainAttr(ReadStr(strings, a.key), a.value)
  }

  function MeaningOfAttrs(strings: Arena, attrs: seq<Attr>): (m: seq<AttrMeaning>)
    ensures |m| == |attrs|
  {
    seq(|attrs|, i requires 0 <= i < |attrs| => MeaningOfAttr(strings, attrs[i]))
  }

  datatype Meaning =
    | Cut
    | Dangling
    | Plain(v: Value)
    | TextValue(text: Option<Text>)
    | BytesValue(data: Option<seq<Byte>>)
    | NodeValue(kind: Option<Text>, id: Option<Text>, attrs: seq<AttrMeaning>, kids: seq<Meaning>)
    | PairValue(first: Meaning, second: Meaning)

  /** What a value denotes, unfolded through `depth` node and pair levels. */
  function MeaningOf(h: Heap, v: Value, depth: nat): Meaning
    decreases depth, 0
  {
    match v
    case Str(r) => TextValue(ReadStr(h.strings, r))
    case Bytes(r) => BytesValue(ReadBytes(h.bytes, r))
    case Node(n) =>
      if !IsNode(h, n) then Dangling
      else if depth == 0 then Cut
      else
        NodeValue(ReadStr(h.strings, h.nodes[n - 1].kind), ReadStr(h.strings, h.nodes[n - 1].id),
                  MeaningOfAttrs(h.strings, AttrsOf(h, n)), KidsOf(h, ChildrenOf(h, n), depth - 1))
    case Pair(p) =>
      if !IsPair(h, p) then Dangling
      else if depth == 0 then Cut
      else PairValue(MeaningOf(h, h.pairs[p - 1].first, depth - 1), MeaningOf(h, h.pairs[p - 1].second, depth - 1))
    case _ => Plain(v)
  }

  function KidsOf(h: Heap, kids: seq<int>, depth: nat): (m: seq<Meaning>)
    ensures |m| == |kids|
    decreases depth, |kids| + 1
  {
    if kids == [] then [] else KidsOf(h, kids[..|kids| - 1], depth) + [MeaningOf(h, Node(kids[|kids| - 1]), depth)]
  }

  // ----- one heap carried into another

  /** `v'` in `h'` stands for `v` in `h`: handles renamed by `nm` and `pm`, texts and bytes reading the same. */
  ghost predicate Corresponds(h: Heap, h': Heap, nm: map<int, int>, pm: map<int, int>, v: Value, v': Value) {
    match v
    case Str(r) => v'.Str? && ReadStr(h.strings, r) == ReadStr(h'.strings, v'.str)
    case Bytes(r) => v'.Bytes? && ReadBytes(h.bytes, r) == ReadBytes(h'.bytes, v'.bytes)
    case Node(n) => n in nm && v' == Node(nm[n])
    case Pair(p) => p in pm && v' == Pair(pm[p])
    case _ => v' == v
  }

  ghost predicate CarriesNode(h: Heap, h': Heap, nm: map<int, int>, n: int)
    requires n in nm
  {
    && IsNode(h, n) && IsNode(h', nm[n])
    && var r, r' := h.nodes[n - 1], h'.nodes[nm[n] - 1];
    && ReadStr(h.strings, r.kind) == ReadStr(h'.strings, r'.kind)
    && ReadStr(h.strings, r.id) == ReadStr(h'.strings, r'.id)
    && MeaningOfAttrs(h.strings, AttrsOf(h, n)) == MeaningOfAttrs(h'.strings, AttrsOf(h', nm[n]))
    && |ChildrenOf(h, n)| == |ChildrenOf(h', nm[n])|
    && (forall i :: 0 <= i < |ChildrenOf(h, n)| ==> ChildrenOf(h, n)[i] in nm)
    && (forall i :: 0 <= i < |ChildrenOf(h, n)| ==> ChildrenOf(h', nm[n])[i] == nm[ChildrenOf(h, n)[i]])
  }

  ghost predicate CarriesPair(h: Heap, h': Heap, nm: map<int, int>, pm: map<int, int>, p: int)
    requires p in pm
  {
    && IsPair(h, p) && IsPair(h', pm[p])
    && Corresponds(h, h', nm, pm, h.pairs[p - 1].first, h'.pairs[pm[p] - 1].first)
    && Corresponds(h, h', nm, pm, h.pairs[p - 1].second, h'.pairs[pm[p] - 1].second)
  }

  /** `h'` holds every node of `nm` and every pair of `pm` under its new handle. */
  ghost predicate Carries(h: Heap, h': Heap, nm: map<int, int>, pm: map<int, int>) {
    && (forall n {:trigger CarriesNode(h, h', nm, n)} :: n in nm ==> CarriesNode(h, h', nm, n))
    && (forall p {:trigger CarriesPair(h, h', nm, pm, p)} :: p in pm ==> CarriesPair(h, h', nm, pm, p))
  }

  /** Corresponding values of a carried heap denote the same thing at every depth. */
  lemma {:induction false} CarriedMeaning(h: Heap, h': Heap, nm: map<int, int>, pm: map<int, int>, v: Value, v': Value, depth: nat)
    requires Carries(h, h', nm, pm) && Corresponds(h, h', nm, pm, v, v')
    ensures MeaningOf(h, v, depth) == MeaningOf(h', v', depth)
    decreases depth, 0, 1
  {
    match v
    case Node(n) => CarriedNode(h, h', nm, pm, n, depth);
    case Pair(p) => CarriedPair(h, h', nm, pm, p, depth);
    case _ =>
  }

  lemma {:induction false} CarriedNode(h: Heap, h': Heap, nm: map<int, int>, pm: map<int, int>, n: int, depth: nat)
    requires Carries(h, h', nm, pm) && n in nm
    ensures MeaningOf(h, Node(n), depth) == MeaningOf(h', Node(nm[n]), depth)
    decreases depth, 0, 0
  {
    assert CarriesNode(h, h', nm, n);
    if depth > 0 {
      var kids, kids' := ChildrenOf(h, n), ChildrenOf(h', nm[n]);
      CarriedKids(h, h', nm, pm, kids, kids', depth - 1);
      assert KidsOf(h, kids, depth - 1) == KidsOf(h', kids', depth - 1);
    }
  }

  lemma {:induction false} CarriedPair(h: Heap, h': Heap, nm: map<int, int>, pm: map<int, int>, p: int, depth: nat)
    requires Carries(h, h', nm, pm) && p in pm
    ensures MeaningOf(h, Pair(p), depth) == MeaningOf(h', Pair(pm[p]), depth)
    decreases depth, 0, 0
  {
    assert CarriesPair(h, h', nm, pm, p);
    if depth > 0 {
      var q, q' := h.pairs[p - 1], h'.pairs[pm[p] - 1];
      CarriedMeaning(h, h', nm, pm, q.first, q'.first, depth - 1);
      CarriedMeaning(h, h', nm, pm, q.second, q'.second, depth - 1);
    }
  }

  lemma {:induction false} CarriedKids(h: Heap, h': Heap, nm: map<int, int>, pm: map<int, int>, kids: seq<int>, kids': seq<int>, depth: nat)
    requires Carries(h, h', nm, pm) && |kids| == |kids'|
    requires forall i :: 0 <= i < |kids| ==> kids[i] in nm
    requires forall i :: 0 <= i < |kids| ==> kids'[i] == nm[kids[i]]
    ensures KidsOf(h, kids, depth) == KidsOf(h', kids', depth)
    decreases depth, |kids| + 1, 0
  {
    if kids != [] {
      var k := |kids| - 1;
      CarriedKids(h, h', nm, pm, kids[..k], kids'[..k], depth);
      CarriedNode(h, h', nm, pm, kids[k], depth);
    }
  }

  lemma {:induction false} KidAt(h: Heap, kids: seq<int>, depth: nat, i: nat)
    requires i < |kids|
    ensures KidsOf(h, kids, depth)[i] == MeaningOf(h, Node(kids[i]), depth)
  {
    if i < |kids| - 1 {
      KidAt(h, kids[..|kids| - 1], depth, i);
    }
  }

  // ----- lists of values

  /** Two values that denote the same thing, at every depth. */
  ghost predicate SameValue(h: Heap, v: Value, h': Heap, v': Value) {
    forall depth: nat :: MeaningOf(h, v, depth) == MeaningOf(h', v', depth)
  }

  /** Two lists of values that denote the same things, position by position. */
  ghost predicate SameMeaning(h: Heap, vs: seq<Value>, h': Heap, vs': seq<Value>) {
    && |vs| == |vs'|
    && forall i {:trigger SameValue(h, vs[i], h', vs'[i])} :: 0 <= i < |vs| ==> SameValue(h, vs[i], h', vs'[i])
  }

  ghost predicate CorrespondsAll(h: Heap, h': Heap, nm: map<int, int>, pm: map<int, int>, vs: seq<Value>, vs': seq<Value>) {
    |vs| == |vs'| && forall i :: 0 <= i < |vs| ==> Corresponds(h, h', nm, pm, vs[i], vs'[i])
  }

  lemma CarriedList(h: Heap, h': Heap, nm: map<int, int>, pm: map<int, int>, vs: seq<Value>, vs': seq<Value>)
    requires Carries(h, h', nm, pm) && CorrespondsAll(h, h', nm, pm, vs, vs')
    ensures SameMeaning(h, vs, h', vs')
  {
    forall i | 0 <= i < |vs| ensures SameValue(h, vs[i], h', vs'[i]) {
      forall depth: nat ensures MeaningOf(h, vs[i], depth) == MeaningOf(h', vs'[i], depth) {
        CarriedMeaning(h, h', nm, pm, vs[i], vs'[i], depth);
      }
    }
  }

  function NodeValues(handles: seq<int>): (vs: seq<Value>)
    ensures |vs| == |handles| && forall i :: 0 <= i < |handles| ==> vs[i] == Node(handles[i])
  {
    seq(|handles|, i requires 0 <= i < |handles| => Node(handles[i]))
  }
}
