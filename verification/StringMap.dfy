/**
 The string-to-int map of src/aivm_vm_map.c: an open-addressing table that is
 built with Put, frozen by Finish and read with Get. `model` is the
 mathematical map it stands for.
 */
module StringMap {
  import opened CText
  import opened Probe

  datatype Slot = Free | Full(hash: nat, key: Text, value: int)

  const INITIAL_CAPACITY: nat := 16

  function Occupied(slots: seq<Slot>): (occ: seq<bool>)
    ensures |occ| == |slots| && forall i :: 0 <= i < |slots| ==> occ[i] == slots[i].Full?
  {
    seq(|slots|, i requires 0 <= i < |slots| => slots[i].Full?)
  }

  function Home(key: Text, cap: nat): (h: nat)
    requires cap > 0
    ensures h < cap
  {
    Fnv(key) % cap
  }

  ghost predicate SlotOk(slots: seq<Slot>, i: nat)
    requires i < |slots|
  {
    slots[i].Full? ==> slots[i].hash == Fnv(slots[i].key) && Reaches(Occupied(slots), Home(slots[i].key, |slots|), i)
  }

  /** Every entry is where probing for its key finds it, and no key is stored twice. */
  ghost predicate Table(slots: seq<Slot>) {
    && |slots| > 0
    && (forall i {:trigger SlotOk(slots, i)} :: 0 <= i < |slots| ==> SlotOk(slots, i))
    && (forall i, j :: 0 <= i < |slots| && 0 <= j < |slots| && slots[i].Full? && slots[j].Full? && slots[i].key == slots[j].key ==> i == j)
  }

  /** The table stands for the map `m`. */
  ghost predicate Represents(slots: seq<Slot>, m: map<Text, int>) {
    && (forall i :: 0 <= i < |slots| && slots[i].Full? ==> slots[i].key in m && m[slots[i].key] == slots[i].value)
    && (forall k :: k in m ==> exists i :: 0 <= i < |slots| && slots[i].Full? && slots[i].key == k)
  }

  /** Where probing for a key ends: its own slot, or the free slot it would go to. */
  ghost predicate ProbeEnd(slots: seq<Slot>, key: Text, i: nat) {
    && |slots| > 0 && i < |slots|
    && Reaches(Occupied(slots), Home(key, |slots|), i)
    && if slots[i].Full? then slots[i].key == key
       else forall j :: 0 <= j < |slots| && slots[j].Full? ==> slots[j].key != key
  }

  /** map_slot_for: the loop ends because the table has a free slot. */
  method SlotFor(slots: array<Slot>, key: Text, hash: nat) returns (i: nat)
    requires Table(slots[..]) && hash == Fnv(key)
    requires exists e :: 0 <= e < slots.Length && slots[e] == Free
    ensures ProbeEnd(slots[..], key, i)
  {
    var cap := slots.Length;
    ghost var s := slots[..];
    ghost var occ, home := Occupied(s), Home(key, cap);
    ghost var e :| 0 <= e < cap && slots[e] == Free;
    i := hash % cap;
    ghost var d := 0;
    while slots[i].Full? && (slots[i].hash != hash || slots[i].key != key)
      invariant d < cap && i == Step(home, d, cap) && FullFor(occ, home, d)
      invariant forall k :: 0 <= k < d ==> s[Step(home, k, cap)].Full? && s[Step(home, k, cap)].key != key
      decreases cap - d
    {
      assert SlotOk(s, i);
      assert FullFor(occ, home, d + 1);
      FreeAhead(occ, home, d + 1, e);
      NextIsStep(home, d, cap);
      i := (i + 1) % cap;
      d := d + 1;
    }
    DistOfStep(home, d, cap);
    if !slots[i].Full? {
      forall j | 0 <= j < cap && s[j].Full? ensures s[j].key != key {
        assert SlotOk(s, j);
        if s[j].key == key { MetBefore(occ, home, d, j); }
      }
    }
  }

  lemma PutKeepsTable(slots: seq<Slot>, key: Text, value: int, i: nat)
    requires Table(slots) && ProbeEnd(slots, key, i)
    ensures var slots' := slots[i := Full(Fnv(key), key, value)];
            Table(slots') && Count(Occupied(slots')) == Count(Occupied(slots)) + (if slots[i].Full? then 0 else 1)
  {
    var slots' := slots[i := Full(Fnv(key), key, value)];
    assert Occupied(slots') == Occupied(slots)[i := true];
    forall k | 0 <= k < |slots'| ensures SlotOk(slots', k) {
      assert SlotOk(slots, k);
      if slots'[k].Full? {
        ReachesStays(Occupied(slots), Home(slots'[k].key, |slots|), k, i);
      }
    }
    if slots[i].Full? {
      assert Occupied(slots') == Occupied(slots);
    } else {
      CountSet(Occupied(slots), i);
    }
  }

  lemma PutRepresents(slots: seq<Slot>, m: map<Text, int>, key: Text, value: int, i: nat)
    requires Table(slots) && Represents(slots, m) && ProbeEnd(slots, key, i)
    ensures Represents(slots[i := Full(Fnv(key), key, value)], m[key := value])
    ensures slots[i].Full? <==> key in m
  {
    var slots' := slots[i := Full(Fnv(key), key, value)];
    forall k | k in m && k != key ensures exists j :: 0 <= j < |slots'| && slots'[j].Full? && slots'[j].key == k {
      var j :| 0 <= j < |slots| && slots[j].Full? && slots[j].key == k;
      assert slots'[j] == slots[j];
    }
    assert slots'[i].key == key;
  }

  lemma EmptyTable(slots: seq<Slot>)
    requires |slots| > 0 && forall i :: 0 <= i < |slots| ==> slots[i] == Free
    ensures Table(slots) && Represents(slots, map[]) && Count(Occupied(slots)) == 0
  {
    forall i | 0 <= i < |slots| ensures SlotOk(slots, i) {}
    CountBound(Occupied(slots));
  }

  /** The entries of the first `n` slots, as a map. */
  ghost function Prefix(slots: seq<Slot>, n: nat): map<Text, int>
    requires n <= |slots|
  {
    if n == 0 then map[]
    else if slots[n - 1].Full? then Prefix(slots, n - 1)[slots[n - 1].key := slots[n - 1].value]
    else Prefix(slots, n - 1)
  }

  lemma {:induction false} PrefixHolds(slots: seq<Slot>, n: nat)
    requires n <= |slots| && Table(slots)
    ensures forall k :: k in Prefix(slots, n) ==> exists i :: 0 <= i < n && slots[i].Full? && slots[i].key == k && Prefix(slots, n)[k] == slots[i].value
    ensures forall i :: 0 <= i < n && slots[i].Full? ==> slots[i].key in Prefix(slots, n)
  {
    if n > 0 {
      PrefixHolds(slots, n - 1);
    }
  }

  lemma PrefixIsModel(slots: seq<Slot>, m: map<Text, int>)
    requires Table(slots) && Represents(slots, m)
    ensures Prefix(slots, |slots|) == m
  {
    PrefixHolds(slots, |slots|);
    var p := Prefix(slots, |slots|);
    forall k | k in m ensures k in p {
      var i :| 0 <= i < |slots| && slots[i].Full? && slots[i].key == k;
    }
    forall k | k in p ensures k in m && p[k] == m[k] {
      var i :| 0 <= i < |slots| && slots[i].Full? && slots[i].key == k && p[k] == slots[i].value;
    }
  }

  /** What a sequence of puts means: later puts win. */
  function Replay(puts: seq<(Text, int)>): map<Text, int> {
    if puts == [] then map[] else Replay(puts[..|puts| - 1])[puts[|puts| - 1].0 := puts[|puts| - 1].1]
  }

  /** After any sequence of puts a key maps to the value of its last put, and to nothing if it was never put. */
  lemma {:induction false} LastPutWins(puts: seq<(Text, int)>, key: Text)
    ensures key in Replay(puts) <==> exists i :: 0 <= i < |puts| && puts[i].0 == key
    ensures forall i :: 0 <= i < |puts| && puts[i].0 == key && (forall j :: i < j < |puts| ==> puts[j].0 != key) ==>
              key in Replay(puts) && Replay(puts)[key] == puts[i].1
  {
    if puts != [] {
      var last := |puts| - 1;
      LastPutWins(puts[..last], key);
      assert forall i :: 0 <= i < last ==> puts[..last][i] == puts[i];
      if exists i :: 0 <= i < |puts| && puts[i].0 == key {
        var i :| 0 <= i < |puts| && puts[i].0 == key;
        assert i == last || puts[..last][i].0 == key;
      }
    }
  }

  /** The table stands for `m` and has `n` occupied slots. */
  ghost predicate Rep(slots: seq<Slot>, m: map<Text, int>, n: nat) {
    Table(slots) && Represents(slots, m) && n == Count(Occupied(slots))
  }

  lemma HasFree(s: seq<Slot>)
    requires Count(Occupied(s)) < |s|
    ensures exists e :: 0 <= e < |s| && s[e] == Free
  {
    CountBound(Occupied(s));
    var e :| 0 <= e < |s| && !Occupied(s)[e];
    assert s[e] == Free;
  }

  /** Probes for the key and writes its entry; the step shared by put and by rehashing. */
  method Store(table: array<Slot>, hash: nat, key: Text, value: int, ghost m: map<Text, int>, ghost n: nat) returns (added: nat)
    requires Rep(table[..], m, n) && n < table.Length && hash == Fnv(key)
    modifies table
    ensures added == (if key in m then 0 else 1) && Rep(table[..], m[key := value], n + added)
  {
    HasFree(table[..]);
    var slot := SlotFor(table, key, hash);
    PutKeepsTable(table[..], key, value, slot);
    PutRepresents(table[..], m, key, value, slot);
    ghost var updated := table[..][slot := Full(Fnv(key), key, value)];
    added := if table[slot].Full? then 0 else 1;
    table[slot] := Full(hash, key, value);
    assert table[..] == updated;
  }

  /** A key about to be rehashed has not been rehashed yet. */
  lemma NotInPrefix(s: seq<Slot>, n: nat)
    requires Table(s) && n < |s| && s[n].Full?
    ensures s[n].key !in Prefix(s, n) && s[n].hash == Fnv(s[n].key)
  {
    PrefixHolds(s, n);
    assert SlotOk(s, n);
  }

  lemma PutSize(m: map<Text, int>, key: Text, value: int)
    ensures |m[key := value]| == |m| + (if key in m then 0 else 1)
  {
    var m' := m[key := value];
    if key in m {
      assert m'.Keys == m.Keys;
    } else {
      assert m'.Keys == m.Keys + {key};
    }
  }

  ghost predicate Moved(s: seq<Slot>, index: nat, table: seq<Slot>)
    requires index <= |s|
  {
    Rep(table, Prefix(s, index), Count(Occupied(s)[..index]))
  }

  lemma MovedNext(s: seq<Slot>, index: nat)
    requires Table(s) && index < |s|
    ensures Count(Occupied(s)[..index + 1]) == Count(Occupied(s)[..index]) + (if s[index].Full? then 1 else 0)
    ensures Count(Occupied(s)[..index]) <= |s|
  {
    assert Occupied(s)[..index + 1][..index] == Occupied(s)[..index];
    CountPrefix(Occupied(s), index);
    CountBound(Occupied(s));
  }

  /** Every entry of an old table, stored again in a larger one. */
  method Rehash(s: seq<Slot>, capacity: nat, ghost m: map<Text, int>, ghost n: nat) returns (table: array<Slot>)
    requires Rep(s, m, n) && |s| < capacity
    ensures fresh(table) && table.Length == capacity && Rep(table[..], m, n)
  {
    table := new Slot[capacity](_ => Free);
    EmptyTable(table[..]);
    for index := 0 to |s|
      invariant table.Length == capacity && Moved(s, index, table[..])
    {
      MovedNext(s, index);
      var e := s[index];
      if e.Full? {
        NotInPrefix(s, index);
        var added := Store(table, e.hash, e.key, e.value, Prefix(s, index), Count(Occupied(s)[..index]));
      }
    }
    assert Occupied(s)[..|s|] == Occupied(s);
    PrefixIsModel(s, m);
  }

  class MapRecord {
    var active: bool
    var frozen: bool
    var slots: array<Slot>
    var count: nat
    ghost var puts: seq<(Text, int)>

    ghost function Model(): map<Text, int>
      reads this
    {
      Replay(puts)
    }

    /** The table stands for the puts so far, and the load bound leaves it a free slot. */
    ghost predicate Valid()
      reads this, slots
    {
      && Rep(slots[..], Model(), count) && count == |Model()|
      && slots.Length >= 16 && count * 10 < slots.Length * 7
    }

    /** aivm_vm_map_builder_new for the record it activates. */
    constructor ()
      ensures Valid() && fresh(slots) && slots.Length == 16 && active && !frozen && puts == []
    {
      active, frozen, count, puts := true, false, 0, [];
      var table := new Slot[INITIAL_CAPACITY](_ => Free);
      slots := table;
      EmptyTable(table[..]);
    }

    /** map_resize: rehashes every entry into a larger table. */
    method Resize(capacity: nat)
      requires Rep(slots[..], Model(), count) && slots.Length < capacity
      modifies this`slots
      ensures fresh(slots) && slots.Length == capacity && Rep(slots[..], Model(), count)
    {
      slots := Rehash(slots[..], capacity, Model(), count);
    }

    /** aivm_vm_map_builder_put_string_int. */
    method Put(key: Text, value: int, growthAllowed: bool) returns (ok: bool)
      requires Valid()
      modifies this`slots, this`count, this`puts, slots
      ensures Valid() && (slots == old(slots) || fresh(slots))
      ensures ok <==> active && !frozen && ((old(count) + 1) * 10 < old(slots.Length) * 7 || growthAllowed)
      ensures slots.Length == if ok && (old(count) + 1) * 10 >= old(slots.Length) * 7 then 2 * old(slots.Length) else old(slots.Length)
      ensures ok ==> puts == old(puts) + [(key, value)] && Model() == old(Model())[key := value]
      ensures !ok ==> puts == old(puts) && Model() == old(Model())
    {
      if !active || frozen {
        return false;
      }
      ok := MakeRoom(growthAllowed);
      if ok {
        StorePut(key, value);
      }
    }

    /** The load test before a put, and the growth it may ask for. */
    method MakeRoom(growthAllowed: bool) returns (ok: bool)
      requires Valid()
      modifies this`slots
      ensures Valid() && (slots == old(slots) || fresh(slots))
      ensures ok <==> (count + 1) * 10 < old(slots.Length) * 7 || growthAllowed
      ensures ok ==> (count + 1) * 10 < slots.Length * 7
      ensures slots.Length == if ok && (count + 1) * 10 >= old(slots.Length) * 7 then 2 * old(slots.Length) else old(slots.Length)
    {
      ok := true;
      if (count + 1) * 10 >= slots.Length * 7 {
        ok := growthAllowed;
        if ok {
          Resize(slots.Length * 2);
        }
      }
    }

    /** The put itself, once the load bound leaves room for one more key. */
    method StorePut(key: Text, value: int)
      requires Valid() && (count + 1) * 10 < slots.Length * 7
      modifies this`count, this`puts, slots
      ensures Valid() && puts == old(puts) + [(key, value)] && Model() == old(Model())[key := value]
    {
      PutSize(Model(), key, value);
      var added := Store(slots, Fnv(key), key, value, Model(), count);
      count := count + added;
      puts := puts + [(key, value)];
      assert puts[..|puts| - 1] == old(puts);
    }

    /** aivm_vm_map_builder_finish: after it no put changes anything. */
    method Finish() returns (ok: bool)
      requires Valid()
      modifies this`frozen
      ensures Valid() && ok == (active && !old(frozen)) && frozen == (old(frozen) || ok)
    {
      ok := active && !frozen;
      if ok { frozen := true; }
    }

    /** aivm_vm_map_count: the number of distinct keys put. */
    method DistinctKeys() returns (ok: bool, n: nat)
      requires Valid()
      ensures ok == (active && frozen)
      ensures ok ==> n == |Model()|
    {
      ok, n := active && frozen, count;
    }

    /** aivm_vm_map_get_string_int. */
    method Get(key: Text, fallback: int) returns (ok: bool, value: int, found: bool)
      requires Valid()
      ensures ok == (active && frozen)
      ensures ok ==> found == (key in Model()) && value == if key in Model() then Model()[key] else fallback
    {
      if !active || !frozen {
        return false, fallback, false;
      }
      HasFree(slots[..]);
      var slot := SlotFor(slots, key, Fnv(key));
      assert slots[..][slot] == slots[slot];
      if slots[slot].Full? {
        return true, slots[slot].value, true;
      }
      return true, fallback, false;
    }
  }
}
