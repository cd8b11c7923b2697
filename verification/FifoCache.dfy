/** The server's generic cache: a ring of slots that is filled in order, searched linearly and
 * emptied by destroy functions. */
module FifoCache {
  import opened Options

  type Slot<K, V> = Option<(K, V)>

  /** The slots, where the next record goes, and what the destroy functions have been given. */
  datatype Model<K, V> = Model(slots: seq<Slot<K, V>>, next: nat, dead: seq<(K, V)>)

  predicate Valid<K, V>(m: Model<K, V>) {
    m.next < |m.slots|
  }

  /** The contents of a slot as a sequence: nothing if it is zeroed. */
  function Contents<K, V>(s: Slot<K, V>): seq<(K, V)> {
    if s.Some? then [s.value] else []
  }

  function Live<K, V>(slots: seq<Slot<K, V>>): seq<(K, V)> {
    if slots == [] then [] else Contents(slots[0]) + Live(slots[1..])
  }

  predicate Has<K(==), V>(s: Slot<K, V>, k: K) {
    s.Some? && s.value.0 == k
  }

  function Zeroed<K, V>(n: nat): (r: seq<Slot<K, V>>)
    ensures |r| == n && forall i :: 0 <= i < n ==> r[i] == None
  {
    seq(n, _ => None)
  }

  function PutModel<K, V>(m: Model<K, V>, k: K, v: V): Model<K, V>
    requires Valid(m)
  {
    Model(m.slots[m.next := Some((k, v))],
          if m.next + 1 == |m.slots| then 0 else m.next + 1,
          m.dead + Contents(m.slots[m.next]))
  }

  function DeleteModel<K, V>(m: Model<K, V>, i: nat): Model<K, V>
    requires i < |m.slots|
  {
    m.(slots := m.slots[i := None], dead := m.dead + Contents(m.slots[i]))
  }

  function DeleteKeyModel<K(==), V>(m: Model<K, V>, k: K, from: nat): (r: Model<K, V>)
    requires from <= |m.slots|
    ensures |r.slots| == |m.slots| && r.next == m.next
    decreases |m.slots| - from
  {
    if from == |m.slots| then m
    else DeleteKeyModel(if Has(m.slots[from], k) then DeleteModel(m, from) else m, k, from + 1)
  }

  /** How many slots from `from` on hold the key. */
  function Matching<K(==), V>(slots: seq<Slot<K, V>>, k: K, from: nat): nat
    requires from <= |slots|
    decreases |slots| - from
  {
    if from == |slots| then 0 else (if Has(slots[from], k) then 1 else 0) + Matching(slots, k, from + 1)
  }

  function ClearModel<K, V>(m: Model<K, V>): Model<K, V> {
    Model(Zeroed(|m.slots|), 0, m.dead + Live(m.slots))
  }

  /** The lowest slot from `from` on that holds the key. */
  function FindFrom<K(==), V>(slots: seq<Slot<K, V>>, k: K, from: nat): (r: Option<nat>)
    requires from <= |slots|
    ensures r.Some? ==> from <= r.value < |slots| && Has(slots[r.value], k)
    ensures r.Some? ==> forall i :: from <= i < r.value ==> !Has(slots[i], k)
    ensures r.None? ==> forall i :: from <= i < |slots| ==> !Has(slots[i], k)
    decreases |slots| - from
  {
    if from == |slots| then None
    else if Has(slots[from], k) then Some(from)
    else FindFrom(slots, k, from + 1)
  }

  // ------------------------------------------------------------------------------------------
  // The cache as the server keeps it
  // ------------------------------------------------------------------------------------------

  class Cache<K(==), V> {
    const keys: array<Option<K>>
    const entries: array<Option<V>>
    var kNext: nat
    var eNext: nat
    var hit: nat
    var miss: nat
    /** What the destroy functions were called on, in order; they ignore zeroed slots. */
    var deadKeys: seq<K>
    var deadEntries: seq<V>

    ghost predicate Ok()
      reads this, keys, entries
    {
      && keys as object != entries as object
      && keys.Length == entries.Length && kNext == eNext < keys.Length
      && (forall i :: 0 <= i < keys.Length ==> (keys[i].Some? <==> entries[i].Some?))
      && |deadKeys| == |deadEntries|
    }

    ghost function SlotAt(i: nat): Slot<K, V>
      requires Ok() && i < keys.Length
      reads this, keys, entries
    {
      if keys[i].Some? then Some((keys[i].value, entries[i].value)) else None
    }

    ghost function Slots(): seq<Slot<K, V>>
      requires Ok()
      reads this, keys, entries
    {
      seq(keys.Length, i requires 0 <= i < keys.Length && Ok() reads this, keys, entries => SlotAt(i))
    }

    ghost function Dead(): seq<(K, V)>
      requires Ok()
      reads this, keys, entries
    {
      seq(|deadKeys|, i requires 0 <= i < |deadKeys| && Ok() reads this, keys, entries =>
                        (deadKeys[i], deadEntries[i]))
    }

    ghost function State(): Model<K, V>
      requires Ok()
      reads this, keys, entries
    {
      Model(Slots(), kNext, Dead())
    }

    constructor (cachesize: nat)
      requires 0 < cachesize
      ensures Ok() && fresh(keys) && fresh(entries)
      ensures State() == Model(Zeroed(cachesize), 0, []) && hit == 0 && miss == 0
    {
      keys := new Option<K>[cachesize](_ => None);
      entries := new Option<V>[cachesize](_ => None);
      kNext, eNext, hit, miss := 0, 0, 0, 0;
      deadKeys, deadEntries := [], [];
      new;
      assert Slots() == Zeroed(cachesize);
    }

    /** Calls the destroy functions on a slot. */
    method Destroy(i: nat)
      requires Ok() && i < keys.Length
      modifies this`deadKeys, this`deadEntries
      ensures Ok() && Slots() == old(Slots()) && Dead() == old(Dead()) + Contents(old(SlotAt(i)))
      ensures deadKeys == old(deadKeys) + (if keys[i].Some? then [keys[i].value] else [])
      ensures deadEntries == old(deadEntries) + (if entries[i].Some? then [entries[i].value] else [])
    {
      if keys[i].Some? {
        deadKeys := deadKeys + [keys[i].value];
      }
      if entries[i].Some? {
        deadEntries := deadEntries + [entries[i].value];
      }
    }

    /** Copies a record over the next slot and returns where it went; what was there is destroyed. */
    method Put(k: K, v: V) returns (slot: nat)
      requires Ok()
      modifies this, keys, entries
      ensures Ok() && State() == PutModel(old(State()), k, v) && slot == old(kNext)
      ensures hit == old(hit) && miss == old(miss)
      ensures forall j :: 0 <= j < keys.Length ==>
                && keys[j] == (if j == slot then Some(k) else old(keys[j]))
                && entries[j] == (if j == slot then Some(v) else old(entries[j]))
      ensures kNext == if slot == keys.Length - 1 then 0 else slot + 1
      ensures old(keys[slot]) == None ==> deadKeys == old(deadKeys) && deadEntries == old(deadEntries)
      ensures old(keys[slot]) != None ==>
                && deadKeys == old(deadKeys) + [old(keys[slot]).value]
                && deadEntries == old(deadEntries) + [old(entries[slot]).value]
    {
      Destroy(kNext);
      slot := eNext;
      keys[kNext] := Some(k);
      entries[eNext] := Some(v);
      eNext := eNext + 1;
      kNext := kNext + 1;
      if eNext == entries.Length || kNext == keys.Length {
        eNext := 0;
        kNext := 0;
      }
      assert Slots() == old(Slots())[slot := Some((k, v))];
    }

    /** Linear search; the result is the lowest slot with the key. */
    method Find(k: K) returns (slot: Option<nat>)
      requires Ok()
      modifies this`hit, this`miss
      ensures Ok() && State() == old(State()) && slot == FindFrom(Slots(), k, 0)
      ensures hit == old(hit) + (if slot.Some? then 1 else 0)
      ensures miss == old(miss) + (if slot.Some? then 0 else 1)
      ensures forall i :: 0 <= i < keys.Length && (slot.Some? ==> i < slot.value) ==> keys[i] != Some(k)
      ensures slot.Some? ==> slot.value < keys.Length && keys[slot.value] == Some(k)
    {
      var i := 0;
      while i < keys.Length
        invariant 0 <= i <= keys.Length && hit == old(hit) && miss == old(miss)
        invariant FindFrom(Slots(), k, 0) == FindFrom(Slots(), k, i)
        invariant forall j :: 0 <= j < i ==> keys[j] != Some(k)
      {
        if keys[i] == Some(k) {
          hit := hit + 1;
          return Some(i);
        }
        i := i + 1;
      }
      miss := miss + 1;
      return None;
    }

    /** The key beside an entry, or nothing if the pointer is not into the cache. */
    method GetKey(slot: int) returns (k: Option<K>)
      requires Ok()
      ensures k == if 0 <= slot < keys.Length && Slots()[slot].Some?
                   then Some(Slots()[slot].value.0) else None
      ensures k == if 0 <= slot < keys.Length then keys[slot] else None
    {
      if slot < 0 || slot >= keys.Length {
        return None;
      }
      return keys[slot];
    }

    /** Destroys and zeroes one slot, unless the pointer is not into the cache. */
    method DeleteEntry(slot: int) returns (deleted: bool)
      requires Ok()
      modifies this, keys, entries
      ensures Ok() && kNext == old(kNext) && hit == old(hit) && miss == old(miss)
      ensures deleted <==> 0 <= slot < keys.Length
      ensures State() == if deleted then DeleteModel(old(State()), slot) else old(State())
      ensures forall j :: 0 <= j < keys.Length ==>
                && keys[j] == (if j == slot then None else old(keys[j]))
                && entries[j] == (if j == slot then None else old(entries[j]))
      ensures !deleted || old(keys[slot]) == None ==>
                deadKeys == old(deadKeys) && deadEntries == old(deadEntries)
      ensures deleted && old(keys[slot]) != None ==>
                && deadKeys == old(deadKeys) + [old(keys[slot]).value]
                && deadEntries == old(deadEntries) + [old(entries[slot]).value]
    {
      if slot < 0 || slot >= keys.Length {
        return false;
      }
      Destroy(slot);
      entries[slot] := None;
      keys[slot] := None;
      assert Slots() == old(Slots())[slot := None];
      return true;
    }

    /** Deletes every entry with the key and counts them; `FifoCacheRuns.DeleteKeyIs` says how many that
      * are and what is destroyed. */
    method DeleteByKey(k: K) returns (deleted: nat)
      requires Ok()
      modifies this, keys, entries
      ensures Ok() && State() == DeleteKeyModel(old(State()), k, 0)
      ensures deleted == Matching(old(Slots()), k, 0)
      ensures kNext == old(kNext) && hit == old(hit) && miss == old(miss)
      ensures forall j :: 0 <= j < keys.Length ==>
                && keys[j] == (if old(keys[j]) == Some(k) then None else old(keys[j]))
                && entries[j] == (if old(keys[j]) == Some(k) then None else old(entries[j]))
    {
      deleted := 0;
      var i := 0;
      while i < keys.Length
        invariant 0 <= i <= keys.Length && Ok() && kNext == old(kNext) && hit == old(hit) && miss == old(miss)
        invariant DeleteKeyModel(old(State()), k, 0) == DeleteKeyModel(State(), k, i)
        invariant Matching(old(Slots()), k, 0) == deleted + Matching(old(Slots()), k, i)
        invariant Slots()[i..] == old(Slots())[i..]
        invariant forall j :: 0 <= j < keys.Length ==>
                    && keys[j] == (if j < i && old(keys[j]) == Some(k) then None else old(keys[j]))
                    && entries[j] == (if j < i && old(keys[j]) == Some(k) then None else old(entries[j]))
      {
        assert SlotAt(i) == Slots()[i..][0] == old(Slots())[i];
        if keys[i] == Some(k) {
          var one := DeleteEntry(i);
          deleted := deleted + 1;
        }
        i := i + 1;
      }
    }

    method DestroyAll()
      requires Ok()
      modifies this`deadKeys, this`deadEntries
      ensures Ok() && Slots() == old(Slots()) && Dead() == old(Dead()) + Live(old(Slots()))
    {
      var i := 0;
      assert Slots()[0..] == Slots();
      while i < keys.Length
        invariant 0 <= i <= keys.Length && Ok() && Slots() == old(Slots())
        invariant Dead() + Live(old(Slots())[i..]) == old(Dead()) + Live(old(Slots()))
      {
        ghost var s := old(Slots());
        assert s[i..][1..] == s[i + 1..] && s[i..][0] == SlotAt(i);
        Destroy(i);
        i := i + 1;
      }
      assert old(Slots())[i..] == [];
    }

    method ZeroAll()
      requires Ok()
      modifies keys, entries
      ensures Ok() && Slots() == Zeroed(keys.Length) && Dead() == old(Dead())
      ensures forall j :: 0 <= j < keys.Length ==> keys[j] == None && entries[j] == None
    {
      var i := 0;
      while i < keys.Length
        invariant 0 <= i <= keys.Length && Ok() && Dead() == old(Dead())
        invariant forall j :: 0 <= j < i ==> keys[j].None?
      {
        keys[i], entries[i] := None, None;
        i := i + 1;
      }
      assert Slots() == Zeroed(keys.Length);
    }

    method Clear()
      requires Ok()
      modifies this, keys, entries
      ensures Ok() && State() == ClearModel(old(State())) && kNext == 0 && hit == 0 && miss == 0
      ensures forall j :: 0 <= j < keys.Length ==> keys[j] == None && entries[j] == None
    {
      DestroyAll();
      ZeroAll();
      kNext, eNext, hit, miss := 0, 0, 0, 0;
      assert Slots() == Zeroed(keys.Length);
      assert Dead() == old(Dead()) + Live(old(Slots()));
    }
  }
}
