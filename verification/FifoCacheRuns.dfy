/** What the FIFO cache promises over whole runs: how long a record is found, and that everything
  * stored is destroyed exactly once. */
module FifoCacheRuns {
  import opened FifoCache
  import opened Options

  datatype Op<K, V> = Put(k: K, v: V) | Find(k: K) | Delete(slot: nat) | DeleteKey(k: K) | Clear

  function Step<K(==), V>(m: Model<K, V>, op: Op<K, V>): (r: Model<K, V>)
    requires Valid(m)
    ensures Valid(r) && |r.slots| == |m.slots|
  {
    match op
    case Put(k, v) => PutModel(m, k, v)
    case Find(_) => m
    case Delete(slot) => if slot < |m.slots| then DeleteModel(m, slot) else m
    case DeleteKey(k) => DeleteKeyModel(m, k, 0)
    case Clear => ClearModel(m)
  }

  function Run<K(==), V>(m: Model<K, V>, ops: seq<Op<K, V>>): (r: Model<K, V>)
    requires Valid(m)
    ensures Valid(r) && |r.slots| == |m.slots|
    decreases |ops|
  {
    if ops == [] then m else Run(Step(m, ops[0]), ops[1..])
  }

  // ------------------------------------------------------------------------------------------
  // The ring is a bounded queue
  // ------------------------------------------------------------------------------------------

  /** The slots from the oldest to the newest. */
  function Queue<K, V>(m: Model<K, V>): seq<Slot<K, V>>
    requires Valid(m)
  {
    m.slots[m.next..] + m.slots[..m.next]
  }

  /** The place of a slot in the queue, which is also how many puts it is from being reused. */
  function Distance<K, V>(m: Model<K, V>, i: nat): (d: nat)
    requires Valid(m) && i < |m.slots|
    ensures d < |m.slots| && Queue(m)[d] == m.slots[i]
  {
    if i >= m.next then i - m.next else i + |m.slots| - m.next
  }

  lemma PutOnQueue<K, V>(m: Model<K, V>, k: K, v: V)
    requires Valid(m)
    ensures Queue(PutModel(m, k, v)) == Queue(m)[1..] + [Some((k, v))]
  {
    var s := m.slots[m.next := Some((k, v))];
    assert s[m.next + 1..] == m.slots[m.next + 1..];
    assert s[..m.next + 1] == m.slots[..m.next] + [Some((k, v))];
    assert s[0..] + s[..0] == s;
    assert s == s[..m.next + 1] + s[m.next + 1..];
  }

  lemma DeleteInQueue<K, V>(m: Model<K, V>, i: nat)
    requires Valid(m) && i < |m.slots|
    ensures Queue(DeleteModel(m, i)) == Queue(m)[Distance(m, i) := None]
  {
    var s := m.slots[i := None];
    if i >= m.next {
      assert s[m.next..] == m.slots[m.next..][i - m.next := None] && s[..m.next] == m.slots[..m.next];
    } else {
      assert s[m.next..] == m.slots[m.next..] && s[..m.next] == m.slots[..m.next][i := None];
    }
  }

  /** Put drops the oldest slot and appends; delete empties a place; clear empties all. */
  lemma RingIsQueue<K, V>(m: Model<K, V>, k: K, v: V, i: nat)
    requires Valid(m) && i < |m.slots|
    ensures Queue(PutModel(m, k, v)) == Queue(m)[1..] + [Some((k, v))]
    ensures Queue(DeleteModel(m, i)) == Queue(m)[Distance(m, i) := None]
    ensures Queue(ClearModel(m)) == Zeroed(|m.slots|)
  {
    PutOnQueue(m, k, v);
    DeleteInQueue(m, i);
    ClearedQueue(m);
    hide *;
  }

  lemma ClearedQueue<K, V>(m: Model<K, V>)
    requires Valid(m)
    ensures Queue(ClearModel(m)) == Zeroed(|m.slots|)
  {
  }

  // ------------------------------------------------------------------------------------------
  // What is destroyed at once
  // ------------------------------------------------------------------------------------------

  /** A slot that holds something, under a given key if there is one. */
  predicate Meant<K(==), V>(s: Slot<K, V>, k: Option<K>) {
    s.Some? && (k.None? || s.value.0 == k.value)
  }

  /** `which` are the slots meant from `from` on, from the lowest up. */
  ghost predicate Picks<K, V>(slots: seq<Slot<K, V>>, k: Option<K>, from: nat, which: seq<nat>) {
    && (forall i, j :: 0 <= i < j < |which| ==> which[i] < which[j])
    && (forall i :: 0 <= i < |which| ==> from <= which[i] < |slots| && Meant(slots[which[i]], k))
    && (forall j :: from <= j < |slots| && Meant(slots[j], k) ==> j in which)
  }

  lemma PicksNext<K, V>(slots: seq<Slot<K, V>>, k: Option<K>, from: nat, which: seq<nat>)
    requires from < |slots| && Picks(slots, k, from + 1, which)
    ensures Picks(slots, k, from, if Meant(slots[from], k) then [from] + which else which)
  {
    hide Meant;
    if Meant(slots[from], k) {
      var all := [from] + which;
      forall j | from <= j < |slots| && Meant(slots[j], k)
        ensures j in all
      {
        assert j == from ==> all[0] == j;
      }
    }
  }

  /** `gone` are the contents of the slots `which`. */
  ghost predicate Held<K, V>(slots: seq<Slot<K, V>>, which: seq<nat>, gone: seq<(K, V)>) {
    |gone| == |which| && forall i :: 0 <= i < |which| ==> which[i] < |slots| && slots[which[i]] == Some(gone[i])
  }

  lemma HeldNext<K, V>(slots: seq<Slot<K, V>>, from: nat, which: seq<nat>, gone: seq<(K, V)>)
    requires from < |slots| && slots[from].Some? && Held(slots, which, gone)
    ensures Held(slots, [from] + which, [slots[from].value] + gone)
  {
  }

  lemma SameLater<K, V>(s: seq<Slot<K, V>>, t: seq<Slot<K, V>>, k: Option<K>, from: nat, which: seq<nat>,
                        gone: seq<(K, V)>)
    requires |s| == |t| && (forall j :: from <= j < |s| ==> s[j] == t[j])
    requires Picks(t, k, from, which) && Held(t, which, gone)
    ensures Picks(s, k, from, which) && Held(s, which, gone)
  {
    hide Meant;
  }

  /** Deleting by key destroys exactly the entries in the slots with that key, from the lowest on, and
    * counts them. */
  lemma {:induction false} DeleteKeyIs<K, V>(m: Model<K, V>, k: K, from: nat)
      returns (which: seq<nat>, gone: seq<(K, V)>)
    requires from <= |m.slots|
    ensures Picks(m.slots, Some(k), from, which) && Held(m.slots, which, gone)
    ensures Matching(m.slots, k, from) == |which|
    ensures DeleteKeyModel(m, k, from).dead == m.dead + gone
    decreases |m.slots| - from
  {
    if from == |m.slots| {
      which, gone := [], [];
    } else {
      DeleteKeyStep(m, k, from);
      hide *;
      if Has(m.slots[from], k) {
        var d := DeleteModel(m, from);
        which, gone := DeleteKeyIs(d, k, from + 1);
        DeleteKeyHit(m, k, from, d, which, gone);
        which, gone := [from] + which, [m.slots[from].value] + gone;
      } else {
        which, gone := DeleteKeyIs(m, k, from + 1);
        PicksNext(m.slots, Some(k), from, which);
      }
    }
  }

  lemma JoinOne<T>(a: seq<T>, x: T, b: seq<T>)
    ensures a + [x] + b == a + ([x] + b)
  {
  }

  lemma Deleted<K, V>(m: Model<K, V>, k: K, from: nat)
    requires from < |m.slots| && m.slots[from].Some? && Has(m.slots[from], k)
    ensures Meant(m.slots[from], Some(k))
    ensures var d := DeleteModel(m, from);
            && |d.slots| == |m.slots| && d.dead == m.dead + [m.slots[from].value]
            && forall j :: from < j < |m.slots| ==> m.slots[j] == d.slots[j]
  {
  }

  /** A slot with the key, in front of what is deleted after it. */
  lemma DeleteKeyHit<K, V>(m: Model<K, V>, k: K, from: nat, d: Model<K, V>, which: seq<nat>, gone: seq<(K, V)>)
    requires from < |m.slots| && m.slots[from].Some? && Has(m.slots[from], k) && d == DeleteModel(m, from)
    requires Picks(d.slots, Some(k), from + 1, which) && Held(d.slots, which, gone)
    ensures Picks(m.slots, Some(k), from, [from] + which) && Held(m.slots, [from] + which, [m.slots[from].value] + gone)
    ensures d.dead + gone == m.dead + ([m.slots[from].value] + gone)
  {
    var x := m.slots[from].value;
    Deleted(m, k, from);
    hide *;
    JoinOne(m.dead, x, gone);
    SameLater(m.slots, d.slots, Some(k), from + 1, which, gone);
    PicksNext(m.slots, Some(k), from, which);
    HeldNext(m.slots, from, which, gone);
  }

  lemma DeleteKeyStep<K, V>(m: Model<K, V>, k: K, from: nat)
    requires from < |m.slots|
    ensures Meant(m.slots[from], Some(k)) <==> Has(m.slots[from], k)
    ensures Has(m.slots[from], k) ==> m.slots[from].Some?
    ensures var d := DeleteModel(m, from);
            && |d.slots| == |m.slots| && (forall j :: from < j < |m.slots| ==> m.slots[j] == d.slots[j])
            && (Has(m.slots[from], k) ==>
                  && d.dead == m.dead + [m.slots[from].value]
                  && DeleteKeyModel(m, k, from) == DeleteKeyModel(d, k, from + 1)
                  && Matching(m.slots, k, from) == 1 + Matching(d.slots, k, from + 1))
    ensures !Has(m.slots[from], k) ==>
              && DeleteKeyModel(m, k, from) == DeleteKeyModel(m, k, from + 1)
              && Matching(m.slots, k, from) == Matching(m.slots, k, from + 1)
  {
    SameMatching(m.slots, DeleteModel(m, from).slots, k, from + 1);
  }

  lemma {:induction false} SameMatching<K, V>(s: seq<Slot<K, V>>, t: seq<Slot<K, V>>, k: K, from: nat)
    requires from <= |s| == |t| && forall j :: from <= j < |s| ==> s[j] == t[j]
    ensures Matching(s, k, from) == Matching(t, k, from)
    decreases |s| - from
  {
    if from < |s| {
      SameMatching(s, t, k, from + 1);
    }
  }

  /** Clearing destroys everything that is there, from the lowest slot on. */
  lemma {:induction false} ClearIs<K, V>(slots: seq<Slot<K, V>>, from: nat) returns (which: seq<nat>)
    requires from <= |slots|
    ensures Picks(slots, None, from, which) && Held(slots, which, Live(slots[from..]))
    decreases |slots| - from
  {
    if from == |slots| {
      which := [];
    } else {
      which := ClearIs(slots, from + 1);
      PicksNext(slots, None, from, which);
      assert slots[from..][1..] == slots[from + 1..];
      assert Meant(slots[from], None) <==> slots[from].Some?;
      hide Picks, Meant, Held;
      if slots[from].Some? {
        HeldNext(slots, from, which, Live(slots[from + 1..]));
        which := [from] + which;
      } else {
        assert [] + Live(slots[from + 1..]) == Live(slots[from + 1..]);
      }
    }
  }

  // ------------------------------------------------------------------------------------------
  // How long a record is found
  // ------------------------------------------------------------------------------------------

  ghost predicate Unique<K, V>(slots: seq<Slot<K, V>>) {
    forall i, j :: 0 <= i < j < |slots| && slots[i].Some? && slots[j].Some? ==>
      slots[i].value.0 != slots[j].value.0
  }

  /** Every put is of a key that is not in the cache at that moment. */
  predicate PutsFollowMisses<K(==), V>(m: Model<K, V>, ops: seq<Op<K, V>>)
    requires Valid(m)
    decreases |ops|
  {
    ops == [] ||
    ((ops[0].Put? ==> FindFrom(m.slots, ops[0].k, 0) == None) && PutsFollowMisses(Step(m, ops[0]), ops[1..]))
  }

  /** Deleting by key empties exactly the slots with that key. */
  lemma {:induction false} DeleteKeySlots<K, V>(m: Model<K, V>, k: K, from: nat)
    requires from <= |m.slots|
    ensures forall i :: 0 <= i < |m.slots| ==>
              DeleteKeyModel(m, k, from).slots[i] == if from <= i && Has(m.slots[i], k) then None else m.slots[i]
    decreases |m.slots| - from
  {
    if from < |m.slots| {
      DeleteKeySlots(if Has(m.slots[from], k) then DeleteModel(m, from) else m, k, from + 1);
    }
  }

  lemma UniqueStep<K, V>(m: Model<K, V>, op: Op<K, V>)
    requires Valid(m) && Unique(m.slots)
    requires op.Put? ==> FindFrom(m.slots, op.k, 0) == None
    ensures Unique(Step(m, op).slots)
  {
    if op.DeleteKey? {
      DeleteKeySlots(m, op.k, 0);
    }
  }

  function Puts<K, V>(ops: seq<Op<K, V>>): nat {
    if ops == [] then 0 else (if ops[0].Put? then 1 else 0) + Puts(ops[1..])
  }

  /** The run neither deletes slot `i` or key `k` nor clears the cache. */
  predicate Spares<K(==), V>(ops: seq<Op<K, V>>, i: nat, k: K) {
    forall j :: 0 <= j < |ops| ==>
      ops[j] != Clear && ops[j] != Delete(i) && ops[j] != DeleteKey(k)
  }

  predicate NeverPuts<K(==), V>(ops: seq<Op<K, V>>, k: K) {
    forall j :: 0 <= j < |ops| && ops[j].Put? ==> ops[j].k != k
  }

  lemma UniqueFound<K, V>(slots: seq<Slot<K, V>>, k: K, i: nat)
    requires Unique(slots) && i < |slots| && Has(slots[i], k)
    ensures FindFrom(slots, k, 0) == Some(i)
  {
  }

  /** One operation: the record stays, one put nearer to its end, or its key is gone. */
  lemma RecordStep<K, V>(m: Model<K, V>, op: Op<K, V>, i: nat, k: K, v: V)
    requires Valid(m) && Unique(m.slots) && i < |m.slots| && m.slots[i] == Some((k, v))
    requires op.Put? ==> op.k != k && FindFrom(m.slots, op.k, 0) == None
    ensures var r := Step(m, op);
            if Spares([op], i, k) && (op.Put? ==> 0 < Distance(m, i)) then
              r.slots[i] == Some((k, v)) && Distance(r, i) == Distance(m, i) - (if op.Put? then 1 else 0)
            else FindFrom(r.slots, k, 0) == None
  {
    UniqueStep(m, op);
    assert Spares([op], i, k) <==> op != Clear && op != Delete(i) && op != DeleteKey(k) by {
      assert [op][0] == op;
    }
    if op.DeleteKey? {
      DeleteKeySlots(m, op.k, 0);
    }
  }

  lemma {:induction false} GoneStaysGone<K, V>(m: Model<K, V>, ops: seq<Op<K, V>>, k: K)
    requires Valid(m) && FindFrom(m.slots, k, 0) == None && NeverPuts(ops, k)
    ensures FindFrom(Run(m, ops).slots, k, 0) == None
    decreases |ops|
  {
    if ops != [] {
      if ops[0].DeleteKey? {
        DeleteKeySlots(m, ops[0].k, 0);
      }
      GoneStaysGone(Step(m, ops[0]), ops[1..], k);
    }
  }

  lemma {:induction false} RecordRun<K, V>(m: Model<K, V>, ops: seq<Op<K, V>>, i: nat, k: K, v: V)
    requires Valid(m) && Unique(m.slots) && i < |m.slots| && m.slots[i] == Some((k, v))
    requires PutsFollowMisses(m, ops) && NeverPuts(ops, k)
    ensures var r := Run(m, ops);
            if Spares(ops, i, k) && Puts(ops) <= Distance(m, i)
            then FindFrom(r.slots, k, 0) == Some(i) && r.slots[i] == Some((k, v))
            else FindFrom(r.slots, k, 0) == None
    decreases |ops|
  {
    if ops == [] {
      UniqueFound(m.slots, k, i);
    } else {
      var op := ops[0];
      RecordStep(m, op, i, k, v);
      UniqueStep(m, op);
      assert Spares(ops, i, k) <==> Spares([op], i, k) && Spares(ops[1..], i, k) by {
        assert ops == [op] + ops[1..];
      }
      var n := Step(m, op);
      if Spares([op], i, k) && (op.Put? ==> 0 < Distance(m, i)) {
        RecordRun(n, ops[1..], i, k, v);
      } else {
        GoneStaysGone(n, ops[1..], k);
      }
    }
  }

  /** A record that is put after a miss is found, in its own slot and with its own value, through
    * any run that puts other keys after misses, exactly until it is deleted or the cache is
    * cleared or as many records are put as the cache has slots. */
  lemma FoundUntil<K, V>(m: Model<K, V>, k: K, v: V, ops: seq<Op<K, V>>)
    requires Valid(m) && Unique(m.slots) && FindFrom(m.slots, k, 0) == None
    requires PutsFollowMisses(PutModel(m, k, v), ops) && NeverPuts(ops, k)
    ensures var r := Run(PutModel(m, k, v), ops);
            if Spares(ops, m.next, k) && Puts(ops) < |m.slots|
            then FindFrom(r.slots, k, 0) == Some(m.next) && r.slots[m.next] == Some((k, v))
            else FindFrom(r.slots, k, 0) == None
  {
    UniqueStep(m, Put(k, v));
    RecordRun(PutModel(m, k, v), ops, m.next, k, v);
  }

  // ------------------------------------------------------------------------------------------
  // Ownership
  // ------------------------------------------------------------------------------------------

  ghost function Count<T>(s: seq<T>, x: T): nat {
    if s == [] then 0 else (if s[0] == x then 1 else 0) + Count(s[1..], x)
  }

  /** How often a run stores a record. */
  ghost function Stored<K, V>(ops: seq<Op<K, V>>, record: (K, V)): nat {
    if ops == [] then 0
    else (if ops[0] == Put(record.0, record.1) then 1 else 0) + Stored(ops[1..], record)
  }

  /** How often the cache holds a record, plus how often it has destroyed it. */
  ghost function Owned<K, V>(m: Model<K, V>, record: (K, V)): nat {
    Count(m.slots, Some(record)) + Count(m.dead, record)
  }

  lemma {:induction false} CountAppend<T>(s: seq<T>, t: seq<T>, x: T)
    ensures Count(s + t, x) == Count(s, x) + Count(t, x)
  {
    if s == [] {
      assert s + t == t;
    } else {
      assert (s + t)[1..] == s[1..] + t && (s + t)[0] == s[0];
      CountAppend(s[1..], t, x);
    }
  }

  lemma {:induction false} CountUpdate<T>(s: seq<T>, i: nat, y: T, x: T)
    requires i < |s|
    ensures Count(s[i := y], x) + (if s[i] == x then 1 else 0) == Count(s, x) + (if y == x then 1 else 0)
  {
    var t := s[i := y];
    if i == 0 {
      assert t[1..] == s[1..];
    } else {
      assert t[1..] == s[1..][i - 1 := y] && t[0] == s[0];
      CountUpdate(s[1..], i - 1, y, x);
    }
  }

  lemma {:induction false} CountLive<K, V>(slots: seq<Slot<K, V>>, record: (K, V))
    ensures Count(Live(slots), record) == Count(slots, Some(record))
  {
    if slots != [] {
      CountLive(slots[1..], record);
      CountAppend(Contents(slots[0]), Live(slots[1..]), record);
      CountContents(slots[0], record);
    }
  }

  lemma CountContents<K, V>(s: Slot<K, V>, record: (K, V))
    ensures Count(Contents(s), record) == if s == Some(record) then 1 else 0
  {
  }

  lemma {:induction false} CountZeroed<K, V>(slots: seq<Slot<K, V>>, record: (K, V))
    requires forall i :: 0 <= i < |slots| ==> slots[i] == None
    ensures Count(slots, Some(record)) == 0
  {
    if slots != [] {
      CountZeroed(slots[1..], record);
    }
  }

  /** Overwriting a slot hands its contents to the destroy functions. */
  lemma OverwriteOwned<K, V>(m: Model<K, V>, i: nat, s: Slot<K, V>, next: nat, record: (K, V))
    requires i < |m.slots|
    ensures Owned(Model(m.slots[i := s], next, m.dead + Contents(m.slots[i])), record)
         == Owned(m, record) + (if s == Some(record) then 1 else 0)
  {
    CountUpdate(m.slots, i, s, Some(record));
    CountAppend(m.dead, Contents(m.slots[i]), record);
    CountContents(m.slots[i], record);
  }

  lemma {:induction false} DeleteKeyOwned<K, V>(m: Model<K, V>, k: K, from: nat, record: (K, V))
    requires from <= |m.slots|
    ensures Owned(DeleteKeyModel(m, k, from), record) == Owned(m, record)
    decreases |m.slots| - from
  {
    if from < |m.slots| {
      OverwriteOwned(m, from, None, m.next, record);
      DeleteKeyOwned(if Has(m.slots[from], k) then DeleteModel(m, from) else m, k, from + 1, record);
    }
  }

  lemma StepOwned<K, V>(m: Model<K, V>, op: Op<K, V>, record: (K, V))
    requires Valid(m)
    ensures Owned(Step(m, op), record) == Owned(m, record) + (if op == Put(record.0, record.1) then 1 else 0)
  {
    match op
    case Put(k, v) => OverwriteOwned(m, m.next, Some((k, v)), Step(m, op).next, record);
    case Find(_) =>
    case Delete(slot) => if slot < |m.slots| { OverwriteOwned(m, slot, None, m.next, record); }
    case DeleteKey(k) => DeleteKeyOwned(m, k, 0, record);
    case Clear =>
      CountZeroed(Zeroed<K, V>(|m.slots|), record);
      CountAppend(m.dead, Live(m.slots), record);
      CountLive(m.slots, record);
  }

  /** Whatever is stored is either still held or was destroyed, as often as it was stored. */
  lemma {:induction false} RunOwned<K, V>(m: Model<K, V>, ops: seq<Op<K, V>>, record: (K, V))
    requires Valid(m)
    ensures Owned(Run(m, ops), record) == Owned(m, record) + Stored(ops, record)
    decreases |ops|
  {
    if ops != [] {
      StepOwned(m, ops[0], record);
      RunOwned(Step(m, ops[0]), ops[1..], record);
    }
  }

  /** A record stored once is destroyed exactly once, when it leaves, and never while held. */
  lemma DestroyedExactlyOnce<K, V>(size: nat, ops: seq<Op<K, V>>, record: (K, V))
    requires 0 < size && Stored(ops, record) == 1
    ensures var r := Run(Model(Zeroed(size), 0, []), ops);
            Count(r.dead, record) == if Some(record) in r.slots then 0 else 1
  {
    var m: Model<K, V> := Model(Zeroed(size), 0, []);
    RunOwned(m, ops, record);
    CountZeroed(m.slots, record);
    CountMember(Run(m, ops).slots, Some(record));
  }

  lemma {:induction false} CountMember<T>(s: seq<T>, x: T)
    ensures x in s <==> 0 < Count(s, x)
  {
    if s != [] {
      CountMember(s[1..], x);
      assert x in s <==> x == s[0] || x in s[1..];
    }
  }
}
