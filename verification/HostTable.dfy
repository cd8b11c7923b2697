/** The server's table of hosts: a sorted array with a sentinel at either end, searched by
  * bisection and grown by shifting. */
module HostTable {

  const HALLOC_SIZE := 30
  const MAXINT := 0xffff_ffff

  type Address = a: nat | a <= 0xffff_ffff witness 0

  /** What the table keeps for a host; `session` stands for its keys and times, and the access
    * counter is a 16-bit number. */
  datatype Record = Record(inetNum: Address, session: int, accCnt: nat)

  const HZERO := Record(0, 0, 0)

  predicate Sorted(rs: seq<Record>) {
    forall i, j :: 0 <= i < j < |rs| ==> rs[i].inetNum < rs[j].inetNum
  }

  /** A table as the server starts with it and keeps it. */
  predicate WellFormed(rs: seq<Record>) {
    2 <= |rs| && Sorted(rs) && rs[0].inetNum == 0 && rs[|rs| - 1].inetNum == MAXINT
  }

  /** How many records have a smaller address. */
  function Below(rs: seq<Record>, a: Address): (n: nat)
    ensures n <= |rs|
  {
    if rs == [] then 0 else (if rs[0].inetNum < a then 1 else 0) + Below(rs[1..], a)
  }

  /** Whether the bisection meets the address: it never looks at the sentinels. */
  predicate Inside(rs: seq<Record>, a: Address) {
    var n := Below(rs, a);
    0 < n < |rs| - 1 && rs[n].inetNum == a
  }

  function Touch(r: Record): Record {
    r.(accCnt := (r.accCnt + 1) % 0x1_0000)
  }

  /** The table after a lookup. */
  function AfterFind(rs: seq<Record>, a: Address): seq<Record> {
    var n := Below(rs, a);
    if Inside(rs, a) then rs[n := Touch(rs[n])]
    else rs[..n] + [HZERO.(inetNum := a)] + rs[n..]
  }

  /** In a sorted table the smaller addresses come first. */
  lemma {:induction false} BelowIs(rs: seq<Record>, a: Address, n: nat)
    requires n <= |rs|
    requires forall i :: 0 <= i < n ==> rs[i].inetNum < a
    requires forall i :: n <= i < |rs| ==> a <= rs[i].inetNum
    ensures Below(rs, a) == n
  {
    if rs != [] {
      BelowIs(rs[1..], a, if n == 0 then 0 else n - 1);
    }
  }

  lemma {:induction false} BelowSplits(rs: seq<Record>, a: Address)
    requires Sorted(rs)
    ensures forall i :: 0 <= i < |rs| ==> (i < Below(rs, a) <==> rs[i].inetNum < a)
  {
    if rs != [] {
      BelowSplits(rs[1..], a);
      assert forall i :: 1 <= i < |rs| ==> rs[i] == rs[1..][i - 1];
      if rs[0].inetNum >= a && |rs| > 1 {
        assert rs[1].inetNum > a;
        assert Below(rs[1..], a) == 0;
      }
    }
  }

  class Table {
    var htab: array<Record>
    var hcnt: nat

    ghost predicate Ok()
      reads this, htab
    {
      hcnt <= htab.Length && WellFormed(htab[..hcnt])
    }

    /** Always two entries: the smallest and the largest address. */
    constructor ()
      ensures Ok() && htab[..hcnt] == [Record(0, 0, 0), Record(0xffff_ffff, 0, 0)] && fresh(htab)
    {
      htab := new Record[HALLOC_SIZE](_ => HZERO);
      hcnt := 2;
      new;
      htab[1] := HZERO.(inetNum := MAXINT);
    }

    /** Bisection between the sentinels: the place of the address, or where it would go. */
    method Search(a: Address) returns (m: nat, found: bool)
      requires Ok()
      ensures m < hcnt && m == Below(htab[..hcnt], a) && found == Inside(htab[..hcnt], a)
    {
      ghost var rs := htab[..hcnt];
      BelowSplits(rs, a);
      var l, h := 0, hcnt - 1;
      m := (l + h) / 2;
      while m != l
        invariant 0 <= l < h < hcnt && m == (l + h) / 2
        invariant l == 0 || htab[l].inetNum < a
        invariant h == hcnt - 1 || a < htab[h].inetNum
        decreases h - l
      {
        var inum := htab[m].inetNum;
        assert htab[m] == rs[m];
        if inum > a {
          h := m;
        } else if inum < a {
          l := m;
        } else {
          FoundAt(rs, a, m);
          return m, true;
        }
        m := (l + h) / 2;
      }
      assert h == l + 1 && htab[l] == rs[l] && htab[h] == rs[h];
      if htab[m].inetNum < a {
        m := m + 1;
      }
      NotFoundAt(rs, a, m, l);
      found := false;
    }

    /** The record of an address, made if there is none; the result is its index. */
    method FindHost(a: Address) returns (m: nat)
      requires Ok()
      modifies this, htab
      ensures hcnt <= htab.Length && (htab == old(htab) || fresh(htab))
      ensures htab[..hcnt] == AfterFind(old(htab[..hcnt]), a)
      ensures m < hcnt && htab[m].inetNum == a
    {
      hide *;
      Fits(this);
      ghost var rs := htab[..hcnt];
      var found;
      m, found := Search(a);
      AfterFindAt(rs, a, m, found);
      if found {
        CountAccess(m);
        assert htab[m] == htab[..hcnt][m];
        return;
      }
      Insert(m, HZERO.(inetNum := a));
    }

    method CountAccess(m: nat)
      requires m < hcnt <= htab.Length
      modifies htab
      ensures htab[..hcnt] == old(htab[..hcnt])[m := Touch(old(htab[m]))]
    {
      htab[m] := htab[m].(accCnt := (htab[m].accCnt + 1) % 0x1_0000);
    }

    /** Puts a record in at `m`, with more room if the array is full. */
    method Insert(m: nat, r: Record)
      requires m <= hcnt <= htab.Length
      modifies this, htab
      ensures hcnt == old(hcnt) + 1 <= htab.Length && (htab == old(htab) || fresh(htab))
      ensures htab[..hcnt] == old(htab[..m]) + [r] + old(htab[m..hcnt])
    {
      ghost var rs := htab[..hcnt];
      if hcnt + 1 > htab.Length {
        Grow();
      }
      Same(htab[..], rs, m);
      Shift(m);
      htab[m] := r;
      hcnt := hcnt + 1;
      Glue(htab[..], rs, m, r);
    }

    /** Adds room for more records. */
    method Grow()
      requires hcnt <= htab.Length
      modifies this`htab
      ensures fresh(htab) && htab.Length == old(htab.Length) + HALLOC_SIZE
      ensures htab[..hcnt] == old(htab[..hcnt])
    {
      var bigger := new Record[htab.Length + HALLOC_SIZE](_ => HZERO);
      var i := 0;
      while i < hcnt
        invariant 0 <= i <= hcnt && htab == old(htab) && bigger[..i] == htab[..i]
      {
        bigger[i] := htab[i];
        i := i + 1;
      }
      htab := bigger;
    }

    /** Moves the records from `m` on up by one. */
    method Shift(m: nat)
      requires m <= hcnt < htab.Length
      modifies htab
      ensures htab[..m] == old(htab[..m]) && htab[m + 1..hcnt + 1] == old(htab[m..hcnt])
    {
      var hd := hcnt;
      while hd > m
        invariant m <= hd <= hcnt
        invariant htab[..hd] == old(htab[..hd])
        invariant htab[hd + 1..hcnt + 1] == old(htab[hd..hcnt])
      {
        htab[hd] := htab[hd - 1];
        hd := hd - 1;
      }
    }
  }

  lemma Fits(t: Table)
    requires t.Ok()
    ensures t.hcnt <= t.htab.Length
  {
  }

  lemma AfterFindAt(rs: seq<Record>, a: Address, m: nat, found: bool)
    requires m == Below(rs, a) && found == Inside(rs, a)
    ensures found ==> m < |rs| && Touch(rs[m]).inetNum == a
    ensures AfterFind(rs, a) == if found then rs[m := Touch(rs[m])] else rs[..m] + [HZERO.(inetNum := a)] + rs[m..]
  {
  }

  lemma Same(b: seq<Record>, rs: seq<Record>, m: nat)
    requires m <= |rs| <= |b| && b[..|rs|] == rs
    ensures b[..m] == rs[..m] && b[m..|rs|] == rs[m..]
  {
  }

  lemma Glue(b: seq<Record>, rs: seq<Record>, m: nat, r: Record)
    requires m <= |rs| < |b| && b[..m] == rs[..m] && b[m] == r && b[m + 1..|rs| + 1] == rs[m..]
    ensures b[..|rs| + 1] == rs[..m] + [r] + rs[m..]
  {
    assert b[..|rs| + 1] == b[..m] + [b[m]] + b[m + 1..|rs| + 1];
  }

  lemma FoundAt(rs: seq<Record>, a: Address, m: nat)
    requires WellFormed(rs) && 0 < m < |rs| - 1 && rs[m].inetNum == a
    ensures Below(rs, a) == m && Inside(rs, a)
  {
    BelowIs(rs, a, m);
  }

  lemma NotFoundAt(rs: seq<Record>, a: Address, m: nat, l: nat)
    requires WellFormed(rs) && l + 1 < |rs|
    requires l == 0 || rs[l].inetNum < a
    requires l + 1 == |rs| - 1 || a < rs[l + 1].inetNum
    requires m == if rs[l].inetNum < a then l + 1 else l
    ensures Below(rs, a) == m && !Inside(rs, a)
  {
    BelowIs(rs, a, m);
  }

  // ------------------------------------------------------------------------------------------
  // The table over runs of lookups
  // ------------------------------------------------------------------------------------------

  predicate Ordinary(a: Address) {
    0 < a < MAXINT
  }

  lemma SentinelTwice(rs: seq<Record>, a: Address)
    requires WellFormed(rs) && !Ordinary(a)
    ensures !Sorted(AfterFind(rs, a))
  {
    var n, t := if a == 0 then 0 else |rs| - 1, AfterFind(rs, a);
    BelowIs(rs, a, n);
    assert t[n].inetNum == a && t[n + 1].inetNum == a;
  }

  lemma InsertSorted(rs: seq<Record>, a: Address)
    requires WellFormed(rs) && Ordinary(a)
    ensures WellFormed(AfterFind(rs, a))
  {
    BelowSplits(rs, a);
    var n, t := Below(rs, a), AfterFind(rs, a);
    assert 0 < n < |rs|;
    if !Inside(rs, a) {
      assert rs[n].inetNum > a;
      hide Below;
      assert forall i :: 0 <= i < n ==> t[i] == rs[i];
      assert forall i :: n < i < |t| ==> t[i] == rs[i - 1];
    }
  }

  /** One lookup keeps the table well formed exactly when the address is not a sentinel's. */
  lemma KeptWellFormed(rs: seq<Record>, a: Address)
    requires WellFormed(rs)
    ensures WellFormed(AfterFind(rs, a)) <==> Ordinary(a)
  {
    if Ordinary(a) {
      InsertSorted(rs, a);
    } else {
      SentinelTwice(rs, a);
    }
  }

  /** The record that the table has for an address, if any. */
  function Lookup(rs: seq<Record>, a: Address): (r: seq<Record>)
    ensures |r| <= 1
  {
    var n := Below(rs, a);
    if n < |rs| && rs[n].inetNum == a then [rs[n]] else []
  }

  lemma LookupIs(rs: seq<Record>, a: Address, i: nat)
    requires Sorted(rs) && i < |rs| && rs[i].inetNum == a
    ensures Lookup(rs, a) == [rs[i]]
  {
    BelowIs(rs, a, i);
  }

  lemma LookupNone(rs: seq<Record>, a: Address)
    requires Sorted(rs) && forall i :: 0 <= i < |rs| ==> rs[i].inetNum != a
    ensures Lookup(rs, a) == []
  {
  }

  /** A lookup changes no record of another address. */
  lemma {:induction false} OthersStay(rs: seq<Record>, a: Address, b: Address)
    requires WellFormed(rs) && Sorted(AfterFind(rs, a)) && b != a
    ensures Lookup(AfterFind(rs, a), b) == Lookup(rs, b)
  {
    hide Below;
    if Lookup(rs, b) != [] {
      OtherKept(rs, a, b);
    } else {
      OtherNotMade(rs, a, b);
    }
  }

  lemma {:induction false} OtherKept(rs: seq<Record>, a: Address, b: Address)
    requires Sorted(AfterFind(rs, a)) && b != a && Lookup(rs, b) != []
    ensures Lookup(AfterFind(rs, a), b) == Lookup(rs, b)
  {
    hide Below, Touch, Sorted;
    var n, t, i := Below(rs, a), AfterFind(rs, a), Below(rs, b);
    LookupIs(t, b, if Inside(rs, a) || i < n then i else i + 1);
  }

  lemma {:induction false} OtherNotMade(rs: seq<Record>, a: Address, b: Address)
    requires Sorted(rs) && Sorted(AfterFind(rs, a)) && b != a && Lookup(rs, b) == []
    ensures Lookup(AfterFind(rs, a), b) == []
  {
    hide Below;
    var t := AfterFind(rs, a);
    forall i | 0 <= i < |rs| ensures rs[i].inetNum != b {
      if rs[i].inetNum == b {
        LookupIs(rs, b, i);
      }
    }
    hide Sorted;
    assert forall i :: 0 <= i < |t| ==>
      t[i].inetNum == a || (exists j :: 0 <= j < |rs| && t[i].inetNum == rs[j].inetNum);
    LookupNone(t, b);
  }

  /** A lookup gives the address its one record, new or with the counter raised, and changes the
    * record of no other address. */
  lemma FindRefinesMap(rs: seq<Record>, a: Address, b: Address)
    requires WellFormed(rs) && Ordinary(a)
    ensures Lookup(AfterFind(rs, a), b) ==
            if b != a then Lookup(rs, b)
            else if Lookup(rs, a) == [] then [Record(a, 0, 0)]
            else var r := Lookup(rs, a)[0]; [Record(a, r.session, (r.accCnt + 1) % 0x1_0000)]
  {
    KeptWellFormed(rs, a);
    BelowSplits(rs, a);
    var n, t := Below(rs, a), AfterFind(rs, a);
    if b == a {
      LookupIs(t, a, n);
    } else {
      OthersStay(rs, a, b);
    }
  }

  /** The table after a run of lookups. */
  function AfterRun(rs: seq<Record>, run: seq<Address>): seq<Record>
    decreases |run|
  {
    if run == [] then rs else AfterRun(AfterFind(rs, run[0]), run[1..])
  }

  function Occurrences(run: seq<Address>, b: Address): nat {
    if run == [] then 0 else (if run[0] == b then 1 else 0) + Occurrences(run[1..], b)
  }

  /** Raising the counter several times. */
  function TouchTimes(r: Record, n: nat): Record {
    r.(accCnt := (r.accCnt + n) % 0x1_0000)
  }

  /** The record of `b`, if any, after `n` lookups of it; the one that makes it is not counted. */
  function Expected(found: seq<Record>, b: Address, n: nat): seq<Record> {
    if found != [] then [TouchTimes(found[0], n)]
    else if n == 0 then [] else [TouchTimes(HZERO.(inetNum := b), n - 1)]
  }

  lemma ExpectedNow(found: seq<Record>, b: Address)
    requires |found| <= 1 && (found != [] ==> found[0].accCnt < 0x1_0000)
    ensures Expected(found, b, 0) == found
  {
  }

  lemma ExpectedStep(found: seq<Record>, b: Address, n: nat)
    ensures Expected(if found == [] then [HZERO.(inetNum := b)] else [Touch(found[0])], b, n)
         == Expected(found, b, n + 1)
  {
  }

  predicate SmallCounters(rs: seq<Record>) {
    forall i :: 0 <= i < |rs| ==> rs[i].accCnt < 0x1_0000
  }

  lemma CountersStaySmall(rs: seq<Record>, a: Address)
    requires SmallCounters(rs)
    ensures SmallCounters(AfterFind(rs, a))
  {
  }

  /** After any run of lookups of ordinary addresses the table is well formed, an address has a
    * record exactly if it had one or was looked up, and its counter tells how often, modulo the
    * counter's width. */
  lemma {:induction false} RunKeepsMap(rs: seq<Record>, run: seq<Address>, b: Address)
    requires WellFormed(rs) && SmallCounters(rs) && forall i :: 0 <= i < |run| ==> Ordinary(run[i])
    ensures WellFormed(AfterRun(rs, run))
    ensures Lookup(AfterRun(rs, run), b) == Expected(Lookup(rs, b), b, Occurrences(run, b))
    decreases |run|
  {
    hide Expected, AfterFind, WellFormed;
    if run == [] {
      ExpectedNow(Lookup(rs, b), b);
    } else {
      KeptWellFormed(rs, run[0]);
      FindRefinesMap(rs, run[0], b);
      CountersStaySmall(rs, run[0]);
      hide SmallCounters, Lookup, Touch;
      RunKeepsMap(AfterFind(rs, run[0]), run[1..], b);
      if run[0] == b {
        ExpectedStep(Lookup(rs, b), b, Occurrences(run[1..], b));
      }
    }
  }
}
