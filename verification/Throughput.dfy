/** The server's throughput limit: ten one-second counters that are shifted as time passes. */
module Throughput {

  const THCCOUNT := 10

  /** `thc[i]` counts the bytes sent `i` seconds before `base`. */
  datatype Window = Window(thc: seq<nat>, base: nat)

  function Zeros(n: nat): (r: seq<nat>)
    ensures |r| == n && forall i :: 0 <= i < n ==> r[i] == 0
  {
    seq(n, _ => 0)
  }

  /** The counters moved up to second `now`. */
  function Advance(w: Window, now: nat): (r: Window)
    requires |w.thc| == THCCOUNT
    ensures |r.thc| == THCCOUNT
    ensures r.base == if now > w.base then now else w.base
  {
    if now <= w.base then w
    else if now > w.base + THCCOUNT then Window(Zeros(THCCOUNT), now)
    else Window(Zeros(now - w.base) + w.thc[..THCCOUNT - (now - w.base)], now)
  }

  lemma ShiftZeros(s: seq<nat>, d: nat)
    requires |s| == THCCOUNT && d < THCCOUNT
    ensures [0] + (Zeros(d) + s[..THCCOUNT - d])[..THCCOUNT - 1] == Zeros(d + 1) + s[..THCCOUNT - (d + 1)]
  {
  }

  function Total(s: seq<nat>): nat {
    if s == [] then 0 else s[0] + Total(s[1..])
  }

  /** Whether a packet may go out now: the average of the window does not exceed the limit. */
  predicate Allowed(w: Window, limit: nat) {
    Total(w.thc) / THCCOUNT <= limit
  }

  /** One call of server_reply: the window after it, and whether the packet was sent. */
  function Reply(w: Window, now: nat, size: nat, limit: nat): (Window, bool)
    requires |w.thc| == THCCOUNT
  {
    var a := Advance(w, now);
    if Allowed(a, limit) then (a.(thc := a.thc[0 := a.thc[0] + size]), true) else (a, false)
  }

  class Throttle {
    const thc: array<nat>
    var thcbase: nat
    const limit: nat

    ghost predicate Ok()
      reads this, thc
    {
      thc.Length == THCCOUNT
    }

    ghost function State(): Window
      reads this, thc
    {
      Window(thc[..], thcbase)
    }

    constructor (limit: nat, now: nat)
      ensures Ok() && State() == Window(Zeros(THCCOUNT), now) && this.limit == limit && fresh(thc)
    {
      thc := new nat[THCCOUNT](_ => 0);
      thcbase := now;
      this.limit := limit;
      new;
      assert thc[..] == Zeros(THCCOUNT);
    }

    /** Moves every counter to the next older second. */
    method ShiftOnce()
      requires Ok()
      modifies this, thc
      ensures Ok() && State() == Window([0] + old(thc[..])[..THCCOUNT - 1], old(thcbase) + 1)
    {
      var i := THCCOUNT - 1;
      while i > 0
        invariant 0 <= i < THCCOUNT && thcbase == old(thcbase)
        invariant forall j :: 0 <= j <= i ==> thc[j] == old(thc[j])
        invariant forall j :: i < j < THCCOUNT ==> thc[j] == old(thc[j - 1])
      {
        thc[i] := thc[i - 1];
        i := i - 1;
      }
      thc[0] := 0;
      thcbase := thcbase + 1;
    }

    method Reset(now: nat)
      requires Ok()
      modifies this, thc
      ensures Ok() && State() == Window(Zeros(THCCOUNT), now)
    {
      var i := 0;
      while i < THCCOUNT
        invariant 0 <= i <= THCCOUNT
        invariant forall j :: 0 <= j < i ==> thc[j] == 0
      {
        thc[i] := 0;
        i := i + 1;
      }
      thcbase := now;
      assert thc[..] == Zeros(THCCOUNT);
    }

    method Shift(now: nat)
      requires Ok()
      modifies this, thc
      ensures Ok() && State() == Advance(old(State()), now)
    {
      if now > thcbase {
        if now > thcbase + THCCOUNT {
          Reset(now);
        } else {
          ghost var d, was := 0, thc[..];
          assert Zeros(0) + was[..THCCOUNT] == was;
          while now > thcbase
            invariant Ok() && 0 <= d <= THCCOUNT && thcbase == old(thcbase) + d <= now
            invariant thc[..] == Zeros(d) + was[..THCCOUNT - d]
            decreases now - thcbase
          {
            ShiftOnce();
            ShiftZeros(was, d);
            d := d + 1;
          }
        }
      }
    }

    method Sum() returns (thcsum: nat)
      requires Ok()
      ensures thcsum == Total(thc[..])
    {
      thcsum := 0;
      var i := 0;
      assert thc[..][0..] == thc[..];
      while i < THCCOUNT
        invariant 0 <= i <= THCCOUNT
        invariant thcsum + Total(thc[..][i..]) == Total(thc[..])
      {
        assert thc[..][i..][1..] == thc[..][i + 1..];
        thcsum := thcsum + thc[i];
        i := i + 1;
      }
    }

    /** The check before a packet is sent.  When it fails the server sleeps and checks again with
      * the same time, so `sent == false` stands for a loop that does not end.  Whatever was sent
      * before, if the counters are right: the packet goes out if and only if the average of the ten
      * seconds up to now is no more than the limit, and the counters are right afterwards. */
    method ServerReply(now: nat, size: nat) returns (sent: bool)
      requires Ok()
      modifies this, thc
      ensures Ok() && (State(), sent) == Reply(old(State()), now, size, limit)
      ensures thcbase == if now > old(thcbase) then now else old(thcbase)
      ensures forall log :: old(Counts(log, State())) ==>
                && (sent <==> SumIn(log, thcbase - 9, thcbase) / 10 <= limit)
                && Counts(if sent then log + [Sent(thcbase, size)] else log, State())
    {
      ghost var w := State();
      Shift(now);
      var thcsum := Sum();
      forall log | Counts(log, w)
        ensures Counts(log, State()) && thcsum == SumIn(log, thcbase - 9, thcbase)
        ensures Counts(log + [Sent(thcbase, size)], State().(thc := thc[..][0 := thc[0] + size]))
      {
        AdvanceCounts(log, w, now);
        TotalIs(log, State(), 0);
        assert thc[..][0..] == thc[..];
        SendCounts(log, State(), size);
      }
      if thcsum / THCCOUNT <= limit {
        ghost var was := thc[..];
        thc[0] := thc[0] + size;
        assert thc[..] == was[0 := was[0] + size];
        return true;
      }
      return false;
    }
  }

  /** Checking again at the same time decides the same, however often. */
  lemma RefusalIsFinal(w: Window, now: nat, size: nat, limit: nat)
    requires |w.thc| == THCCOUNT && !Reply(w, now, size, limit).1
    ensures Reply(Reply(w, now, size, limit).0, now, size, limit) == Reply(w, now, size, limit)
  {
  }

  // ------------------------------------------------------------------------------------------
  // The bound over runs
  // ------------------------------------------------------------------------------------------

  /** A packet sent in a second. */
  datatype Sent = Sent(at: nat, size: nat)

  function SumIn(log: seq<Sent>, lo: int, hi: int): nat {
    if log == [] then 0
    else (if lo <= log[0].at <= hi then log[0].size else 0) + SumIn(log[1..], lo, hi)
  }

  lemma {:induction false} SumInAppend(log: seq<Sent>, p: Sent, lo: int, hi: int)
    ensures SumIn(log + [p], lo, hi) == SumIn(log, lo, hi) + if lo <= p.at <= hi then p.size else 0
  {
    if log == [] {
      assert log + [p] == [p] && [p][1..] == [];
    } else {
      assert (log + [p])[1..] == log[1..] + [p];
      SumInAppend(log[1..], p, lo, hi);
    }
  }

  /** Nothing is logged later than `hi`, so a later window sees no more. */
  lemma {:induction false} SumInMono(log: seq<Sent>, lo: int, hi: int, lo': int, hi': int)
    requires forall i :: 0 <= i < |log| ==> log[i].at <= hi
    requires lo <= lo'
    ensures SumIn(log, lo', hi') <= SumIn(log, lo, hi)
  {
    if log != [] {
      SumInMono(log[1..], lo, hi, lo', hi');
    }
  }

  lemma {:induction false} SumInSplit(log: seq<Sent>, lo: int, mid: int, hi: int)
    requires lo <= mid + 1 && mid <= hi
    ensures SumIn(log, lo, hi) == SumIn(log, lo, mid) + SumIn(log, mid + 1, hi)
  {
    if log != [] {
      SumInSplit(log[1..], lo, mid, hi);
    }
  }

  /** The counters from `i` on add up to what was logged that long ago. */
  lemma {:induction false} TotalIs(log: seq<Sent>, w: Window, i: nat)
    requires |w.thc| == THCCOUNT && i <= THCCOUNT && Counts(log, w)
    ensures Total(w.thc[i..]) == SumIn(log, w.base - (THCCOUNT - 1), w.base - i)
    decreases THCCOUNT - i
  {
    if i < THCCOUNT {
      TotalIs(log, w, i + 1);
      assert w.thc[i..][1..] == w.thc[i + 1..];
      SumInSplit(log, w.base - (THCCOUNT - 1), w.base - i - 1, w.base - i);
    } else {
      EmptyWindow(log, w.base - (THCCOUNT - 1), w.base - i);
    }
  }

  lemma {:induction false} EmptyWindow(log: seq<Sent>, lo: int, hi: int)
    requires hi < lo || forall i :: 0 <= i < |log| ==> log[i].at < lo
    ensures SumIn(log, lo, hi) == 0
  {
    if log != [] {
      EmptyWindow(log[1..], lo, hi);
    }
  }

  /** The counters equal what was logged in each of the last ten seconds. */
  ghost predicate Counts(log: seq<Sent>, w: Window)
    requires |w.thc| == THCCOUNT
  {
    && (forall i :: 0 <= i < THCCOUNT ==> w.thc[i] == SumIn(log, w.base - i, w.base - i))
    && (forall i :: 0 <= i < |log| ==> log[i].at <= w.base)
  }

  lemma AdvanceCounts(log: seq<Sent>, w: Window, now: nat)
    requires |w.thc| == THCCOUNT && Counts(log, w)
    ensures Counts(log, Advance(w, now))
  {
    var a := Advance(w, now);
    forall i | 0 <= i < THCCOUNT
      ensures a.thc[i] == SumIn(log, a.base - i, a.base - i)
    {
      if a.base - i > w.base {
        EmptyWindow(log, a.base - i, a.base - i);
      }
    }
  }

  datatype Attempt = Attempt(now: nat, size: nat)

  /** The window and the log after a run; a refused packet is not sent. */
  function Run(w: Window, log: seq<Sent>, run: seq<Attempt>, limit: nat): (Window, seq<Sent>)
    requires |w.thc| == THCCOUNT
    decreases |run|
  {
    if run == [] then (w, log)
    else
      var (w', sent) := Reply(w, run[0].now, run[0].size, limit);
      Run(w', if sent then log + [Sent(w'.base, run[0].size)] else log, run[1..], limit)
  }

  /** The bytes sent in the ten seconds up to `end`. */
  function LastTen(log: seq<Sent>, end: int): nat {
    SumIn(log, end - (THCCOUNT - 1), end)
  }

  ghost predicate Bounded(log: seq<Sent>, limit: nat, packet: nat) {
    forall end: int :: LastTen(log, end) <= THCCOUNT * limit + THCCOUNT - 1 + packet
  }

  lemma SendBounded(log: seq<Sent>, w: Window, limit: nat, packet: nat, size: nat)
    requires |w.thc| == THCCOUNT && Counts(log, w) && Bounded(log, limit, packet)
    requires Allowed(w, limit) && size <= packet
    ensures Bounded(log + [Sent(w.base, size)], limit, packet)
  {
    TotalIs(log, w, 0);
    assert w.thc[0..] == w.thc;
    forall end: int
      ensures LastTen(log + [Sent(w.base, size)], end) <= THCCOUNT * limit + THCCOUNT - 1 + packet
    {
      assert LastTen(log, end) <= THCCOUNT * limit + THCCOUNT - 1 + packet;
      SumInAppend(log, Sent(w.base, size), end - (THCCOUNT - 1), end);
      if end - (THCCOUNT - 1) <= w.base <= end {
        SumInMono(log, w.base - (THCCOUNT - 1), w.base, end - (THCCOUNT - 1), end);
      }
    }
  }

  lemma SendCounts(log: seq<Sent>, w: Window, size: nat)
    requires |w.thc| == THCCOUNT && Counts(log, w)
    ensures Counts(log + [Sent(w.base, size)], w.(thc := w.thc[0 := w.thc[0] + size]))
  {
    var thc := w.thc[0 := w.thc[0] + size];
    forall i | 0 <= i < THCCOUNT
      ensures thc[i] == SumIn(log + [Sent(w.base, size)], w.base - i, w.base - i)
    {
      SumInAppend(log, Sent(w.base, size), w.base - i, w.base - i);
    }
  }

  /** Over every run the counters are what was sent in the last ten seconds, and in no ten
    * consecutive seconds are more bytes sent than ten times the limit, the nine that the
    * division loses, and one packet. */
  lemma {:induction false} ThroughputBounded(w: Window, log: seq<Sent>, run: seq<Attempt>, limit: nat,
                                             packet: nat)
    requires |w.thc| == THCCOUNT && Counts(log, w) && Bounded(log, limit, packet)
    requires forall i :: 0 <= i < |run| ==> run[i].size <= packet
    ensures var (w', log') := Run(w, log, run, limit);
            |w'.thc| == THCCOUNT && Counts(log', w') && Bounded(log', limit, packet)
    decreases |run|
  {
    if run != [] {
      var a := Advance(w, run[0].now);
      AdvanceCounts(log, w, run[0].now);
      var (w', sent) := Reply(w, run[0].now, run[0].size, limit);
      if sent {
        SendBounded(log, a, limit, packet, run[0].size);
        SendCounts(log, a, run[0].size);
        ThroughputBounded(w', log + [Sent(w'.base, run[0].size)], run[1..], limit, packet);
      } else {
        ThroughputBounded(w', log, run[1..], limit, packet);
      }
    }
  }

  /** The same from the start: whatever is sent through a new throttle, the bound holds. */
  lemma ThroughputFromStart(start: nat, run: seq<Attempt>, limit: nat, packet: nat)
    requires forall i :: 0 <= i < |run| ==> run[i].size <= packet
    ensures var (w, log) := Run(Window(Zeros(THCCOUNT), start), [], run, limit);
            |w.thc| == THCCOUNT && Counts(log, w) && Bounded(log, limit, packet)
  {
    ThroughputBounded(Window(Zeros(THCCOUNT), start), [], run, limit, packet);
  }
}
