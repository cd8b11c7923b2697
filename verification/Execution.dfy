/** Which requests are executed: with goodbyes and without, every other answered one exactly once. */
module Execution {
  import opened Duplicates
  import opened Session

  /** The requests that are goodbyes, as far as they were sent. */
  function Byes(s: State): set<nat> {
    set p | p in s.reqs && p.bye :: p.rid
  }

  predicate Increasing(log: seq<nat>) {
    forall i, j :: 0 <= i < j < |log| ==> log[i] < log[j]
  }

  /** The answered requests but for goodbyes are the dispatched ones, each once and in the client's
    * order. */
  ghost predicate Exact(s: State) {
    Increasing(s.log) && forall rid: nat :: 1 <= rid ==> (rid in s.log <==> rid <= s.served && rid !in Byes(s))
  }

  predicate FirstKeyUsable(s: State) {
    s.served == 0 ==> s.key != s.host.lastKey
  }

  /** All packets of a request say alike whether it is a goodbye, and an answered goodbye was sent. */
  predicate Recorded(s: State) {
    && (forall p :: p in s.reqs ==> 1 <= p.rid <= s.rid && (p.rid == s.rid ==> p.bye == s.bye))
    && (s.closed ==> s.served in Byes(s))
  }

  /** What `ExactRun` keeps beside the invariant. */
  ghost predicate Kept(s: State) {
    Exact(s) && Recorded(s) && FirstKeyUsable(s)
  }

  /** Another request is answered, and recorded if it is not a goodbye. */
  lemma ExactNext(s: State, t: State, rid: nat, bye: bool)
    requires Kept(s) && Byes(t) == Byes(s) && (rid in Byes(s) <==> bye)
    requires forall i :: 0 <= i < |s.log| ==> s.log[i] <= s.served
    requires rid == t.served == s.served + 1 && t.log == if bye then s.log else s.log + [rid]
    ensures Exact(t)
  {
  }

  lemma ExactArrival(c: Config, s: State, p: Request, g: Key)
    requires c.packetLife <= c.sessionTimeout
    requires Inv(c, s) && Kept(s) && Enabled(c, s, Arrive(p, g))
    ensures Kept(Apply(c, s, Arrive(p, g)))
  {
    var t := Apply(c, s, Arrive(p, g));
    Arrival(c, s, p, g);
    assert RequestOk(s, p) && p in s.reqs;
    assert Byes(t) == Byes(s);
    hide Serve, ByeAlone, Keys, ReplyOk, RequestOk;
    if t.served != s.served || t.log != s.log {
      assert t.served == p.rid == s.served + 1 == s.rid;
      assert p.rid in Byes(s) <==> p.bye;
      ExactNext(s, t, p.rid, p.bye);
    }
  }

  lemma ExactSend(c: Config, s: State)
    requires Inv(c, s) && Kept(s) && s.busy
    ensures Kept(Apply(c, s, Send))
  {
    var t := Apply(c, s, Send);
    assert Byes(t) == if s.bye then Byes(s) + {s.rid} else Byes(s);
  }

  lemma ExactStep(c: Config, s: State, a: Step)
    requires c.packetLife <= c.sessionTimeout
    requires Inv(c, s) && Kept(s) && Enabled(c, s, a)
    ensures Kept(Apply(c, s, a))
  {
    match a
    case Arrive(p, g) => ExactArrival(c, s, p, g);
    case Send => ExactSend(c, s);
    case Answer(q) => assert ReplyOk(s, q);
    case _ => assert Byes(Apply(c, s, a)) == Byes(s);
  }

  lemma {:induction false} ExactRun(c: Config, s: State, steps: seq<Step>)
    requires c.packetLife <= c.sessionTimeout
    requires Inv(c, s) && Kept(s) && Run(c, s, steps) && Patient(c, c.packetLife, s, steps)
    ensures Kept(Final(c, s, steps))
    decreases |steps|
  {
    hide Inv, Kept, Apply, Enabled, Paused;
    if steps != [] {
      InvStep(c, s, steps[0]);
      ExactStep(c, s, steps[0]);
      ExactRun(c, Apply(c, s, steps[0]), steps[1..]);
    }
  }

  lemma KeptInitial(s: State)
    requires Initial(s) && s.key != 0
    ensures Kept(s)
  {
  }

  /** What holds at the end of every run in which the client pauses before its goodbyes. */
  lemma ReachableExact(c: Config, s: State, steps: seq<Step>)
    requires c.packetLife <= c.sessionTimeout
    requires Initial(s) && s.key != 0 && Run(c, s, steps) && Patient(c, c.packetLife, s, steps)
    ensures var t := Final(c, s, steps); Inv(c, t) && Kept(t)
  {
    Reachable(c, s, steps);
    InvInitial(c, s);
    KeptInitial(s);
    ExactRun(c, s, steps);
  }

  /** Whether the client's current request was executed. */
  lemma CurrentIsLogged(c: Config, s: State)
    requires Inv(c, s) && Kept(s) && 1 <= s.rid
    ensures s.rid in s.log <==> s.rid <= s.served && s.rid !in Byes(s)
    ensures s.rid in Byes(s) ==> s.bye
  {
  }

  // ------------------------------------------------------------------------------------------
  // Exactly once
  // ------------------------------------------------------------------------------------------

  ghost predicate AlwaysExact(c: Config, pause: nat, s: State) {
    forall steps :: Run(c, s, steps) && Patient(c, pause, s, steps) ==> Exact(Final(c, s, steps))
  }

  /** The only way to be answered without having been executed: the client's first key is the
    * zero that the new record holds as its last key, and damage made another key current. */
  function ZeroKeyLost(c: Config, start: nat): seq<Step> {
    [Damaged(5)] + ([Tick(c.retryTimeout)] + ([Begin(0, false)] + ([Send] +
    ([Arrive(Request(0, 0, 1, start + c.retryTimeout, false), 7)] + []))))
  }

  lemma ZeroKeyLostRuns(c: Config, pause: nat, s: State)
    requires Initial(s) && s.key == 0
    requires 0 < c.packetLife
    ensures var steps := ZeroKeyLost(c, s.now); Run(c, s, steps) && NoBye(steps) && Patient(c, pause, s, steps)
    ensures !Exact(Final(c, s, ZeroKeyLost(c, s.now)))
  {
    var p := Request(0, 0, 1, s.now + c.retryTimeout, false);
    var s1 := Apply(c, s, Damaged(5));
    var s2 := Apply(c, s1, Tick(c.retryTimeout));
    var s3 := Apply(c, s2, Begin(0, false));
    var s4 := Apply(c, s3, Send);
    var s5 := Apply(c, s4, Arrive(p, 7));
    assert s4.host == Host(5, 0, true, s.now) && s4.reqs == {p};
    assert s5.log == [] && s5.served == 1 && 1 !in Byes(s5);
    Cons(c, pause, s4, Arrive(p, 7), []);
    var r3 := [Arrive(p, 7)] + [];
    Cons(c, pause, s3, Send, r3);
    Cons(c, pause, s2, Begin(0, false), [Send] + r3);
    var r1 := [Begin(0, false)] + ([Send] + r3);
    Cons(c, pause, s1, Tick(c.retryTimeout), r1);
    Cons(c, pause, s, Damaged(5), [Tick(c.retryTimeout)] + r1);
  }

  /** If the client pauses before its goodbyes: every other answered request was executed exactly
    * once, in order, in every run, exactly when the client's first key is not the zero of a fresh
    * server record. */
  lemma ExactlyOnce(c: Config, pause: nat, s: State)
    requires 0 < c.packetLife <= c.sessionTimeout && c.packetLife <= pause
    requires Initial(s)
    ensures AlwaysExact(c, pause, s) <==> s.key != 0
  {
    if s.key != 0 {
      forall steps | Run(c, s, steps) && Patient(c, pause, s, steps)
        ensures Exact(Final(c, s, steps))
      {
        PatientFor(c, c.packetLife, pause, s, steps);
        ReachableExact(c, s, steps);
      }
    } else {
      ZeroKeyLostRuns(c, pause, s);
    }
  }

  ghost predicate AlwaysExactFrom(c: Config, pause: nat) {
    forall s :: Initial(s) && s.key != 0 ==> AlwaysExact(c, pause, s)
  }

  /** From every first key but zero the same holds exactly when no packet outlives the session timeout
    * or the client's pause before a goodbye. */
  lemma ExactlyOnceAcrossGoodbyes(c: Config, pause: nat)
    ensures AlwaysExactFrom(c, pause) <==> c.packetLife <= c.sessionTimeout && c.packetLife <= pause
  {
    if c.packetLife <= c.sessionTimeout && c.packetLife <= pause {
      forall s, steps | Initial(s) && s.key != 0 && Run(c, s, steps) && Patient(c, pause, s, steps)
        ensures Exact(Final(c, s, steps))
      {
        PatientFor(c, c.packetLife, pause, s, steps);
        ReachableExact(c, s, steps);
      }
    } else {
      var s := QuietStart();
      if pause < c.packetLife {
        GoodbyeForgets(c, s, pause);
        NotExact(c, pause, s, LateDuplicate(pause, 0, true));
      } else {
        OneRepeats(c, pause, s);
        NotExact(c, pause, s, LateDuplicate(0, c.sessionTimeout, false));
      }
    }
  }

  lemma NotExact(c: Config, pause: nat, s: State, steps: seq<Step>)
    requires Initial(s) && s.key != 0 && Run(c, s, steps) && Patient(c, pause, s, steps)
    requires !NoRepeat(Final(c, s, steps).log)
    ensures !AlwaysExactFrom(c, pause)
  {
    hide Run, Patient, Final, Initial;
    assert !Exact(Final(c, s, steps));
    assert !AlwaysExact(c, pause, s);
  }

  /** When the client takes a reply, its current request, if not a goodbye, has been executed exactly
    * once, and after all the others. */
  lemma AcceptedMeansExecuted(c: Config, s: State, steps: seq<Step>, q: Reply)
    requires c.packetLife <= c.sessionTimeout
    requires Initial(s) && s.key != 0 && Run(c, s, steps) && Patient(c, c.packetLife, s, steps)
    requires var t := Final(c, s, steps); LiveReply(c, t, q) && t.busy && q.base == t.base
    ensures var t := Final(c, s, steps);
            && q.rid == t.rid
            && multiset(t.log)[t.rid] == (if t.bye then 0 else 1)
            && (!t.bye ==> t.log != [] && t.log[|t.log| - 1] == t.rid)
  {
    var t := Final(c, s, steps);
    ReachableExact(c, s, steps);
    assert ReplyOk(t, q);
    assert t.rid in t.log <==> !t.bye;
    if !t.bye {
      LastOnce(t.log, t.rid);
    }
  }

  lemma LastOnce(log: seq<nat>, x: nat)
    requires Increasing(log) && x in log && forall i :: 0 <= i < |log| ==> log[i] <= x
    ensures log[|log| - 1] == x && multiset(log)[x] == 1
  {
    var front := log[..|log| - 1];
    var i :| 0 <= i < |log| && log[i] == x;
    assert log[|log| - 1] <= x;
    assert log == front + [x];
    assert x !in front;
  }
}
