/** How client and server keep in step: the keys that each holds, what a damaged packet and a client
 * that starts anew do to them, and which packets are served.  Goodbyes may come anywhere, if the
 * client pauses before them. */
module KeyLockstep {
  import opened Duplicates
  import opened Execution
  import opened Session

  /** While a session is active the client holds one of the server's two keys. */
  predicate HoldsKey(s: State) {
    s.host.active ==> s.key == s.host.nextKey || s.key == s.host.lastKey
  }

  /** An answer to the request answered last. */
  predicate LiveAnswer(c: Config, s: State, q: Reply) {
    LiveReply(c, s, q) && q.rid == s.served
  }

  /** So it will when it takes the answer that it is waiting for: every copy still alive carries the
    * server's next key. */
  ghost predicate InStep(c: Config, s: State) {
    s.host.active ==> HoldsKey(s) && (Waiting(s) ==> forall q :: LiveAnswer(c, s, q) ==> q.key == s.host.nextKey)
  }

  predicate Silent(c: Config, s: State) {
    s.host.lastAcc + c.sessionTimeout <= s.now
  }

  /** A damaged packet parts the client from the server.  In a session, it comes after a silence of
    * the session timeout and carries neither of the server's keys; it does no harm while the client
    * still has the last key, waiting for an answer of which no copy is alive.  On a record without
    * session, it makes its key the next one, and that is neither of the keys that the client has or
    * will be given. */
  ghost predicate DamageParts(c: Config, s: State, k: Key) {
    if s.host.active then
      && k != s.host.nextKey && k != s.host.lastKey && Silent(c, s)
      && (s.key != s.host.lastKey || (Waiting(s) && exists q :: LiveAnswer(c, s, q)))
    else
      || (s.key != k && s.key != s.host.lastKey)
      || (Waiting(s) && exists q :: LiveAnswer(c, s, q) && q.key != k)
  }

  /** The steps that part the client from the server: such a packet, or a client that starts anew with
    * another key than the next one while a damaged packet has made the record active again. */
  ghost predicate Disturbs(c: Config, s: State, a: Step) {
    match a
    case Damaged(k) => DamageParts(c, s, k)
    case Restart(k) => s.host.active && k != s.host.nextKey
    case _ => false
  }

  ghost predicate Undisturbed(c: Config, s: State, steps: seq<Step>)
    decreases |steps|
  {
    steps == [] || (!Disturbs(c, s, steps[0]) && Undisturbed(c, Apply(c, s, steps[0]), steps[1..]))
  }

  ghost predicate InStepThroughout(c: Config, s: State, steps: seq<Step>)
    decreases |steps|
  {
    InStep(c, s) && (steps == [] || InStepThroughout(c, Apply(c, s, steps[0]), steps[1..]))
  }

  /** One damaged packet breaks the lockstep exactly when it parts them. */
  lemma DamageBreaksLockstep(c: Config, s: State, k: Key)
    requires Inv(c, s) && InStep(c, s)
    ensures InStep(c, Apply(c, s, Damaged(k))) <==> !DamageParts(c, s, k)
  {
    var t := Apply(c, s, Damaged(k));
    assert forall q :: LiveAnswer(c, t, q) <==> LiveAnswer(c, s, q);
    hide LiveAnswer;
  }

  /** A client that starts anew breaks it exactly when it meets an active record with another key. */
  lemma RestartBreaksLockstep(c: Config, s: State, k: Key)
    requires Inv(c, s) && InStep(c, s) && Enabled(c, s, Restart(k))
    ensures InStep(c, Apply(c, s, Restart(k))) <==> !(s.host.active && k != s.host.nextKey)
  {
  }

  lemma ArrivalKeepsLockstep(c: Config, s: State, p: Request, g: Key)
    requires c.packetLife <= c.sessionTimeout
    requires Inv(c, s) && InStep(c, s) && Enabled(c, s, Arrive(p, g))
    ensures InStep(c, Apply(c, s, Arrive(p, g)))
  {
    var t := Apply(c, s, Arrive(p, g));
    Arrival(c, s, p, g);
    assert RequestOk(s, p);
    hide Serve, ByeAlone;
    forall q | LiveAnswer(c, t, q) && t.host.active && Waiting(t)
      ensures q.key == t.host.nextKey
    {
      assert q in s.reps ==> LiveReply(c, s, q) && ReplyOk(s, q);
      assert q in s.reps && q.rid == s.served ==> LiveAnswer(c, s, q);
    }
  }

  /** Nothing else does. */
  lemma OthersKeepLockstep(c: Config, s: State, a: Step)
    requires c.packetLife <= c.sessionTimeout
    requires Inv(c, s) && InStep(c, s) && Enabled(c, s, a)
    requires !a.Damaged? && !a.Restart?
    ensures InStep(c, Apply(c, s, a))
  {
    if a.Arrive? {
      ArrivalKeepsLockstep(c, s, a.p, a.generated);
    } else {
      if a.Answer? {
        assert ReplyOk(s, a.q) && (a.q.rid == s.served ==> LiveAnswer(c, s, a.q));
      }
      assert forall q :: LiveAnswer(c, Apply(c, s, a), q) ==> LiveAnswer(c, s, q);
      hide Serve, ByeAlone;
    }
  }

  lemma StepBreaksLockstep(c: Config, s: State, a: Step)
    requires c.packetLife <= c.sessionTimeout
    requires Inv(c, s) && InStep(c, s) && Enabled(c, s, a)
    ensures InStep(c, Apply(c, s, a)) <==> !Disturbs(c, s, a)
  {
    hide Inv, InStep, Apply, DamageParts, Enabled;
    match a
    case Damaged(k) => DamageBreaksLockstep(c, s, k);
    case Restart(k) => RestartBreaksLockstep(c, s, k);
    case _ => OthersKeepLockstep(c, s, a);
  }

  lemma {:induction false} LockstepRun(c: Config, s: State, steps: seq<Step>)
    requires c.packetLife <= c.sessionTimeout
    requires Inv(c, s) && InStep(c, s) && Run(c, s, steps) && Patient(c, c.packetLife, s, steps)
    ensures InStepThroughout(c, s, steps) <==> Undisturbed(c, s, steps)
    ensures Undisturbed(c, s, steps) ==> InStep(c, Final(c, s, steps))
    decreases |steps|
  {
    hide Inv, InStep, Apply, Disturbs, Enabled, Paused;
    if steps != [] {
      InvStep(c, s, steps[0]);
      StepBreaksLockstep(c, s, steps[0]);
      if InStep(c, Apply(c, s, steps[0])) {
        LockstepRun(c, Apply(c, s, steps[0]), steps[1..]);
      }
    }
  }

  /** In every run in which the client pauses before its goodbyes, damage or not: client and server
    * stay in step throughout exactly when nothing disturbs them. */
  lemma Lockstep(c: Config, s: State, steps: seq<Step>)
    requires c.packetLife <= c.sessionTimeout
    requires Initial(s) && Run(c, s, steps) && Patient(c, c.packetLife, s, steps)
    ensures InStepThroughout(c, s, steps) <==> Undisturbed(c, s, steps)
    ensures Undisturbed(c, s, steps) ==> InStep(c, Final(c, s, steps))
  {
    InvInitial(c, s);
    LockstepRun(c, s, steps);
  }

  /** A goodbye is answered, a damaged packet makes the record active again, and a new client starts. */
  function LateStranger(): seq<Step> {
    var p := Request(1, 0, 1, 0, true);
    [Begin(0, true)] + ([Send] + ([Arrive(p, 2)] + ([Answer(Reply(2, 0, 1, 0))] +
    ([Damaged(9)] + ([Restart(5)] + [])))))
  }

  /** So a restart can break the lockstep, and the new client's first request will be refused. */
  lemma RestartCanPart(c: Config)
    requires 0 < c.packetLife && 0 < c.sessionTimeout
    ensures var s, steps := QuietStart(), LateStranger();
            && Initial(s) && Run(c, s, steps) && Patient(c, c.packetLife, s, steps)
            && !InStep(c, Final(c, s, steps))
            && Filter(c, Final(c, s, steps).host, 5, 0).1 == Dropped
  {
    var p := Request(1, 0, 1, 0, true);
    var s := QuietStart();
    var s1 := Apply(c, s, Begin(0, true));
    var s2 := Apply(c, s1, Send);
    var s3 := Apply(c, s2, Arrive(p, 2));
    var s4 := Apply(c, s3, Answer(Reply(2, 0, 1, 0)));
    var s5 := Apply(c, s4, Damaged(9));
    var s6 := Apply(c, s5, Restart(5));
    assert s2.reqs == {p} && s3.host == Host(2, 1, false, 0);
    assert s6.host == Host(9, 1, true, 0) && s6.key == 5;
    var n := c.packetLife;
    Cons(c, n, s5, Restart(5), []);
    var r5 := [Restart(5)] + [];
    Cons(c, n, s4, Damaged(9), r5);
    var r4 := [Damaged(9)] + r5;
    Cons(c, n, s3, Answer(Reply(2, 0, 1, 0)), r4);
    var r3 := [Answer(Reply(2, 0, 1, 0))] + r4;
    Cons(c, n, s2, Arrive(p, 2), r3);
    var r2 := [Arrive(p, 2)] + r3;
    Cons(c, n, s1, Send, r2);
    Cons(c, n, s, Begin(0, true), [Send] + r2);
  }

  // ------------------------------------------------------------------------------------------
  // Which packets are served
  // ------------------------------------------------------------------------------------------

  /** What happens to a packet of the client's current request, in every such run.  If the request was
    * executed it is answered again from `retryTimeout` seconds after the last accepted packet on.  If
    * it was not answered yet, it is executed at once, unless the client is left without a key and the
    * session is not yet silent for long enough.  A goodbye that was answered is executed again, unless
    * a damaged packet has made the record active with another key. */
  lemma CurrentRequestServed(c: Config, s: State, steps: seq<Step>, p: Request)
    requires c.packetLife <= c.sessionTimeout
    requires Initial(s) && s.key != 0 && Run(c, s, steps) && Patient(c, c.packetLife, s, steps)
    requires var t := Final(c, s, steps); LiveRequest(c, t, p) && p.rid == t.rid
    ensures var t := Final(c, s, steps);
            var again := if t.host.lastAcc + c.retryTimeout <= t.now then Resent else Dropped;
            Filter(c, t.host, p.key, t.now).1 ==
              if p.rid in t.log then again
              else if t.served < p.rid then (if HoldsKey(t) || Silent(c, t) then Fresh else Dropped)
              else if t.host.active && t.host.nextKey != p.key then again
              else Fresh
    ensures var t := Final(c, s, steps); t.rid !in t.log && t.rid <= t.served ==> p.bye
  {
    var t := Final(c, s, steps);
    ReachableExact(c, s, steps);
    assert RequestOk(t, p);
    CurrentIsLogged(c, t);
    hide Run, Patient, Final, ByeAlone, ReplyOk;
    assert p.rid <= t.served ==> (p.rid in t.log <==> !p.bye);
  }

  /** A request that has been answered and succeeded by another is never served again, damage or
    * not, and goodbyes or not if the client pauses before them. */
  lemma OldDuplicatesRefused(c: Config, s: State, steps: seq<Step>, p: Request)
    requires c.packetLife <= c.sessionTimeout
    requires Initial(s) && Run(c, s, steps) && Patient(c, c.packetLife, s, steps)
    requires var t := Final(c, s, steps); LiveRequest(c, t, p) && p.rid < t.served
    ensures var t := Final(c, s, steps); Filter(c, t.host, p.key, t.now) == (t.host, Dropped)
  {
    Reachable(c, s, steps);
    assert RequestOk(Final(c, s, steps), p);
  }

  /** Damage delays a client but cannot shut it out: after a silence of both timeouts its current
    * request is served, as new if and only if it has not been executed.  An answered goodbye is served
    * too, in one way or the other. */
  lemma SilenceRecovers(c: Config, s: State, steps: seq<Step>, p: Request)
    requires c.packetLife <= c.sessionTimeout
    requires Initial(s) && s.key != 0 && Run(c, s, steps) && Patient(c, c.packetLife, s, steps)
    requires var t := Final(c, s, steps);
             && LiveRequest(c, t, p) && p.rid == t.rid
             && t.host.lastAcc + c.retryTimeout <= t.now && Silent(c, t)
    ensures var t := Final(c, s, steps);
            var v := Filter(c, t.host, p.key, t.now).1;
            && v != Dropped
            && (!p.bye || t.served < p.rid ==> v == if p.rid in t.log then Resent else Fresh)
  {
    CurrentRequestServed(c, s, steps, p);
    ReachableExact(c, s, steps);
    assert RequestOk(Final(c, s, steps), p);
  }
}
