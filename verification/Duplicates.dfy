/** When late duplicates do harm: no request is dispatched twice, with goodbyes and without. */
module Duplicates {
  import opened Session

  predicate NoRepeat(log: seq<nat>) {
    forall i, j :: 0 <= i < j < |log| ==> log[i] != log[j]
  }

  ghost predicate AlwaysAtMostOnce(c: Config) {
    forall s, steps :: Initial(s) && Run(c, s, steps) && NoBye(steps) ==> NoRepeat(Final(c, s, steps).log)
  }

  ghost predicate AlwaysAtMostOnceAfter(c: Config, pause: nat) {
    forall s, steps :: Initial(s) && Run(c, s, steps) && Patient(c, pause, s, steps) ==>
      NoRepeat(Final(c, s, steps).log)
  }

  /** Puts one more step in front of a run. */
  lemma Cons(c: Config, pause: nat, s: State, a: Step, rest: seq<Step>)
    requires Enabled(c, s, a) && Run(c, Apply(c, s, a), rest)
    requires a.Send? ==> Paused(pause, s)
    requires Patient(c, pause, Apply(c, s, a), rest)
    ensures Run(c, s, [a] + rest) && Patient(c, pause, s, [a] + rest)
    ensures Final(c, s, [a] + rest) == Final(c, Apply(c, s, a), rest)
  {
    assert ([a] + rest)[1..] == rest;
  }

  /** Two requests are served, the second one, perhaps a goodbye, after a pause; then, `wait`
    * seconds later, the network delivers the first one again. */
  function LateDuplicate(pause: nat, wait: nat, bye: bool): seq<Step> {
    var p1 := Request(1, 0, 1, 0, false);
    [Begin(0, false)] + ([Send] + ([Arrive(p1, 2)] + ([Answer(Reply(2, 0, 1, 0))] + LateEnd(pause, wait, bye))))
  }

  /** The second half of that run. */
  function LateEnd(pause: nat, wait: nat, bye: bool): seq<Step> {
    var p1, p2 := Request(1, 0, 1, 0, false), Request(2, 8, 2, pause, bye);
    [Tick(pause)] +
    ([Begin(8, bye)] + ([Send] + ([Arrive(p2, 3)] + ([Tick(wait)] + ([Arrive(p1, 4)] + [])))))
  }

  lemma LateDuplicateRuns(c: Config, s: State, pause: nat, wait: nat, bye: bool)
    requires Initial(s) && s.now == 0 && s.key == 1
    requires pause + wait < c.packetLife
    requires bye || c.sessionTimeout <= wait
    ensures Run(c, s, LateDuplicate(pause, wait, bye)) && Patient(c, pause, s, LateDuplicate(pause, wait, bye))
    ensures Final(c, s, LateDuplicate(pause, wait, bye)).log == if bye then [1, 1] else [1, 2, 1]
  {
    var p1, p2 := Request(1, 0, 1, 0, false), Request(2, 8, 2, pause, bye);
    var s1 := Apply(c, s, Begin(0, false));
    var s2 := Apply(c, s1, Send);
    var s3 := Apply(c, s2, Arrive(p1, 2));
    var s4 := Apply(c, s3, Answer(Reply(2, 0, 1, 0)));
    assert s3.host == Host(2, 1, true, 0) && s3.log == [1];
    LateDuplicateEnds(c, s4, pause, wait, bye);
    var r4 := LateEnd(pause, wait, bye);
    Cons(c, pause, s3, Answer(Reply(2, 0, 1, 0)), r4);
    var r3 := [Answer(Reply(2, 0, 1, 0))] + r4;
    Cons(c, pause, s2, Arrive(p1, 2), r3);
    var r2 := [Arrive(p1, 2)] + r3;
    Cons(c, pause, s1, Send, r2);
    Cons(c, pause, s, Begin(0, false), [Send] + r2);
  }

  lemma LateDuplicateEnds(c: Config, s: State, pause: nat, wait: nat, bye: bool)
    requires s == State(0, Host(2, 1, true, 0), 2, 0, 1, false, false, {Request(1, 0, 1, 0, false)},
                        {Reply(2, 0, 1, 0)}, [1], 1, false, false)
    requires pause + wait < c.packetLife
    requires bye || c.sessionTimeout <= wait
    ensures Run(c, s, LateEnd(pause, wait, bye)) && Patient(c, pause, s, LateEnd(pause, wait, bye))
    ensures Final(c, s, LateEnd(pause, wait, bye)).log == if bye then [1, 1] else [1, 2, 1]
  {
    var p1, p2 := Request(1, 0, 1, 0, false), Request(2, 8, 2, pause, bye);
    var s5 := Apply(c, s, Tick(pause));
    var s6 := Apply(c, s5, Begin(8, bye));
    var s7 := Apply(c, s6, Send);
    var s8 := Apply(c, s7, Arrive(p2, 3));
    var s9 := Apply(c, s8, Tick(wait));
    var s10 := Apply(c, s9, Arrive(p1, 4));
    assert s7.reqs == {p1, p2};
    assert s8.host == Host(3, 2, !bye, pause) && s8.log == if bye then [1] else [1, 2];
    assert s10.log == if bye then [1, 1] else [1, 2, 1];
    Cons(c, pause, s9, Arrive(p1, 4), []);
    var r8 := [Arrive(p1, 4)] + [];
    Cons(c, pause, s8, Tick(wait), r8);
    var r7 := [Tick(wait)] + r8;
    Cons(c, pause, s7, Arrive(p2, 3), r7);
    var r6 := [Arrive(p2, 3)] + r7;
    Cons(c, pause, s6, Send, r6);
    var r5 := [Send] + r6;
    Cons(c, pause, s5, Begin(8, bye), r5);
    Cons(c, pause, s, Tick(pause), [Begin(8, bye)] + r5);
  }

  /** Over a network that loses, duplicates, reorders and damages packets, no request is
    * dispatched as new twice, exactly when no packet outlives the session timeout. */
  lemma AtMostOnce(c: Config)
    ensures AlwaysAtMostOnce(c) <==> c.packetLife <= c.sessionTimeout
  {
    if c.packetLife <= c.sessionTimeout {
      forall s, steps | Initial(s) && Run(c, s, steps) && NoBye(steps)
        ensures NoRepeat(Final(c, s, steps).log)
      {
        ReachableOpen(c, s, steps);
      }
    } else {
      var s := QuietStart();
      LateDuplicateRuns(c, s, 0, c.sessionTimeout, false);
      var log := Final(c, s, LateDuplicate(0, c.sessionTimeout, false)).log;
      assert log[0] == log[2];
    }
  }

  /** A start from which the failing runs go. */
  function QuietStart(): State {
    State(0, ZERO_HOST, 1, 0, 0, false, false, {}, {}, [], 0, false, false)
  }

  /** A goodbye ends the protection of the requests before it: for every pause shorter than the
    * life of a packet there is a run in which the client pauses so long before its goodbye, and a
    * request answered before that is dispatched again. */
  lemma GoodbyeForgets(c: Config, s: State, pause: nat)
    requires pause < c.packetLife
    requires Initial(s) && s.now == 0 && s.key == 1
    ensures Run(c, s, LateDuplicate(pause, 0, true)) && Patient(c, pause, s, LateDuplicate(pause, 0, true))
    ensures !NoRepeat(Final(c, s, LateDuplicate(pause, 0, true)).log)
  {
    LateDuplicateRuns(c, s, pause, 0, true);
    var log := Final(c, s, LateDuplicate(pause, 0, true)).log;
    assert log[0] == log[1];
  }

  /** With goodbyes anywhere in the run, no other request is dispatched as new twice, exactly when
    * no packet outlives the session timeout or the pause before a goodbye. */
  lemma AtMostOnceAcrossGoodbyes(c: Config, pause: nat)
    ensures AlwaysAtMostOnceAfter(c, pause) <==> c.packetLife <= c.sessionTimeout && c.packetLife <= pause
  {
    if c.packetLife <= c.sessionTimeout && c.packetLife <= pause {
      forall s, steps | Initial(s) && Run(c, s, steps) && Patient(c, pause, s, steps)
        ensures NoRepeat(Final(c, s, steps).log)
      {
        PatientFor(c, c.packetLife, pause, s, steps);
        Reachable(c, s, steps);
      }
    } else {
      var s := QuietStart();
      if pause < c.packetLife {
        GoodbyeForgets(c, s, pause);
      } else {
        OneRepeats(c, pause, s);
      }
    }
  }

  lemma OneRepeats(c: Config, pause: nat, s: State)
    requires c.sessionTimeout < c.packetLife
    requires Initial(s) && s.now == 0 && s.key == 1
    ensures var steps := LateDuplicate(0, c.sessionTimeout, false);
            Run(c, s, steps) && Patient(c, pause, s, steps) && !NoRepeat(Final(c, s, steps).log)
  {
    LateDuplicateRuns(c, s, 0, c.sessionTimeout, false);
    OpenRun(c, pause, s, LateDuplicate(0, c.sessionTimeout, false));
    var log := Final(c, s, LateDuplicate(0, c.sessionTimeout, false)).log;
    assert log[0] == log[2];
  }
}
