/** The key protocol between one client and the server's record of its host.
 *
 * The server keeps two keys per host.  A request with `nextKey` is new, one with `lastKey` is
 * a resend, and every other key is refused until the session has been silent long enough.
 * The record is updated before the checksum is looked at, so a damaged packet can move it.
 */
module Session {

  type Key = k: nat | k < 0x1_0000 witness 0

  /** Timeouts of the server, and how long a packet can survive in the network. */
  datatype Config = Config(retryTimeout: nat, sessionTimeout: nat, packetLife: nat)

  /** The fields of HTAB that the protocol uses. */
  datatype Host = Host(nextKey: Key, lastKey: Key, active: bool, lastAcc: nat)

  datatype Verdict = Dropped | Fresh | Resent

  const ZERO_HOST := Host(0, 0, false, 0)

  /** What the key filter does to the record, and whether the packet passes. */
  function Filter(c: Config, h: Host, rkey: Key, now: nat): (Host, Verdict) {
    var accepted := Host(rkey, h.lastKey, true, now);
    if h.nextKey == rkey then (accepted, Fresh)
    else if !h.active then (accepted, Fresh)
    else if h.lastKey == rkey then
      if now < h.lastAcc + c.retryTimeout then (h, Dropped)
      else (h.(active := true, lastAcc := now), Resent)
    else if now < h.lastAcc + c.sessionTimeout then (h, Dropped)
    else (accepted, Fresh)
  }

  /** Key rotation of a packet that passed the filter and its checksum. */
  function Rotate(h: Host, v: Verdict, generated: Key): Host {
    if v == Fresh then h.(lastKey := h.nextKey, nextKey := generated) else h
  }

  /** The server's record of one host, updated in place. */
  class HostEntry {
    var nextKey: Key
    var lastKey: Key
    var active: bool
    var lastAcc: nat

    function State(): Host
      reads this
    {
      Host(nextKey, lastKey, active, lastAcc)
    }

    constructor ()
      ensures State() == ZERO_HOST
    {
      nextKey, lastKey, active, lastAcc := 0, 0, false, 0;
    }

    method KeyFilter(c: Config, rkey: Key, now: nat) returns (v: Verdict)
      modifies this
      ensures (State(), v) == Filter(c, old(State()), rkey, now)
    {
      v := Fresh;
      if nextKey != rkey {
        if !active {
          nextKey := rkey;
        } else if lastKey == rkey {
          if now < lastAcc + c.retryTimeout {
            return Dropped;
          }
          v := Resent;
        } else {
          if now < lastAcc + c.sessionTimeout {
            return Dropped;
          }
          active := false;
          nextKey := rkey;
        }
      }
      active := true;
      lastAcc := now;
    }

    /** One packet through the server: filter, then checksum, then dispatch. */
    method Receive(c: Config, rkey: Key, now: nat, sumOk: bool, bye: bool, generated: Key)
        returns (v: Verdict, replyKey: Key)
      modifies this
      ensures (State(), v) == Serve(c, old(State()), rkey, now, sumOk, bye, generated)
      ensures v != Dropped ==> replyKey == nextKey
    {
      replyKey := 0;
      v := KeyFilter(c, rkey, now);
      if v == Dropped || !sumOk {
        return Dropped, replyKey;
      }
      if v == Fresh {
        lastKey := nextKey;
        nextKey := generated;
      }
      replyKey := nextKey;
      if bye {
        active := false;
      }
    }
  }

  /** The whole effect of one packet on the record; Dropped also when the checksum is wrong. */
  function Serve(c: Config, h: Host, rkey: Key, now: nat, sumOk: bool, bye: bool, generated: Key)
      : (Host, Verdict)
  {
    var (h1, v) := Filter(c, h, rkey, now);
    if v == Dropped || !sumOk then (h1, Dropped)
    else
      var h2 := Rotate(h1, v, generated);
      (if bye then h2.(active := false) else h2, v)
  }

  // ------------------------------------------------------------------------------------------
  // Client, server and network as one state machine
  // ------------------------------------------------------------------------------------------

  /** A request packet; `rid` says which of the client's requests the payload belongs to, and `bye`
    * that it is a goodbye. */
  datatype Request = Request(key: Key, base: nat, rid: nat, sentAt: nat, bye: bool)

  datatype Reply = Reply(key: Key, base: nat, rid: nat, sentAt: nat)

  /** `reqs` and `reps` hold every packet ever sent: delivering one does not remove it, so the
    * network may lose, duplicate and reorder at will.  `log` lists the requests other than
    * goodbyes that were dispatched as new, `served` is the latest request the server has answered
    * and `closed` whether that was a goodbye.  `hijacked` holds from the moment a damaged packet
    * had its key adopted until the next dispatch. */
  datatype State = State(
    now: nat, host: Host,
    key: Key, base: nat, rid: nat, busy: bool, bye: bool,
    reqs: set<Request>, reps: set<Reply>,
    log: seq<nat>, served: nat, closed: bool, hijacked: bool)

  datatype Step =
    | Tick(dt: nat)
    | Begin(newBase: nat, bye: bool)
    | Send
    | Damaged(rkey: Key)
    | Arrive(p: Request, generated: Key)
    | Answer(q: Reply)
    | Restart(newKey: Key)

  predicate LiveRequest(c: Config, s: State, p: Request) {
    p in s.reqs && s.now < p.sentAt + c.packetLife
  }

  predicate LiveReply(c: Config, s: State, q: Reply) {
    q in s.reps && s.now < q.sentAt + c.packetLife
  }

  /** Environment assumptions: packets arrive only while alive, a generated key is not carried by
    * a live request, a new sequence base is not carried by a live packet, and a client that starts
    * anew after a goodbye does so with an unused key. */
  ghost predicate Enabled(c: Config, s: State, a: Step) {
    match a
    case Tick(dt) => true
    case Begin(b, _) =>
      && !s.busy
      && (forall p :: LiveRequest(c, s, p) ==> p.base != b)
      && (forall q :: LiveReply(c, s, q) ==> q.base != b)
    case Send => s.busy
    case Damaged(k) => true
    case Arrive(p, g) =>
      && LiveRequest(c, s, p)
      && (forall r :: LiveRequest(c, s, r) ==> r.key != g)
    case Answer(q) => LiveReply(c, s, q)
    case Restart(k) =>
      !s.busy && s.closed && k != s.host.lastKey && forall r :: LiveRequest(c, s, r) ==> r.key != k
  }

  function Apply(c: Config, s: State, a: Step): State {
    match a
    case Tick(dt) => s.(now := s.now + dt)
    case Begin(b, bye) => s.(rid := s.rid + 1, base := b, busy := true, bye := bye)
    case Send => s.(reqs := s.reqs + {Request(s.key, s.base, s.rid, s.now, s.bye)})
    case Damaged(k) =>
      var (h, v) := Serve(c, s.host, k, s.now, false, false, 0);
      s.(host := h, hijacked := s.hijacked || h.nextKey != s.host.nextKey)
    case Arrive(p, g) =>
      var (h, v) := Serve(c, s.host, p.key, s.now, true, p.bye, g);
      if v == Dropped then s.(host := h)
      else
        var s1 := s.(host := h,
                     served := if p.rid > s.served then p.rid else s.served,
                     closed := if p.rid >= s.served then p.bye else s.closed,
                     reps := s.reps + {Reply(h.nextKey, p.base, p.rid, s.now)});
        if v == Fresh then s1.(log := if p.bye then s.log else s.log + [p.rid], hijacked := false) else s1
    case Answer(q) =>
      if s.busy && q.base == s.base then s.(key := q.key, busy := false) else s
    case Restart(k) => s.(key := k)
  }

  predicate Initial(s: State) {
    && s.host == ZERO_HOST
    && s.rid == 0 && !s.busy && !s.bye && s.reqs == {} && s.reps == {}
    && s.log == [] && s.served == 0 && !s.closed && !s.hijacked
  }

  ghost predicate Run(c: Config, s: State, steps: seq<Step>)
    decreases |steps|
  {
    steps == [] || (Enabled(c, s, steps[0]) && Run(c, Apply(c, s, steps[0]), steps[1..]))
  }

  function Final(c: Config, s: State, steps: seq<Step>): State
    decreases |steps|
  {
    if steps == [] then s else Final(c, Apply(c, s, steps[0]), steps[1..])
  }

  /** No goodbye is sent in this run. */
  predicate NoBye(steps: seq<Step>) {
    forall i :: 0 <= i < |steps| && steps[i].Begin? ==> !steps[i].bye
  }

  /** A goodbye may be sent: the client sent nothing else in the last `pause` seconds. */
  predicate Paused(pause: nat, s: State) {
    s.bye ==> forall p :: p in s.reqs && p.rid != s.rid ==> p.sentAt + pause <= s.now
  }

  /** The client pauses before it sends a goodbye, whenever it does so in this run. */
  predicate Patient(c: Config, pause: nat, s: State, steps: seq<Step>)
    decreases |steps|
  {
    steps == [] ||
    ((steps[0].Send? ==> Paused(pause, s)) && Patient(c, pause, Apply(c, s, steps[0]), steps[1..]))
  }

  // ------------------------------------------------------------------------------------------
  // The invariant
  // ------------------------------------------------------------------------------------------

  /** The answer to the client's request has been sent and not yet come. */
  predicate Waiting(s: State) {
    s.busy && s.rid == s.served
  }

  predicate Progress(s: State) {
    && (forall i :: 0 <= i < |s.log| ==> 1 <= s.log[i] <= s.served)
    && (forall i, j :: 0 <= i < j < |s.log| ==> s.log[i] < s.log[j])
    && s.host.lastAcc <= s.now
    && (s.rid == s.served || (s.busy && s.rid == s.served + 1))
    && (s.busy ==> 1 <= s.rid)
    && (s.closed ==> 1 <= s.served)
    && (Waiting(s) ==> s.bye == s.closed)
    && (1 <= s.served && !s.closed ==> s.host.active && s.host.nextKey != s.host.lastKey)
  }

  predicate Keys(s: State) {
    if Waiting(s) then s.key == s.host.lastKey
    else 1 <= s.served ==>
      s.key != s.host.lastKey && (!s.closed && !s.hijacked ==> s.key == s.host.nextKey)
  }

  predicate RequestOk(s: State, p: Request) {
    && 1 <= p.rid <= s.rid && p.sentAt <= s.now
    && (p.base == s.base ==> p.rid == s.rid)
    && (p.rid == s.rid ==> p.bye == s.bye)
    && (p.rid < s.served ==>
          !s.closed && p.key != s.host.nextKey && p.key != s.host.lastKey && p.sentAt <= s.host.lastAcc)
    && (p.rid == s.served ==> p.key == s.host.lastKey && p.bye == s.closed)
    && (p.rid == s.served + 1 ==> s.busy && p.key == s.key)
  }

  predicate ReplyOk(s: State, q: Reply) {
    && 1 <= q.rid <= s.served
    && (q.base == s.base ==> q.rid == s.rid)
    && (q.rid == s.served ==>
          q.key != s.host.lastKey && (!s.closed && !s.hijacked ==> q.key == s.host.nextKey))
  }

  /** While a goodbye is alive, no request from before it is. */
  ghost predicate ByeAlone(c: Config, s: State) {
    forall p, r :: LiveRequest(c, s, p) && LiveRequest(c, s, r) && p.bye ==> p.rid <= r.rid
  }

  ghost predicate Inv(c: Config, s: State) {
    && Progress(s)
    && Keys(s)
    && ByeAlone(c, s)
    && (forall p :: LiveRequest(c, s, p) ==> RequestOk(s, p))
    && (forall q :: LiveReply(c, s, q) ==> ReplyOk(s, q))
  }

  /** A step of a run in which the client pauses for the life of a packet before a goodbye. */
  ghost predicate Proper(c: Config, s: State, a: Step) {
    Enabled(c, s, a) && (a.Send? ==> Paused(c.packetLife, s))
  }

  /** What a delivered request can be: already answered and refused, a resend of the request
    * answered last, the client's current request, or a goodbye answered last. */
  lemma Arrival(c: Config, s: State, p: Request, generated: Key)
    requires c.packetLife <= c.sessionTimeout
    requires Inv(c, s) && LiveRequest(c, s, p)
    ensures var (h, v) := Serve(c, s.host, p.key, s.now, true, p.bye, generated);
            match v
            case Dropped => h == s.host && p.rid >= 1
            case Resent => p.key == s.host.lastKey && s.host.nextKey != p.key
                           && (p.rid == s.served || (s.served == 0 && p.rid == 1 && s.busy && s.rid == 1))
                           && h == s.host.(active := !p.bye, lastAcc := s.now)
            case Fresh => h == Host(generated, p.key, !p.bye, s.now)
                          && ((p.rid == s.served + 1 == s.rid && s.busy && p.key == s.key) ||
                              (p.rid == s.served && p.bye && s.closed && p.key == s.host.lastKey))
    ensures var (h, v) := Serve(c, s.host, p.key, s.now, true, p.bye, generated);
            v == Fresh && p.rid == s.served + 1 ==>
              forall r :: LiveRequest(c, s, r) && r.rid <= s.served ==> r.key != p.key && !p.bye
  {
    assert RequestOk(s, p);
    var (h, v) := Serve(c, s.host, p.key, s.now, true, p.bye, generated);
    forall r | LiveRequest(c, s, r) && r.rid <= s.served && v == Fresh && p.rid == s.served + 1
      ensures r.key != p.key && !p.bye
    {
      assert RequestOk(s, r);
    }
  }

  lemma ArriveGlobal(c: Config, s: State, p: Request, generated: Key)
    requires c.packetLife <= c.sessionTimeout
    requires Inv(c, s) && Enabled(c, s, Arrive(p, generated))
    ensures Progress(Apply(c, s, Arrive(p, generated)))
    ensures Keys(Apply(c, s, Arrive(p, generated)))
  {
    Arrival(c, s, p, generated);
    assert RequestOk(s, p);
    hide Serve, RequestOk, ReplyOk, ByeAlone;
    assert generated != p.key;
  }

  lemma StepGlobal(c: Config, s: State, a: Step)
    requires c.packetLife <= c.sessionTimeout
    requires Inv(c, s) && Proper(c, s, a)
    ensures Progress(Apply(c, s, a)) && Keys(Apply(c, s, a))
  {
    match a
    case Arrive(p, g) => ArriveGlobal(c, s, p, g);
    case Answer(q) => assert ReplyOk(s, q);
    case _ =>
  }

  lemma StepByeAlone(c: Config, s: State, a: Step)
    requires Inv(c, s) && Proper(c, s, a)
    ensures ByeAlone(c, Apply(c, s, a))
  {
    hide Serve, Progress, Keys, ReplyOk;
    var t := Apply(c, s, a);
    forall p, r | LiveRequest(c, t, p) && LiveRequest(c, t, r) && p.bye
      ensures p.rid <= r.rid
    {
      assert p in s.reqs ==> LiveRequest(c, s, p) && RequestOk(s, p);
      assert r in s.reqs ==> LiveRequest(c, s, r) && RequestOk(s, r);
    }
  }

  lemma ArriveRequest(c: Config, s: State, a: Step, p: Request)
    requires c.packetLife <= c.sessionTimeout
    requires Inv(c, s) && a.Arrive? && Enabled(c, s, a)
    requires LiveRequest(c, s, p)
    ensures RequestOk(Apply(c, s, a), p)
  {
    Arrival(c, s, a.p, a.generated);
    assert RequestOk(s, p) && RequestOk(s, a.p);
    assert a.generated != p.key;
    assert a.p.bye ==> a.p.rid <= p.rid;
    hide Serve, ByeAlone;
  }

  /** A damaged packet moves a key only after a silence that no answered request survives. */
  lemma DamagedRequest(c: Config, s: State, k: Key, p: Request)
    requires c.packetLife <= c.sessionTimeout
    requires Inv(c, s) && LiveRequest(c, s, p)
    ensures RequestOk(Apply(c, s, Damaged(k)), p)
  {
    assert RequestOk(s, p);
    hide ByeAlone, Keys, ReplyOk;
  }

  lemma StepRequest(c: Config, s: State, a: Step, p: Request)
    requires c.packetLife <= c.sessionTimeout
    requires Inv(c, s) && Proper(c, s, a)
    requires LiveRequest(c, Apply(c, s, a), p)
    ensures RequestOk(Apply(c, s, a), p)
  {
    hide Serve, ByeAlone;
    if p in s.reqs {
      assert LiveRequest(c, s, p) && RequestOk(s, p);
      if a.Arrive? {
        ArriveRequest(c, s, a, p);
      } else if a.Damaged? {
        DamagedRequest(c, s, a.rkey, p);
      }
    }
  }

  lemma ArriveReply(c: Config, s: State, a: Step, q: Reply)
    requires c.packetLife <= c.sessionTimeout
    requires Inv(c, s) && a.Arrive? && Enabled(c, s, a)
    requires LiveReply(c, Apply(c, s, a), q)
    ensures ReplyOk(Apply(c, s, a), q)
  {
    Arrival(c, s, a.p, a.generated);
    assert RequestOk(s, a.p) && a.generated != a.p.key;
    assert q in s.reps ==> ReplyOk(s, q);
    hide Serve, ByeAlone, RequestOk;
  }

  lemma StepReply(c: Config, s: State, a: Step, q: Reply)
    requires c.packetLife <= c.sessionTimeout
    requires Inv(c, s) && Proper(c, s, a)
    requires LiveReply(c, Apply(c, s, a), q)
    ensures ReplyOk(Apply(c, s, a), q)
  {
    if a.Arrive? {
      ArriveReply(c, s, a, q);
    } else {
      assert LiveReply(c, s, q) && ReplyOk(s, q);
      hide ByeAlone, RequestOk;
    }
  }

  lemma InvStep(c: Config, s: State, a: Step)
    requires c.packetLife <= c.sessionTimeout
    requires Inv(c, s) && Proper(c, s, a)
    ensures Inv(c, Apply(c, s, a))
  {
    StepGlobal(c, s, a);
    StepByeAlone(c, s, a);
    forall p | LiveRequest(c, Apply(c, s, a), p)
      ensures RequestOk(Apply(c, s, a), p)
    {
      StepRequest(c, s, a, p);
    }
    forall q | LiveReply(c, Apply(c, s, a), q)
      ensures ReplyOk(Apply(c, s, a), q)
    {
      StepReply(c, s, a, q);
    }
  }

  lemma {:induction false} InvRun(c: Config, s: State, steps: seq<Step>)
    requires c.packetLife <= c.sessionTimeout
    requires Inv(c, s) && Run(c, s, steps) && Patient(c, c.packetLife, s, steps)
    ensures Inv(c, Final(c, s, steps))
    decreases |steps|
  {
    hide Inv, Apply, Enabled, Paused;
    if steps != [] {
      InvStep(c, s, steps[0]);
      InvRun(c, Apply(c, s, steps[0]), steps[1..]);
    }
  }

  lemma InvInitial(c: Config, s: State)
    requires Initial(s)
    ensures Inv(c, s)
  {
  }

  lemma Reachable(c: Config, s: State, steps: seq<Step>)
    requires c.packetLife <= c.sessionTimeout
    requires Initial(s) && Run(c, s, steps) && Patient(c, c.packetLife, s, steps)
    ensures Inv(c, Final(c, s, steps))
  {
    InvInitial(c, s);
    InvRun(c, s, steps);
  }

  /** A longer pause is also a shorter one. */
  lemma {:induction false} PatientFor(c: Config, less: nat, more: nat, s: State, steps: seq<Step>)
    requires less <= more && Patient(c, more, s, steps)
    ensures Patient(c, less, s, steps)
    decreases |steps|
  {
    hide Apply;
    if steps != [] {
      PatientFor(c, less, more, Apply(c, s, steps[0]), steps[1..]);
    }
  }

  /** Nothing in this state comes from a goodbye. */
  predicate Open(s: State) {
    !s.bye && !s.closed && forall p :: p in s.reqs ==> !p.bye
  }

  lemma OpenStep(c: Config, s: State, a: Step)
    requires Open(s) && Enabled(c, s, a) && (a.Begin? ==> !a.bye)
    ensures Open(Apply(c, s, a))
  {
    hide Serve;
  }

  /** A run without goodbyes is a patient one. */
  lemma {:induction false} OpenRun(c: Config, pause: nat, s: State, steps: seq<Step>)
    requires Open(s) && Run(c, s, steps) && NoBye(steps)
    ensures Open(Final(c, s, steps)) && Patient(c, pause, s, steps)
    decreases |steps|
  {
    if steps != [] {
      OpenStep(c, s, steps[0]);
      hide Apply;
      OpenRun(c, pause, Apply(c, s, steps[0]), steps[1..]);
    }
  }

  lemma ReachableOpen(c: Config, s: State, steps: seq<Step>)
    requires c.packetLife <= c.sessionTimeout
    requires Initial(s) && Run(c, s, steps) && NoBye(steps)
    ensures Inv(c, Final(c, s, steps)) && Open(Final(c, s, steps))
  {
    OpenRun(c, c.packetLife, s, steps);
    Reachable(c, s, steps);
  }
}
