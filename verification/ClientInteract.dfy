/** The client's request loop: resending with the same key, and choosing the reply. */
module ClientInteract {
  import opened Options
  import Execution
  import KeyLockstep
  import Session

  const CC_INFO := 0x11
  const CC_ERR := 0x40
  const CC_GET_DIR := 0x41
  const CC_GET_FILE := 0x42
  const CC_UP_LOAD := 0x43
  const CC_GRAB_FILE := 0x4B

  const MIN_DELAY := 1000
  const DEFAULT_DELAY := 1340

  /** A message header; the sequence field is split into the request's own bits and the three
    * bits that count its transmissions (`SequenceNamesRequest` is what allows it). */
  datatype Packet = Packet(cmd: nat, key: Session.Key, base: bv16, turn: nat, pos: nat, sumOk: bool)

  /** The sequence number of the next request, from a random number and the previous one. */
  function NextSeq(random: bv16, previous: bv16): bv16 {
    var u := random & 0xfff8;
    if u == previous then previous ^ 0x1080 else u
  }

  /** The sequence field of one transmission: the low three bits count the resends. */
  function SeqField(base: bv16, retry: bv16): bv16 {
    (base & 0xff00) | (base & 0x00f8) | (retry & 0x0007)
  }

  predicate PosChecked(cmd: nat) {
    cmd == CC_GET_DIR || cmd == CC_GET_FILE || cmd == CC_UP_LOAD || cmd == CC_INFO || cmd == CC_GRAB_FILE
  }

  /** Whether the client takes `p` as the reply to the transmission `sent`. */
  predicate Takes(sent: Packet, p: Packet) {
    && p.sumOk
    && p.base == sent.base
    && (p.cmd == sent.cmd || p.cmd == CC_ERR)
    && (p.pos == sent.pos || !PosChecked(sent.cmd))
  }

  /** The check of the sequence field: all but the low three bits agree. */
  predicate SameSequence(received: bv16, sent: bv16) {
    (received ^ sent) & 0xfff8 == 0
  }

  function HighBits(x: bv16): bv16 {
    x & 0xfff8
  }

  /** A sequence number leaves room for the count of resends. */
  predicate LowBitsFree(base: bv16) {
    base & 7 == 0
  }

  lemma HighBitsOfField(base: bv16, retry: bv16)
    requires LowBitsFree(base)
    ensures HighBits(SeqField(base, retry)) == base
  {
  }

  lemma SameHighBits(x: bv16, y: bv16)
    ensures SameSequence(x, y) <==> HighBits(x) == HighBits(y)
  {
  }

  /** A reply is matched to a request, not to a transmission: every echo of any resend of this
    * request passes the sequence check, and no echo of another request does. */
  lemma SequenceNamesRequest(a: bv16, b: bv16, i: bv16, j: bv16)
    requires LowBitsFree(a) && LowBitsFree(b)
    ensures SameSequence(SeqField(a, i), SeqField(b, j)) <==> a == b
  {
    hide *;
    HighBitsOfField(a, i);
    HighBitsOfField(b, j);
    SameHighBits(SeqField(a, i), SeqField(b, j));
  }

  /** Consecutive requests never share a sequence number. */
  lemma NextSeqDiffers(random: bv16, previous: bv16)
    requires LowBitsFree(previous)
    ensures NextSeq(random, previous) != previous
    ensures LowBitsFree(NextSeq(random, previous))
  {
  }

  /** The first packet of one waiting period that the client takes. */
  function FirstTaken(sent: Packet, ps: seq<Packet>): Option<Packet> {
    if ps == [] then None else if Takes(sent, ps[0]) then Some(ps[0]) else FirstTaken(sent, ps[1..])
  }

  function Transmission(cmd: nat, pos: nat, key: Session.Key, base: bv16, retry: nat): Packet {
    Packet(cmd, key, base, retry % 8, pos, true)
  }

  /** The waiting period in which the request is answered, and the reply; `arrivals[i]` is what
    * comes in after transmission `i`. */
  function Outcome(cmd: nat, pos: nat, key: Session.Key, base: bv16, retry: nat, arrivals: seq<seq<Packet>>)
      : Option<(nat, Packet)>
    decreases |arrivals|
  {
    if arrivals == [] then None
    else
      match FirstTaken(Transmission(cmd, pos, key, base, retry), arrivals[0])
      case Some(p) => Some((retry, p))
      case None => Outcome(cmd, pos, key, base, retry + 1, arrivals[1..])
  }

  /** The limits on a wait; the lower one wins. */
  function Clamp(wait: nat, maxDelay: nat): nat {
    if wait < MIN_DELAY then MIN_DELAY else if wait > maxDelay then maxDelay else wait
  }

  /** The key and the delays are static variables of the library. */
  class Client {
    var myseq: bv16
    var key: Session.Key
    var busyDelay: nat
    var idleDelay: nat
    const targetDelay: nat
    const maxDelay: nat

    constructor (random: bv16, key: Session.Key, targetDelay: nat, maxDelay: nat)
      ensures myseq == random & 0xfff8 && LowBitsFree(myseq) && this.key == key
      ensures this.targetDelay == targetDelay && this.maxDelay == maxDelay
      ensures busyDelay == targetDelay && idleDelay == targetDelay
    {
      this.myseq := random & 0xfff8;
      this.key := key;
      this.busyDelay, this.idleDelay := targetDelay, targetDelay;
      this.targetDelay, this.maxDelay := targetDelay, maxDelay;
    }

    /** How long to wait after transmission number `retry`, in milliseconds: `raw`, kept within the
      * limits.  The first resend takes half as long again as the last round trip, every later one
      * a third longer than the one before. */
    method Backoff(retry: nat) returns (wait: nat, ghost raw: nat)
      modifies this`busyDelay, this`idleDelay
      ensures wait == if raw < 1000 then 1000 else if raw > maxDelay then maxDelay else raw
      ensures retry == 0 ==>
                && busyDelay == old(busyDelay) && idleDelay == old(idleDelay)
                && raw == if targetDelay >= old(busyDelay) then targetDelay else old(busyDelay) + 1340
      ensures retry == 1 ==> busyDelay == idleDelay == raw == old(busyDelay) * 3 / 2
      ensures retry >= 2 ==>
                && busyDelay == old(busyDelay) && idleDelay == raw
                && raw == if old(idleDelay) * 4 / 3 > maxDelay then maxDelay else old(idleDelay) * 4 / 3
    {
      if retry == 0 {
        wait := if targetDelay >= busyDelay then targetDelay else busyDelay + DEFAULT_DELAY;
      } else if retry == 1 {
        busyDelay := busyDelay * 3 / 2;
        wait := busyDelay;
        idleDelay := busyDelay;
      } else {
        idleDelay := idleDelay * 4 / 3;
        if idleDelay > maxDelay {
          idleDelay := maxDelay;
        }
        wait := idleDelay;
      }
      raw := wait;
      wait := Clamp(wait, maxDelay);
    }

    /** Goes through what arrives in one waiting period, up to packet number `n`: the first one with a
      * good sum, the sequence number of the request, its command or that of an error, and, for five
      * of the commands, its position. */
    method Listen(packet: Packet, ps: seq<Packet>) returns (reply: Option<Packet>, ghost n: nat)
      ensures reply == FirstTaken(packet, ps)
      ensures n <= |ps| && reply == if n < |ps| then Some(ps[n]) else None
      ensures NoneTaken(packet, ps, n) && (n < |ps| ==> Takes(packet, ps[n]))
      ensures forall i :: 0 <= i <= n && i < |ps| ==>
                (i == n <==> && ps[i].sumOk && ps[i].base == packet.base && ps[i].cmd in {packet.cmd, 0x40}
                             && (packet.cmd in {0x41, 0x42, 0x43, 0x11, 0x4B} ==> ps[i].pos == packet.pos))
    {
      var i := 0;
      while i < |ps|
        invariant i <= |ps|
        invariant FirstTaken(packet, ps) == FirstTaken(packet, ps[i..])
        invariant forall j :: 0 <= j < i ==> !Takes(packet, ps[j])
      {
        if Takes(packet, ps[i]) {
          return Some(ps[i]), i;
        }
        i := i + 1;
      }
      return None, i;
    }

    /** The loop of a request, once it has its sequence number. */
    method SendUntilAnswered(cmd: nat, pos: nat, arrivals: seq<seq<Packet>>, roundTrip: nat)
        returns (sent: seq<Packet>, waits: seq<nat>, reply: Option<Packet>, ghost raw: seq<nat>, ghost n: nat)
      modifies this
      ensures myseq == old(myseq) && |raw| == |waits| == |sent| <= |arrivals|
      ensures forall i :: 0 <= i < |sent| ==> sent[i] == Transmission(cmd, pos, old(key), myseq, i)
      ensures match Outcome(cmd, pos, old(key), myseq, 0, arrivals)
              case Some((m, p)) => reply == Some(p) && |sent| == m + 1
              case None => reply == None && |sent| == |arrivals|
      ensures match reply
              case Some(p) =>
                && key == p.key && busyDelay == roundTrip
                && sent != [] && n < |arrivals[|sent| - 1]| && p == arrivals[|sent| - 1][n]
                && Takes(sent[|sent| - 1], p) && NoneTaken(sent[|sent| - 1], arrivals[|sent| - 1], n)
              case None => key == old(key)
      ensures forall r :: 0 <= r < |sent| && (reply.Some? ==> r < |sent| - 1) ==>
                NoneTaken(sent[r], arrivals[r], |arrivals[r]|)
      ensures Paced(raw, waits, targetDelay, old(busyDelay), maxDelay)
    {
      hide Takes, FirstTaken, NoneTaken, Paced;
      sent, waits, reply, raw, n := [], [], None, [], 0;
      var retry := 0;
      assert arrivals[retry..] == arrivals;
      NothingPaced(targetDelay, busyDelay, maxDelay);
      while retry < |arrivals|
        invariant retry <= |arrivals| && |sent| == |waits| == |raw| == retry && reply == None
        invariant myseq == old(myseq) && key == old(key)
        invariant forall i :: 0 <= i < |sent| ==> sent[i] == Transmission(cmd, pos, key, myseq, i)
        invariant Outcome(cmd, pos, key, myseq, 0, arrivals)
               == Outcome(cmd, pos, key, myseq, retry, arrivals[retry..])
        invariant forall r :: 0 <= r < retry ==> NoneTaken(sent[r], arrivals[r], |arrivals[r]|)
        invariant Paced(raw, waits, targetDelay, old(busyDelay), maxDelay)
        invariant |raw| <= 1 ==> busyDelay == old(busyDelay)
        invariant 1 < |raw| ==> idleDelay == raw[|raw| - 1]
      {
        var packet := Transmission(cmd, pos, key, myseq, retry);
        var wait, delay := Backoff(retry);
        PacedNext(raw, waits, delay, wait, targetDelay, old(busyDelay), maxDelay);
        sent, waits, raw := sent + [packet], waits + [wait], raw + [delay];
        reply, n := Listen(packet, arrivals[retry]);
        if reply.Some? {
          key := reply.value.key;
          busyDelay := roundTrip;
          return;
        }
        retry := retry + 1;
      }
    }

    /** Sends a request until it is answered, or until the arrivals given are used up.  The reply is
      * packet number `n` of the last waiting period, and nothing that came before it is one.  The
      * waits are `raw`, kept within the limits. */
    method Interact(cmd: nat, pos: nat, random: bv16, arrivals: seq<seq<Packet>>, roundTrip: nat)
        returns (sent: seq<Packet>, waits: seq<nat>, reply: Option<Packet>, ghost raw: seq<nat>, ghost n: nat)
      requires LowBitsFree(myseq)
      modifies this
      ensures myseq == if random & 0xfff8 == old(myseq) then old(myseq) ^ 0x1080 else random & 0xfff8
      ensures LowBitsFree(myseq) && myseq != old(myseq)
      ensures |raw| == |waits| == |sent| <= |arrivals|
      ensures forall i :: 0 <= i < |sent| ==> sent[i] == Packet(cmd, old(key), myseq, i % 8, pos, true)
      ensures match Outcome(cmd, pos, old(key), myseq, 0, arrivals)
              case Some((m, p)) => reply == Some(p) && |sent| == m + 1
              case None => reply == None && |sent| == |arrivals|
      ensures match reply
              case Some(p) =>
                && key == p.key && busyDelay == roundTrip
                && sent != [] && n < |arrivals[|sent| - 1]| && p == arrivals[|sent| - 1][n]
              case None => key == old(key)
      ensures forall r, i :: (0 <= r < |sent| && 0 <= i < |arrivals[r]|
                              && (reply.Some? && r == |sent| - 1 ==> i <= n)) ==>
                (var p := arrivals[r][i];
                 (reply.Some? && r == |sent| - 1 && i == n) <==>
                 && p.sumOk && p.base == myseq && p.cmd in {cmd, 0x40}
                 && (cmd in {0x41, 0x42, 0x43, 0x11, 0x4B} ==> p.pos == pos))
      ensures Paced(raw, waits, targetDelay, old(busyDelay), maxDelay)
      ensures MIN_DELAY <= maxDelay ==>
                && (forall i :: 0 <= i < |waits| ==> MIN_DELAY <= waits[i] <= maxDelay)
                && (forall i, j :: 1 <= i <= j < |waits| ==> waits[i] <= waits[j])
    {
      NextSeqDiffers(random, myseq);
      ghost var busy := busyDelay;
      myseq := NextSeq(random, myseq);
      assert myseq == if random & 0xfff8 == old(myseq) then old(myseq) ^ 0x1080 else random & 0xfff8;
      hide FirstTaken, Outcome, LowBitsFree, Paced, Clamp, NextSeq, HighBits, SameSequence;
      sent, waits, reply, raw, n := SendUntilAnswered(cmd, pos, arrivals, roundTrip);
      if MIN_DELAY <= maxDelay {
        WaitsGrow(raw, waits, targetDelay, busy, maxDelay);
      }
    }
  }

  /** None of the first `n` packets is a reply to `sent`. */
  predicate NoneTaken(sent: Packet, ps: seq<Packet>, n: nat) {
    forall i :: 0 <= i < n && i < |ps| ==> !Takes(sent, ps[i])
  }

  /** A third longer, but no longer than the limit. */
  function Longer(delay: nat, maxDelay: nat): nat {
    if delay * 4 / 3 > maxDelay then maxDelay else delay * 4 / 3
  }

  function FirstDelay(target: nat, busy: nat): nat {
    if target >= busy then target else busy + DEFAULT_DELAY
  }

  /** The delays before resend number `n`, as far as they depend on those before. */
  predicate DelayIs(raw: seq<nat>, n: nat, target: nat, busy: nat, maxDelay: nat)
    requires n < |raw|
  {
    raw[n] == if n == 0 then FirstDelay(target, busy) else if n == 1 then busy * 3 / 2 else Longer(raw[n - 1], maxDelay)
  }

  /** The waits of a request, before and after they are kept within the limits. */
  predicate Paced(raw: seq<nat>, waits: seq<nat>, target: nat, busy: nat, maxDelay: nat) {
    && |raw| == |waits|
    && (forall i {:trigger waits[i]} :: 0 <= i < |waits| ==>
          DelayIs(raw, i, target, busy, maxDelay) && waits[i] == Clamp(raw[i], maxDelay))
  }

  lemma NothingPaced(target: nat, busy: nat, maxDelay: nat)
    ensures Paced([], [], target, busy, maxDelay)
  {
  }

  lemma PacedNext(raw: seq<nat>, waits: seq<nat>, delay: nat, wait: nat, target: nat, busy: nat, maxDelay: nat)
    requires Paced(raw, waits, target, busy, maxDelay) && wait == Clamp(delay, maxDelay)
    requires DelayIs(raw + [delay], |raw|, target, busy, maxDelay)
    ensures Paced(raw + [delay], waits + [wait], target, busy, maxDelay)
  {
    hide Clamp, Longer, FirstDelay;
    forall i | 0 <= i < |waits|
      ensures DelayIs(raw + [delay], i, target, busy, maxDelay)
    {
      assert waits[i] == Clamp(raw[i], maxDelay);
    }
  }

  /** What that comes to: a first wait of the usual delay or somewhat more than the last round trip, then
    * half as long again as that round trip, then each a third longer than the one before. */
  lemma WaitIs(raw: seq<nat>, waits: seq<nat>, target: nat, busy: nat, maxDelay: nat, i: nat)
    requires Paced(raw, waits, target, busy, maxDelay) && i < |waits|
    ensures |raw| == |waits|
    ensures waits[i] == if raw[i] < 1000 then 1000 else if raw[i] > maxDelay then maxDelay else raw[i]
    ensures i == 0 ==> raw[i] == if target >= busy then target else busy + 1340
    ensures i == 1 ==> raw[i] == busy * 3 / 2
    ensures 2 <= i ==> raw[i] == if raw[i - 1] * 4 / 3 > maxDelay then maxDelay else raw[i - 1] * 4 / 3
  {
    assert DelayIs(raw, i, target, busy, maxDelay) && waits[i] == Clamp(raw[i], maxDelay);
  }

  /** From the first resend on no wait is shorter than the one before it. */
  lemma WaitsGrow(raw: seq<nat>, waits: seq<nat>, target: nat, busy: nat, maxDelay: nat)
    requires Paced(raw, waits, target, busy, maxDelay) && MIN_DELAY <= maxDelay
    ensures forall i :: 0 <= i < |waits| ==> MIN_DELAY <= waits[i] <= maxDelay
    ensures forall i, j :: 1 <= i <= j < |waits| ==> waits[i] <= waits[j]
  {
    forall i, j | 1 <= i <= j < |waits|
      ensures waits[i] <= waits[j]
    {
      WaitGrows(raw, waits, target, busy, maxDelay, i, j);
    }
  }

  lemma {:induction false} WaitGrows(raw: seq<nat>, waits: seq<nat>, target: nat, busy: nat, maxDelay: nat,
                                     i: nat, j: nat)
    requires Paced(raw, waits, target, busy, maxDelay) && MIN_DELAY <= maxDelay && 1 <= i <= j < |waits|
    ensures waits[i] <= waits[j]
    decreases j
  {
    hide Clamp, Longer;
    if i < j {
      WaitGrows(raw, waits, target, busy, maxDelay, i, j - 1);
      assert waits[j] == Clamp(raw[j], maxDelay) && waits[j - 1] == Clamp(raw[j - 1], maxDelay);
      LongerIsNoLess(raw[j - 1], maxDelay);
    }
  }

  lemma LongerIsNoLess(delay: nat, maxDelay: nat)
    requires MIN_DELAY <= maxDelay
    ensures Clamp(delay, maxDelay) <= Clamp(Longer(delay, maxDelay), maxDelay)
  {
  }

  // ------------------------------------------------------------------------------------------
  // What the client learns about an upload
  // ------------------------------------------------------------------------------------------

  /** One chunk to be uploaded, as it is requested. */
  datatype Upload = Upload(pos: nat, key: Session.Key, base: bv16)

  /** A packet of this request that reaches the server: which transmission it was, when it comes,
    * and the key that is generated should it be dispatched as new.  Transmissions may be lost,
    * doubled and overtaken. */
  datatype Reached = Reached(retry: nat, at: nat, generated: Session.Key)

  /** The server's reply to an upload packet.  An error reply carries position zero; a resend is
    * not executed again and is always reported as stored. */
  function UploadReply(sent: Packet, resend: bool, failed: bool, nextKey: Session.Key): Packet {
    if !resend && failed then Packet(CC_ERR, nextKey, sent.base, sent.turn, 0, true)
    else Packet(sent.cmd, nextKey, sent.base, sent.turn, sent.pos, true)
  }

  /** What the server answers to the packets that reach it, one after the other: the key filter
    * drops a packet or tells whether it is a resend. */
  function Answers(c: Session.Config, h: Session.Host, u: Upload, failed: bool, reached: seq<Reached>)
      : (r: seq<Option<Packet>>)
    ensures |r| == |reached|
    decreases |reached|
  {
    if reached == [] then []
    else
      var x := reached[0];
      var (h', v) := Session.Serve(c, h, u.key, x.at, true, false, x.generated);
      var sent := Transmission(CC_UP_LOAD, u.pos, u.key, u.base, x.retry);
      [if v == Session.Dropped then None else Some(UploadReply(sent, v == Session.Resent, failed, h'.nextKey))]
      + Answers(c, h', u, failed, reached[1..])
  }

  /** What comes in during one waiting period, when the network delivers these answers. */
  function Delivered(answers: seq<Option<Packet>>, which: seq<nat>): seq<Packet> {
    if which == [] then []
    else
      (if which[0] < |answers| && answers[which[0]].Some? then [answers[which[0]].value] else [])
      + Delivered(answers, which[1..])
  }

  /** The same for all waiting periods; the network may lose, double and reorder the answers. */
  function UploadArrivals(answers: seq<Option<Packet>>, delivery: seq<seq<nat>>): (r: seq<seq<Packet>>)
    ensures |r| == |delivery|
  {
    if delivery == [] then [] else [Delivered(answers, delivery[0])] + UploadArrivals(answers, delivery[1..])
  }

  /** The first answer to get through that passes the client's check of the position: at position
    * zero any answer does, elsewhere any but that of a failed dispatch, which is number zero. */
  function FirstHeard(answers: seq<Option<Packet>>, which: seq<nat>, deaf: bool): (r: Option<nat>)
    ensures r.Some? ==> r.value < |answers| && answers[r.value].Some? && r.value in which
  {
    if which == [] then None
    else if which[0] < |answers| && answers[which[0]].Some? && !(deaf && which[0] == 0) then Some(which[0])
    else FirstHeard(answers, which[1..], deaf)
  }

  function Flat(delivery: seq<seq<nat>>): seq<nat> {
    if delivery == [] then [] else delivery[0] + Flat(delivery[1..])
  }

  /** What the client is told about a chunk in the end, if anything: the reply it takes. */
  function Told(c: Session.Config, h: Session.Host, u: Upload, failed: bool, reached: seq<Reached>,
                delivery: seq<seq<nat>>): Option<(nat, Packet)>
  {
    Outcome(CC_UP_LOAD, u.pos, u.key, u.base, 0, UploadArrivals(Answers(c, h, u, failed, reached), delivery))
  }

  predicate ReportsFailure(o: Option<(nat, Packet)>) {
    o.Some? && o.value.1.cmd == CC_ERR
  }

  predicate ReportsStored(o: Option<(nat, Packet)>) {
    o.Some? && o.value.1.cmd == CC_UP_LOAD
  }

  /** The server is ready for the request: the first packet of it to arrive is taken as new, and
    * keys that it generates are not the one the request carries. */
  predicate Ready(c: Session.Config, h: Session.Host, u: Upload, reached: seq<Reached>) {
    && (reached != [] ==> Session.Filter(c, h, u.key, reached[0].at).1 == Session.Fresh)
    && (forall i :: 0 <= i < |reached| ==> reached[i].generated != u.key)
  }

  /** Once executed, a request is answered as a resend or not at all. */
  predicate Resends(u: Upload, answers: seq<Option<Packet>>, from: nat) {
    forall i :: from <= i < |answers| && answers[i].Some? ==>
      answers[i].value.cmd == CC_UP_LOAD && Echoes(u, answers[i].value) && answers[i].value.pos == u.pos
  }

  predicate Echoes(u: Upload, p: Packet) {
    p.sumOk && p.base == u.base
  }

  lemma {:induction false} LaterAnswers(c: Session.Config, h: Session.Host, u: Upload, failed: bool,
                                        reached: seq<Reached>)
    requires h.active && h.lastKey == u.key != h.nextKey
    ensures Resends(u, Answers(c, h, u, failed, reached), 0)
    decreases |reached|
  {
    if reached != [] {
      var h' := Session.Serve(c, h, u.key, reached[0].at, true, false, reached[0].generated).0;
      LaterAnswers(c, h', u, failed, reached[1..]);
      var r := Answers(c, h, u, failed, reached);
      assert r[1..] == Answers(c, h', u, failed, reached[1..]);
      assert forall i :: 1 <= i < |r| ==> r[i] == r[1..][i - 1];
    }
  }

  /** The answers to a request that is executed once: first what came of it, then resends. */
  predicate Executed(u: Upload, failed: bool, r: seq<Option<Packet>>) {
    && Resends(u, r, 1)
    && (r != [] ==> (r[0].Some? && Echoes(u, r[0].value) && Result(u, failed, r[0].value)))
  }

  predicate Result(u: Upload, failed: bool, p: Packet) {
    if failed then p.cmd == CC_ERR && p.pos == 0 else p.cmd == CC_UP_LOAD && p.pos == u.pos
  }

  /** The first packet of a request to reach the server is executed, and answered with what came of
    * it; whatever reaches it later is answered as stored or not at all. */
  lemma OneExecution(c: Session.Config, h: Session.Host, u: Upload, failed: bool, reached: seq<Reached>)
    requires Ready(c, h, u, reached)
    ensures Executed(u, failed, Answers(c, h, u, failed, reached))
  {
    if reached != [] {
      var h' := Session.Serve(c, h, u.key, reached[0].at, true, false, reached[0].generated).0;
      assert h'.active && h'.lastKey == u.key != h'.nextKey;
      LaterAnswers(c, h', u, failed, reached[1..]);
      var r := Answers(c, h, u, failed, reached);
      assert r[1..] == Answers(c, h', u, failed, reached[1..]);
      assert forall i :: 1 <= i < |r| ==> r[i] == r[1..][i - 1];
    }
  }

  /** Whether the client does not take the answer of the dispatch. */
  predicate Deaf(u: Upload, failed: bool) {
    failed && u.pos != 0
  }

  /** The client takes any answer but one: that of a failed dispatch, at a nonzero position. */
  lemma TakesAnswer(u: Upload, failed: bool, r: seq<Option<Packet>>, n: nat, retry: nat)
    requires Executed(u, failed, r) && n < |r| && r[n].Some?
    ensures Takes(Transmission(CC_UP_LOAD, u.pos, u.key, u.base, retry), r[n].value) <==>
            !(Deaf(u, failed) && n == 0)
  {
  }

  lemma {:induction false} HeardInPeriod(u: Upload, failed: bool, r: seq<Option<Packet>>, which: seq<nat>, retry: nat)
    requires Executed(u, failed, r)
    ensures var f := FirstHeard(r, which, Deaf(u, failed));
            FirstTaken(Transmission(CC_UP_LOAD, u.pos, u.key, u.base, retry), Delivered(r, which)) ==
            if f.None? then None else r[f.value]
    decreases |which|
  {
    hide Takes, Transmission, Executed, Deaf;
    if which != [] {
      HeardInPeriod(u, failed, r, which[1..], retry);
      var w := which[0];
      if w < |r| && r[w].Some? {
        TakesAnswer(u, failed, r, w, retry);
        assert Delivered(r, which) == [r[w].value] + Delivered(r, which[1..]);
      } else {
        assert Delivered(r, which) == Delivered(r, which[1..]);
      }
    }
  }

  lemma {:induction false} FirstHeardJoin(r: seq<Option<Packet>>, a: seq<nat>, b: seq<nat>, deaf: bool)
    ensures FirstHeard(r, a + b, deaf) ==
            if FirstHeard(r, a, deaf).Some? then FirstHeard(r, a, deaf) else FirstHeard(r, b, deaf)
  {
    if a == [] {
      assert a + b == b;
    } else {
      assert (a + b)[1..] == a[1..] + b;
      FirstHeardJoin(r, a[1..], b, deaf);
    }
  }

  lemma {:induction false} HeardAtAll(u: Upload, failed: bool, r: seq<Option<Packet>>, delivery: seq<seq<nat>>,
                                      retry: nat)
    requires Executed(u, failed, r)
    ensures var o := Outcome(CC_UP_LOAD, u.pos, u.key, u.base, retry, UploadArrivals(r, delivery));
            var f := FirstHeard(r, Flat(delivery), Deaf(u, failed));
            if f.None? then o.None? else o.Some? && Some(o.value.1) == r[f.value]
    decreases |delivery|
  {
    hide Transmission, Executed, Deaf, FirstTaken, FirstHeard, Delivered;
    if delivery == [] {
      NothingHeard(r, Deaf(u, failed));
    } else {
      HeardInPeriod(u, failed, r, delivery[0], retry);
      FirstHeardJoin(r, delivery[0], Flat(delivery[1..]), Deaf(u, failed));
      HeardAtAll(u, failed, r, delivery[1..], retry + 1);
      var xs := UploadArrivals(r, delivery);
      assert xs[0] == Delivered(r, delivery[0]) && xs[1..] == UploadArrivals(r, delivery[1..]);
    }
  }

  lemma NothingHeard(r: seq<Option<Packet>>, deaf: bool)
    ensures FirstHeard(r, [], deaf) == None
  {
  }

  lemma {:induction false} HeardIfAny(r: seq<Option<Packet>>, which: seq<nat>, deaf: bool)
    ensures FirstHeard(r, which, deaf).Some? <==>
            exists n :: n in which && n < |r| && r[n].Some? && !(deaf && n == 0)
  {
    if which != [] {
      HeardIfAny(r, which[1..], deaf);
      assert which == [which[0]] + which[1..];
    }
  }

  /** The first answer of the server to get through, whether or not the client takes it. */
  function FirstThrough(c: Session.Config, h: Session.Host, u: Upload, failed: bool, reached: seq<Reached>,
                        delivery: seq<seq<nat>>): Option<nat>
  {
    FirstHeard(Answers(c, h, u, failed, reached), Flat(delivery), false)
  }

  lemma ToldIs(c: Session.Config, h: Session.Host, u: Upload, failed: bool, reached: seq<Reached>,
               delivery: seq<seq<nat>>)
    requires Ready(c, h, u, reached)
    ensures var r, o := Answers(c, h, u, failed, reached), Told(c, h, u, failed, reached, delivery);
            var f := FirstHeard(r, Flat(delivery), Deaf(u, failed));
            && (ReportsFailure(o) <==> f == Some(0) && failed)
            && (ReportsStored(o) <==> f.Some? && (f.value != 0 || !failed))
  {
    var r := Answers(c, h, u, failed, reached);
    OneExecution(c, h, u, failed, reached);
    HeardAtAll(u, failed, r, delivery, 0);
    hide Answers, FirstHeard, Outcome, UploadArrivals, Flat, Deaf;
  }

  lemma {:induction false} NotWhenDeaf(r: seq<Option<Packet>>, which: seq<nat>)
    ensures FirstHeard(r, which, true) != Some(0)
  {
    if which != [] {
      NotWhenDeaf(r, which[1..]);
    }
  }

  /** A failed chunk is reported as stored: at position zero, when the first answer to get through
    * is not that of the dispatch but of a resend; anywhere else, when the answer to a resend gets
    * through at all. */
  lemma ResendsReportStored(c: Session.Config, h: Session.Host, u: Upload, reached: seq<Reached>,
                            delivery: seq<seq<nat>>)
    requires Ready(c, h, u, reached)
    ensures var f := FirstThrough(c, h, u, true, reached, delivery);
            ReportsStored(Told(c, h, u, true, reached, delivery)) <==>
            if u.pos == 0 then f.Some? && f.value != 0
            else exists n :: n in Flat(delivery) && 0 < n < |reached| && Answers(c, h, u, true, reached)[n].Some?
  {
    var r, which := Answers(c, h, u, true, reached), Flat(delivery);
    ToldIs(c, h, u, true, reached, delivery);
    if u.pos != 0 {
      NotWhenDeaf(r, which);
      HeardIfAny(r, which, true);
    }
    hide Answers, FirstHeard, Told, Flat;
  }

  /** The client hears that storing a chunk failed exactly when the chunk is at position zero and
    * the answer to the first of its packets that reached the server is the first to get through,
    * whatever is lost, doubled or overtaken in either direction.  At any other position the error
    * reply is dropped for its zero position. */
  lemma UploadFailureHeard(c: Session.Config, h: Session.Host, u: Upload, failed: bool, reached: seq<Reached>,
                           delivery: seq<seq<nat>>)
    requires Ready(c, h, u, reached)
    ensures ReportsFailure(Told(c, h, u, failed, reached, delivery)) <==>
            failed && u.pos == 0 && FirstThrough(c, h, u, failed, reached, delivery) == Some(0)
  {
    ToldIs(c, h, u, failed, reached, delivery);
    NotWhenDeaf(Answers(c, h, u, failed, reached), Flat(delivery));
    hide Answers, FirstHeard, Told, Flat;
  }

  /** The server is ready for the client's current request, in every run of the key protocol in which
    * the client pauses before its goodbyes, if that request was not executed, is no goodbye, and the
    * client holds a key of the server. */
  lemma CurrentUploadIsReady(c: Session.Config, s: Session.State, steps: seq<Session.Step>, u: Upload,
                             reached: seq<Reached>)
    requires c.packetLife <= c.sessionTimeout && Session.Initial(s) && s.key != 0
    requires Session.Run(c, s, steps) && Session.Patient(c, c.packetLife, s, steps)
    requires var t := Session.Final(c, s, steps);
             t.busy && !t.bye && t.rid !in t.log && u.key == t.key && KeyLockstep.HoldsKey(t)
    requires forall i :: 0 <= i < |reached| ==> reached[i].generated != u.key
    ensures Ready(c, Session.Final(c, s, steps).host, u, reached)
  {
    Execution.ReachableExact(c, s, steps);
    Execution.CurrentIsLogged(c, Session.Final(c, s, steps));
    hide Session.Run, Session.Patient, Session.Final;
  }
}
