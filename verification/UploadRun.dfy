/** A whole upload over the network: the key protocol delivers the chunks, the server stores them. */
module UploadRun {
  import Execution
  import Session
  import Upload
  import opened Options

  /** The requests, by number, that these events carry out: chunk number `i` is the client's request
    * number `first + i`. */
  function Dispatched(events: seq<Upload.Event>, first: nat): seq<nat> {
    if events == [] then []
    else (if events[0].Deliver? then [first + events[0].i] else []) + Dispatched(events[1..], first)
  }

  /** The requests of a log from number `first` on. */
  function Since(log: seq<nat>, first: nat): seq<nat> {
    if log == [] then [] else (if first <= log[0] then [log[0]] else []) + Since(log[1..], first)
  }

  /** The numbers from `lo` up to, and without, `hi`. */
  function Range(lo: nat, hi: nat): (r: seq<nat>)
    ensures |r| == if lo < hi then hi - lo else 0
    ensures forall j :: 0 <= j < |r| ==> r[j] == lo + j
    decreases hi - lo
  {
    if lo < hi then [lo] + Range(lo + 1, hi) else []
  }

  /** An increasing log with all numbers from `first` to `last` and no later ones ends with exactly
    * these. */
  lemma {:induction false} SinceIsRange(log: seq<nat>, first: nat, last: nat)
    requires Execution.Increasing(log)
    requires forall i :: 0 <= i < |log| ==> log[i] <= last
    requires forall x: nat :: first <= x <= last ==> x in log
    ensures Since(log, first) == Range(first, last + 1)
    decreases |log|
  {
    if log == [] {
      assert first <= last ==> first in log;
    } else {
      var rest, next := log[1..], if first <= log[0] then first + 1 else first;
      if first <= log[0] {
        assert first in log;
        assert log[0] == first;
        SinceAbove(rest, first, first + 1);
      }
      forall x: nat | next <= x <= last ensures x in rest {
        assert x in log && log == [log[0]] + rest;
      }
      SinceIsRange(rest, next, last);
    }
  }

  /** Leaving out numbers that are not there changes nothing. */
  lemma {:induction false} SinceAbove(log: seq<nat>, less: nat, more: nat)
    requires less <= more && forall i :: 0 <= i < |log| ==> more <= log[i]
    ensures Since(log, less) == Since(log, more)
  {
    if log != [] {
      SinceAbove(log[1..], less, more);
    }
  }

  /** Requests dispatched once each and in order are chunks that arrive in order. */
  lemma {:induction false} OrderedArrivals(events: seq<Upload.Event>, first: nat, next: nat, upto: nat, n: nat)
    requires next <= upto <= n && Dispatched(events, first) == Range(first + next, first + upto)
    ensures Upload.InOrder(events, next, n)
    ensures Upload.Arrived(events, next) == upto
    decreases |events|
  {
    if events != [] {
      var ds, rest := Dispatched(events, first), Dispatched(events[1..], first);
      if events[0].Deliver? {
        assert ds[0] == first + next && ds[1..] == rest;
        OrderedArrivals(events[1..], first, next + 1, upto, n);
      } else {
        assert ds == rest;
        OrderedArrivals(events[1..], first, next, upto, n);
      }
    } else {
      assert Range(first + next, first + upto) == [];
    }
  }

  /** The client has sent nothing but chunks from request number `first` on. */
  predicate Uploading(t: Session.State, first: nat, n: nat) {
    && 1 <= first && t.rid < first + n
    && forall rid :: first <= rid <= t.rid ==> rid !in Execution.Byes(t)
  }

  /** Over a network that loses, duplicates, reorders and damages packets, with the server's handle
    * evicted anywhere, in a run with any requests and goodbyes before the upload: when the client has
    * been answered its last chunk, the source is in the temporary file, and until then no chunk is
    * refused.  `tmp` is the temporary file when the upload starts. */
  lemma UploadOverNetwork<T(!new)>(c: Session.Config, s: Session.State, steps: seq<Session.Step>, first: nat,
                                   tmp: Upload.Temp<T>, src: seq<T>, cs: seq<Upload.Request<T>>,
                                   events: seq<Upload.Event>)
    requires c.packetLife <= c.sessionTimeout && Session.Initial(s) && s.key != 0
    requires Session.Run(c, s, steps) && Session.Patient(c, c.packetLife, s, steps)
    requires Upload.Valid(tmp) && Upload.Whole(src, cs) && forall j :: 0 <= j < |cs| ==> cs[j].Chunk?
    requires Upload.Harmless(tmp, cs)
    requires var t := Session.Final(c, s, steps);
             Uploading(t, first, |cs|) && Dispatched(events, first) == Since(t.log, first)
    ensures var t, (tmp', ok) := Session.Final(c, s, steps), Upload.Receive(tmp, cs, events);
            ok && (t.rid == first + |cs| - 1 && !t.busy ==> tmp'.file == Some(src))
  {
    Execution.ReachableExact(c, s, steps);
    var t := Session.Final(c, s, steps);
    var upto := Arrivals(c, t, first, |cs|);
    hide *;
    OrderedArrivals(events, first, 0, upto, |cs|);
    Upload.BeforeFirst(tmp, src, cs, events);
    Stored(tmp, src, cs, events);
  }

  /** How many chunks were executed. */
  lemma Arrivals(c: Session.Config, t: Session.State, first: nat, n: nat) returns (upto: nat)
    requires Session.Inv(c, t) && Execution.Kept(t) && Uploading(t, first, n)
    ensures upto <= n && Since(t.log, first) == Range(first, first + upto)
    ensures t.rid == first + n - 1 && !t.busy ==> upto == n
  {
    hide Session.Keys, Session.ByeAlone, Session.RequestOk, Session.ReplyOk, Execution.Byes;
    assert Execution.Exact(t) && Session.Progress(t);
    SinceIsRange(t.log, first, t.served);
    upto := if first <= t.served then t.served + 1 - first else 0;
  }

  lemma Stored<T>(tmp: Upload.Temp<T>, src: seq<T>, cs: seq<Upload.Request<T>>, events: seq<Upload.Event>)
    requires Upload.Valid(tmp) && forall j :: 0 <= j < |cs| ==> cs[j].Chunk?
    requires Upload.Good(tmp, src, cs, events)
    ensures var (tmp', ok) := Upload.Receive(tmp, cs, events);
            ok && (Upload.Arrived(events, 0) == |cs| ==> tmp'.file == Some(src))
  {
  }
}
