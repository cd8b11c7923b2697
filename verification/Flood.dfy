/** A bound on how many packets of strangers the key filter lets through. */
module Flood {
  import opened Session

  /** A packet from anywhere, with whatever key, at the key filter of one host. */
  datatype Stray = Stray(key: Key, at: nat, sumOk: bool, generated: Key)

  predicate Ordered(xs: seq<Stray>) {
    forall i, j :: 0 <= i < j < |xs| ==> xs[i].at <= xs[j].at
  }

  /** How many of the arrivals pass the filter without carrying the key it expects next. */
  function Intrusions(c: Config, h: Host, xs: seq<Stray>): nat
    decreases |xs|
  {
    if xs == [] then 0
    else
      var x := xs[0];
      var passes := Filter(c, h, x.key, x.at).1 != Dropped && x.key != h.nextKey;
      (if passes then 1 else 0)
      + Intrusions(c, Serve(c, h, x.key, x.at, x.sumOk, false, x.generated).0, xs[1..])
  }

  function Gap(c: Config): nat {
    if c.retryTimeout < c.sessionTimeout then c.retryTimeout else c.sessionTimeout
  }

  /** One packet at the filter of an active host. */
  lemma Passing(c: Config, h: Host, x: Stray)
    requires h.active && h.lastAcc <= x.at
    ensures var h' := Serve(c, h, x.key, x.at, x.sumOk, false, x.generated).0;
            && h'.active
            && (if Filter(c, h, x.key, x.at).1 == Dropped then h' == h else h'.lastAcc == x.at)
            && (Filter(c, h, x.key, x.at).1 != Dropped && x.key != h.nextKey ==>
                  h.lastAcc + Gap(c) <= x.at)
  {
  }

  lemma {:induction false} IntrusionsSpaced(c: Config, h: Host, xs: seq<Stray>, end: nat)
    requires h.active && Ordered(xs)
    requires forall i :: 0 <= i < |xs| ==> h.lastAcc <= xs[i].at <= end
    requires h.lastAcc <= end
    ensures Intrusions(c, h, xs) * Gap(c) <= end - h.lastAcc
    decreases |xs|
  {
    hide Filter, Serve, Gap;
    if xs != [] {
      var x := xs[0];
      Passing(c, h, x);
      var h' := Serve(c, h, x.key, x.at, x.sumOk, false, x.generated).0;
      IntrusionsSpaced(c, h', xs[1..], end);
      var n := Intrusions(c, h', xs[1..]);
      assert (n + 1) * Gap(c) == n * Gap(c) + Gap(c);
    }
  }

  /** In any window of `span` seconds of an active session, at most `1 + span / Gap` packets that
    * do not know the expected key get past the filter. */
  lemma {:induction false} FloodBound(c: Config, h: Host, xs: seq<Stray>, start: nat, span: nat)
    requires h.active && Ordered(xs) && 0 < Gap(c)
    requires h.lastAcc <= start
    requires forall i :: 0 <= i < |xs| ==> start <= xs[i].at <= start + span
    ensures Intrusions(c, h, xs) <= 1 + span / Gap(c)
    decreases |xs|
  {
    hide Filter, Serve, Gap;
    if xs != [] {
      var x := xs[0];
      Passing(c, h, x);
      var h' := Serve(c, h, x.key, x.at, x.sumOk, false, x.generated).0;
      if Filter(c, h, x.key, x.at).1 == Dropped {
        FloodBound(c, h, xs[1..], start, span);
      } else {
        IntrusionsSpaced(c, h', xs[1..], start + span);
        var n := Intrusions(c, h', xs[1..]);
        assert n * Gap(c) <= span;
        assert n <= span / Gap(c) by { Quotient(n, span, Gap(c)); }
      }
    }
  }

  lemma Quotient(n: nat, span: nat, gap: nat)
    requires 0 < gap && n * gap <= span
    ensures n <= span / gap
  {
    var q := span / gap;
    assert n * gap < (q + 1) * gap;
    assert 0 < (q + 1 - n) * gap;
  }
}
