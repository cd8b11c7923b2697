/** How the compiler of `find` expressions fails: which fault comes first, and whether it is met with a
  * message or by following a bad pointer. */
module FindFails {
  import opened FindPlan
  import opened Options

  // ------------------------------------------------------------------------------------------
  // paren_squish
  // ------------------------------------------------------------------------------------------

  /** The parentheses open after the first `n` tokens. */
  function Depth(ts: seq<Node>, n: nat): int
    requires n <= |ts|
  {
    if n == 0 then 0
    else Depth(ts, n - 1) + if ts[n - 1].Open? then 1 else if ts[n - 1].Close? then -1 else 0
  }

  /** A closing parenthesis that closes nothing, or nothing but an empty group. */
  predicate BadClose(ts: seq<Node>, i: nat)
    requires i < |ts|
  {
    ts[i].Close? && (Depth(ts, i) == 0 || (i > 0 && ts[i - 1].Open?))
  }

  /** What goes wrong with the parentheses, in one scan: `depth` of them are open, the last one just
    * now if `justOpened`. */
  function Scan(ts: seq<Node>, depth: nat, justOpened: bool): Option<Failure> {
    if ts == [] then if depth > 0 then Some(Crash) else None
    else if ts[0].Close? then
      if depth == 0 || justOpened then Some(Usage) else Scan(ts[1..], depth - 1, false)
    else if ts[0].Open? then Scan(ts[1..], depth + 1, true)
    else Scan(ts[1..], depth, false)
  }

  lemma {:induction false} CollectScans(plan: seq<Node>, body: seq<Node>, depth: nat)
    ensures Scan(plan, depth + 1, body == []) ==
            var r := Collect(plan, body);
            if r.Err? then Some(r.failure) else Scan(r.value.1, depth, false)
    decreases |plan|
  {
    if plan != [] && !plan[0].Close? {
      if plan[0].Open? {
        CollectScans(plan[1..], [], depth + 1);
        var r := Collect(plan[1..], []);
        if r.Ok? {
          CollectScans(r.value.1, body + [Group(r.value.0)], depth);
        }
      } else {
        CollectScans(plan[1..], body + [plan[0]], depth);
      }
    }
  }

  lemma {:induction false} ParenScans(plan: seq<Node>, done: seq<Node>)
    ensures Scan(plan, 0, false) == var r := ParenRest(plan, done); if r.Err? then Some(r.failure) else None
    decreases |plan|
  {
    if plan != [] && !plan[0].Close? {
      if plan[0].Open? {
        CollectScans(plan[1..], [], 0);
        var r := Collect(plan[1..], []);
        if r.Ok? {
          ParenScans(r.value.1, done + [Group(r.value.0)]);
        }
      } else {
        ParenScans(plan[1..], done + [plan[0]]);
      }
    }
  }

  lemma {:induction false} ScanFrom(ts: seq<Node>, i: nat)
    requires i <= |ts| && Depth(ts, i) >= 0
    ensures var s := Scan(ts[i..], Depth(ts, i), i > 0 && ts[i - 1].Open?);
            && (s == Some(Usage) <==> exists j :: i <= j < |ts| && BadClose(ts, j))
            && (s == Some(Crash) <==> (forall j :: i <= j < |ts| ==> !BadClose(ts, j)) && Depth(ts, |ts|) != 0)
    decreases |ts| - i
  {
    if i < |ts| && !BadClose(ts, i) {
      assert ts[i..][1..] == ts[i + 1..];
      ScanFrom(ts, i + 1);
    }
  }

  /** The first pass exits with a message if and only if some parenthesis closes nothing or an empty
    * group; it crashes if and only if there is none such and one is left open. */
  lemma ParenFails(ts: seq<Node>)
    ensures ParenRest(ts, []) == Err(Usage) <==> exists i :: 0 <= i < |ts| && BadClose(ts, i)
    ensures ParenRest(ts, []) == Err(Crash) <==>
            (forall i :: 0 <= i < |ts| ==> !BadClose(ts, i)) && Depth(ts, |ts|) != 0
  {
    ParenScans(ts, []);
    assert ts[0..] == ts;
    ScanFrom(ts, 0);
  }

  // ------------------------------------------------------------------------------------------
  // not_squish
  // ------------------------------------------------------------------------------------------

  /** The fault `f` at number `i` of a list: a `!` with nothing behind it, a `!` in front of `-o`, or a
    * fault in a group that is not itself negated. */
  predicate NotFault(p: seq<Node>, i: nat, f: Failure)
    requires i < |p|
  {
    || (IsNot(p[i]) && i + 1 == |p| && f == Crash)
    || (IsNot(p[i]) && i + 1 < |p| && IsOr(p[i + 1]) && f == Usage)
    || (p[i].Group? && !(i > 0 && IsNot(p[i - 1])) && NotRest(p[i].body, []) == Err(f))
  }

  predicate NoNotFault(p: seq<Node>, i: nat)
    requires i < |p|
  {
    !NotFault(p, i, Usage) && !NotFault(p, i, Crash)
  }

  lemma NotFaultLater(p: seq<Node>, n: nat, i: nat, f: Failure)
    requires 0 < n <= i < |p| && !IsNot(p[n - 1])
    ensures NotFault(p, i, f) <==> NotFault(p[n..], i - n, f)
  {
  }

  /** `f` is the first fault, at number `i`. */
  ghost predicate FirstNotFault(p: seq<Node>, i: nat, f: Failure) {
    i < |p| && NotFault(p, i, f) && forall j :: 0 <= j < i ==> NoNotFault(p, j)
  }

  lemma FirstNotFaultLater(p: seq<Node>, n: nat, i: nat, f: Failure)
    requires 0 < n <= i && FirstNotFault(p, i, f) && !IsNot(p[n - 1])
    ensures FirstNotFault(p[n..], i - n, f)
  {
    NotFaultLater(p, n, i, f);
    forall j | 0 <= j < i - n
      ensures NoNotFault(p[n..], j)
    {
      assert NoNotFault(p, n + j);
      NotFaultLater(p, n, n + j, Usage);
      NotFaultLater(p, n, n + j, Crash);
    }
  }

  lemma NoFaultInRun(p: seq<Node>, k: nat, j: nat)
    requires k <= |p| && (forall i :: 0 <= i < k ==> IsNot(p[i])) && j + 1 < k
    ensures NoNotFault(p, j)
  {
  }

  /** Where a run of `!` at the start of a list has its fault, if it has one. */
  lemma RunFault(p: seq<Node>, i: nat, f: Failure)
    requires FirstNotFault(p, i, f) && p != [] && IsNot(p[0])
    ensures var k := NotRun(p);
            if k == |p| then f == Crash else if IsOr(p[k]) then f == Usage else k + 1 <= i
  {
    var k := NotRun(p);
    assert forall j :: 0 <= j < k ==> IsNot(p[j]);
    if i + 1 < k {
      NoFaultInRun(p, k, i);
    }
    if k == |p| || IsOr(p[k]) {
      assert NotFault(p, k - 1, if k == |p| then Crash else Usage);
      assert k - 1 < i ==> NoNotFault(p, k - 1);
    }
  }

  /** The first element of a list that does not start with `!`. */
  lemma HeadFault(p: seq<Node>, i: nat, f: Failure)
    requires FirstNotFault(p, i, f) && p != [] && !IsNot(p[0])
    ensures if p[0].Group? && NotRest(p[0].body, []).Err? then NotRest(p[0].body, []) == Err(f) else 1 <= i
  {
    if p[0].Group? && NotRest(p[0].body, []).Err? {
      assert NotFault(p, 0, NotRest(p[0].body, []).failure);
      assert 0 < i ==> NoNotFault(p, 0);
    }
  }

  lemma {:induction false} NotFailsWith(p: seq<Node>, done: seq<Node>, i: nat, f: Failure)
    requires FirstNotFault(p, i, f)
    ensures NotRest(p, done) == Err(f)
    decreases |p|
  {
    if IsNot(p[0]) {
      var k := 1 + NotRun(p[1..]);
      assert k == NotRun(p);
      hide FirstNotFault, NotRun, NotRest;
      NotStepRun(p, done, k);
      RunFault(p, i, f);
      if k < |p| && !IsOr(p[k]) {
        FirstNotFaultLater(p, k + 1, i, f);
        NotFailsWith(p[k + 1..], done + [if k % 2 == 1 then Not([p[k]]) else p[k]], i - (k + 1), f);
      }
    } else {
      hide FirstNotFault, NotRest;
      HeadFault(p, i, f);
      if p[0].Group? {
        NotStepGroup(p, done);
        var body := NotRest(p[0].body, []);
        if body.Ok? {
          FirstNotFaultLater(p, 1, i, f);
          NotFailsWith(p[1..], done + [Group(body.value)], i - 1, f);
        }
      } else {
        NotStepPlain(p, done);
        FirstNotFaultLater(p, 1, i, f);
        NotFailsWith(p[1..], done + [p[0]], i - 1, f);
      }
    }
  }

  /** The faults up to the operand of a run of `!`. */
  lemma RunFaults(p: seq<Node>)
    requires p != [] && IsNot(p[0])
    ensures var k := NotRun(p);
            && 0 < k
            && (k == |p| ==> FirstNotFault(p, k - 1, Crash))
            && (k < |p| && IsOr(p[k]) ==> FirstNotFault(p, k - 1, Usage))
            && (k < |p| && !IsOr(p[k]) ==> forall j :: 0 <= j < k + 1 ==> NoNotFault(p, j))
  {
    var k := NotRun(p);
    hide NotRun, NotRest;
    assert 0 < k && IsNot(p[k - 1]);
    forall j | 0 <= j < k - 1
      ensures NoNotFault(p, j)
    {
      NoFaultInRun(p, k, j);
    }
  }

  /** Whatever fails has a fault. */
  lemma {:induction false} NotFailureHasFault(p: seq<Node>, done: seq<Node>) returns (i: nat, f: Failure)
    requires NotRest(p, done).Err?
    ensures FirstNotFault(p, i, f)
    decreases |p|
  {
    if IsNot(p[0]) {
      var k := 1 + NotRun(p[1..]);
      assert k == NotRun(p);
      NotStepRun(p, done, k);
      RunFaults(p);
      hide NotRun, NotRest, FirstNotFault, NotFault;
      if k == |p| || IsOr(p[k]) {
        i, f := k - 1, if k == |p| then Crash else Usage;
      } else {
        i, f := NotFailureHasFault(p[k + 1..], done + [if k % 2 == 1 then Not([p[k]]) else p[k]]);
        FirstNotFaultFrom(p, k + 1, i, f);
        i := i + k + 1;
      }
    } else if p[0].Group? && NotRest(p[0].body, []).Err? {
      i, f := 0, NotRest(p[0].body, []).failure;
    } else {
      if p[0].Group? {
        NotStepGroup(p, done);
        i, f := NotFailureHasFault(p[1..], done + [Group(NotRest(p[0].body, []).value)]);
      } else {
        NotStepPlain(p, done);
        i, f := NotFailureHasFault(p[1..], done + [p[0]]);
      }
      hide NotRest, FirstNotFault;
      FirstNotFaultFrom(p, 1, i, f);
      i := i + 1;
    }
  }

  lemma FirstNotFaultFrom(p: seq<Node>, n: nat, i: nat, f: Failure)
    requires 0 < n <= |p| && FirstNotFault(p[n..], i, f) && !IsNot(p[n - 1])
    requires forall j :: 0 <= j < n ==> NoNotFault(p, j)
    ensures FirstNotFault(p, n + i, f)
  {
    NotFaultLater(p, n, n + i, f);
    forall j | n <= j < n + i
      ensures NoNotFault(p, j)
    {
      assert NoNotFault(p[n..], j - n);
      NotFaultLater(p, n, j, Usage);
      NotFaultLater(p, n, j, Crash);
    }
  }

  /** The second pass fails if and only if the list has a fault, and then with the first one. */
  lemma NotFails(p: seq<Node>, f: Failure)
    ensures NotRest(p, []) == Err(f) <==> exists i :: FirstNotFault(p, i, f)
  {
    if NotRest(p, []) == Err(f) {
      var i, g := NotFailureHasFault(p, []);
      NotFailsWith(p, [], i, g);
    }
    if i: nat :| FirstNotFault(p, i, f) {
      NotFailsWith(p, [], i, f);
    }
  }

  // ------------------------------------------------------------------------------------------
  // or_squish
  // ------------------------------------------------------------------------------------------

  /** The fault `f` at number `i` of a list, whose part before it holds something if `begun`: a `!`
    * without operand, an `-o` without left or right side, or a fault inside a group or an operand. */
  predicate OrFault(p: seq<Node>, begun: bool, i: nat, f: Failure)
    requires i < |p|
  {
    || (p[i].NotTok? && f == Crash)
    || (IsOr(p[i]) && f == Usage
        && ((i == 0 && !begun) || (i > 0 && IsOr(p[i - 1])) || i + 1 == |p|))
    || (p[i].Group? && OrRest(p[i].body, []) == Err(f))
    || (p[i].Not? && OrRest(p[i].arg, []) == Err(f))
  }

  predicate NoOrFault(p: seq<Node>, begun: bool, i: nat)
    requires i < |p|
  {
    !OrFault(p, begun, i, Usage) && !OrFault(p, begun, i, Crash)
  }

  ghost predicate FirstOrFault(p: seq<Node>, begun: bool, i: nat, f: Failure) {
    i < |p| && OrFault(p, begun, i, f) && forall j :: 0 <= j < i ==> NoOrFault(p, begun, j)
  }

  /** What stands behind the first element. */
  lemma OrFaultLater(p: seq<Node>, begun: bool, i: nat)
    requires 0 < i < |p|
    ensures OrFault(p, begun, i, Usage) <==> OrFault(p[1..], !IsOr(p[0]), i - 1, Usage)
    ensures OrFault(p, begun, i, Crash) <==> OrFault(p[1..], !IsOr(p[0]), i - 1, Crash)
    ensures NoOrFault(p, begun, i) <==> NoOrFault(p[1..], !IsOr(p[0]), i - 1)
  {
  }

  lemma FirstOrFaultLater(p: seq<Node>, begun: bool, i: nat, f: Failure)
    requires FirstOrFault(p, begun, i, f) && 0 < i
    ensures FirstOrFault(p[1..], !IsOr(p[0]), i - 1, f)
  {
    OrFaultLater(p, begun, i);
    var rest, later := p[1..], !IsOr(p[0]);
    forall j | 0 <= j < i - 1
      ensures NoOrFault(rest, later, j)
    {
      OrFaultLater(p, begun, j + 1);
    }
  }

  lemma FirstOrFaultFrom(p: seq<Node>, begun: bool, i: nat, f: Failure)
    requires p != [] && NoOrFault(p, begun, 0) && FirstOrFault(p[1..], !IsOr(p[0]), i, f)
    ensures FirstOrFault(p, begun, i + 1, f)
  {
    OrFaultLater(p, begun, i + 1);
    forall j | 0 < j < i + 1
      ensures NoOrFault(p, begun, j)
    {
      OrFaultLater(p, begun, j);
    }
  }

  /** One step of the third pass: what the first element makes of it, and how it goes on. */
  lemma OrStep(p: seq<Node>, done: seq<Node>) returns (f: Option<Failure>, next: seq<Node>)
    requires p != []
    ensures f.Some? ==> OrRest(p, done) == Err(f.value) && FirstOrFault(p, done != [], 0, f.value)
    ensures f.None? ==>
              && NoOrFault(p, done != [], 0)
              && (next != [] <==> !IsOr(p[0]))
              && (OrRest(p, done).Err? <==> OrRest(p[1..], next).Err?)
              && (OrRest(p, done).Err? ==> OrRest(p, done) == Err(OrRest(p[1..], next).failure))
  {
    f, next := None, [];
    match p[0]
    case Group(body) =>
      var b := OrRest(body, []);
      if b.Err? { f := Some(b.failure); } else { next := done + [Group(b.value)]; }
    case Not(arg) =>
      var a := OrRest(arg, []);
      if a.Err? { f := Some(a.failure); } else { next := done + [Not(a.value)]; }
    case NotTok => f := Some(Crash);
    case OrTok => f := AtOr(p, done);
    case Or(_, _) => f := AtOr(p, done);
    case _ => next := done + [p[0]];
  }

  lemma AtOr(p: seq<Node>, done: seq<Node>) returns (f: Option<Failure>)
    requires p != [] && IsOr(p[0])
    ensures f == if done == [] || |p| == 1 then Some(Usage) else None
    ensures f.Some? ==> OrRest(p, done) == Err(Usage)
    ensures f.None? ==>
              && (OrRest(p, done).Err? <==> OrRest(p[1..], []).Err?)
              && (OrRest(p, done).Err? ==> OrRest(p, done) == Err(OrRest(p[1..], []).failure))
  {
    f := if done == [] || |p| == 1 then Some(Usage) else None;
    if f.None? && OrRest(p[1..], []).Ok? {
      OrKeepsSomething(p[1..], []);
    }
  }

  lemma {:induction false} OrKeepsSomething(p: seq<Node>, done: seq<Node>)
    requires (p != [] || done != []) && OrRest(p, done).Ok?
    ensures OrRest(p, done).value != []
  {
    if p != [] && !IsOr(p[0]) {
      if p[0].Group? {
        OrKeepsSomething(p[1..], done + [Group(OrRest(p[0].body, []).value)]);
      } else if p[0].Not? {
        OrKeepsSomething(p[1..], done + [Not(OrRest(p[0].arg, []).value)]);
      } else {
        OrKeepsSomething(p[1..], done + [p[0]]);
      }
    }
  }

  lemma OnlyOneFault(p: seq<Node>, begun: bool, f: Failure, g: Failure)
    requires p != [] && OrFault(p, begun, 0, g)
    ensures OrFault(p, begun, 0, f) ==> f == g
    ensures !NoOrFault(p, begun, 0)
  {
  }

  /** The third pass fails with the first fault of the list. */
  lemma {:induction false} OrFailsWith(p: seq<Node>, done: seq<Node>, i: nat, f: Failure)
    requires FirstOrFault(p, done != [], i, f)
    ensures OrRest(p, done) == Err(f)
    decreases |p|
  {
    var g, next := OrStep(p, done);
    if g.Some? {
      assert 0 < i ==> NoOrFault(p, done != [], 0);
      OnlyOneFault(p, done != [], f, g.value);
    } else {
      assert i != 0;
      hide OrRest, FirstOrFault, OrFault;
      FirstOrFaultLater(p, done != [], i, f);
      OrFailsWith(p[1..], next, i - 1, f);
    }
  }

  /** Whatever fails has a fault. */
  lemma {:induction false} OrFailureHasFault(p: seq<Node>, done: seq<Node>) returns (i: nat, f: Failure)
    requires OrRest(p, done).Err?
    ensures FirstOrFault(p, done != [], i, f)
    decreases |p|
  {
    var g, next := OrStep(p, done);
    hide OrRest, FirstOrFault, OrFault;
    if g.Some? {
      i, f := 0, g.value;
    } else {
      i, f := OrFailureHasFault(p[1..], next);
      FirstOrFaultFrom(p, done != [], i, f);
      i := i + 1;
    }
  }

  /** The third pass fails if and only if the list has a fault, and then with the first one. */
  lemma OrFails(p: seq<Node>, f: Failure)
    ensures OrRest(p, []) == Err(f) <==> exists i :: FirstOrFault(p, false, i, f)
  {
    if OrRest(p, []) == Err(f) {
      var i, g := OrFailureHasFault(p, []);
      OrFailsWith(p, [], i, g);
    }
    if i: nat :| FirstOrFault(p, false, i, f) {
      OrFailsWith(p, [], i, f);
    }
  }
}
