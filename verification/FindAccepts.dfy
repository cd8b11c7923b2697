/** The lists that the `find` compiler accepts, and what the plan keeps of them. */
module FindAccepts {
  import opened FindPlan
  import opened FindGrammar

  predicate IsToken(n: Node) {
    n.Prim? || n.Open? || n.Close? || n.NotTok? || n.OrTok?
  }

  predicate TokensOnly(ts: seq<Node>) {
    forall i :: 0 <= i < |ts| ==> IsToken(ts[i])
  }

  // ------------------------------------------------------------------------------------------
  // paren_squish can be undone
  // ------------------------------------------------------------------------------------------

  predicate IsGrouped(p: seq<Node>) {
    forall i :: 0 <= i < |p| ==> IsGroupedNode(p[i])
  }

  predicate IsGroupedNode(n: Node) {
    n.Prim? || n.NotTok? || n.OrTok? || (n.Group? && n.body != [] && IsGrouped(n.body))
  }

  function Flatten(p: seq<Node>): seq<Node> {
    if p == [] then [] else FlattenNode(p[0]) + Flatten(p[1..])
  }

  function FlattenNode(n: Node): seq<Node> {
    if n.Group? then [Open] + Flatten(n.body) + [Close] else [n]
  }

  lemma {:induction false} FlattenAppend(p: seq<Node>, q: seq<Node>)
    ensures Flatten(p + q) == Flatten(p) + Flatten(q)
  {
    hide FlattenNode;
    if p == [] {
      assert p + q == q;
    } else {
      FlattenAppend(p[1..], q);
      assert (p + q)[1..] == p[1..] + q && (p + q)[0] == p[0];
    }
  }

  lemma FlattenSnoc(p: seq<Node>, n: Node)
    ensures Flatten(p + [n]) == Flatten(p) + FlattenNode(n)
  {
    FlattenAppend(p, [n]);
    assert [n][1..] == [];
    assert Flatten([n]) == FlattenNode(n) + Flatten([n][1..]);
  }

  lemma GroupSplice(before: seq<Node>, inner: seq<Node>, rest: seq<Node>, plan: seq<Node>)
    requires plan != [] && plan[0] == Open && inner + [Close] + rest == plan[1..]
    ensures before + ([Open] + inner + [Close]) + rest == before + plan
  {
    assert [Open] + (inner + [Close] + rest) == plan;
    assert before + ([Open] + inner + [Close]) + rest == before + ([Open] + (inner + [Close] + rest));
  }

  lemma {:induction false} CollectFlattens(plan: seq<Node>, body: seq<Node>)
    requires TokensOnly(plan) && IsGrouped(body) && Collect(plan, body).Ok?
    ensures var (b, rest) := Collect(plan, body).value;
            && b != [] && IsGrouped(b) && TokensOnly(rest)
            && Flatten(b) + [Close] + rest == Flatten(body) + plan
    decreases |plan|
  {
    if plan[0].Open? {
      CollectFlattens(plan[1..], []);
      var (inner, rest) := Collect(plan[1..], []).value;
      FlattenSnoc(body, Group(inner));
      CollectFlattens(rest, body + [Group(inner)]);
      GroupSplice(Flatten(body), Flatten(inner), rest, plan);
    } else if !plan[0].Close? {
      FlattenSnoc(body, plan[0]);
      CollectFlattens(plan[1..], body + [plan[0]]);
      assert Flatten(body) + [plan[0]] + plan[1..] == Flatten(body) + plan;
    } else {
      assert plan == [Close] + plan[1..];
    }
  }

  lemma {:induction false} ParenFlattens(plan: seq<Node>, done: seq<Node>)
    requires TokensOnly(plan) && IsGrouped(done) && ParenRest(plan, done).Ok?
    ensures var p := ParenRest(plan, done).value;
            IsGrouped(p) && Flatten(p) == Flatten(done) + plan
    decreases |plan|
  {
    if plan == [] {
    } else if plan[0].Open? {
      CollectFlattens(plan[1..], []);
      var (inner, rest) := Collect(plan[1..], []).value;
      FlattenSnoc(done, Group(inner));
      ParenFlattens(rest, done + [Group(inner)]);
      GroupSplice(Flatten(done), Flatten(inner), rest, plan);
    } else {
      FlattenSnoc(done, plan[0]);
      ParenFlattens(plan[1..], done + [plan[0]]);
      assert Flatten(done) + [plan[0]] + plan[1..] == Flatten(done) + plan;
    }
  }

  lemma {:induction false} FlattenGrouped(e: Expr)
    ensures Flatten(Grouped(e)) == Tokens(e)
    decreases e, 2
  {
    FlattenAllGrouped(e.fs);
    if e.Alt? {
      FlattenGrouped(e.rest);
      FlattenSnoc(AllGrouped(e.fs), OrTok);
      FlattenAppend(AllGrouped(e.fs) + [OrTok], Grouped(e.rest));
    }
  }

  lemma {:induction false} FlattenAllGrouped(fs: seq<Factor>)
    ensures Flatten(AllGrouped(fs)) == AllTokens(fs)
    decreases fs, 1
  {
    if fs != [] {
      FlattenFactorGrouped(fs[0]);
      FlattenAllGrouped(fs[1..]);
      FlattenAppend(FactorGrouped(fs[0]), AllGrouped(fs[1..]));
    }
  }

  lemma {:induction false} FlattenFactorGrouped(f: Factor)
    ensures Flatten(FactorGrouped(f)) == FactorTokens(f)
    decreases f, 0
  {
    match f
    case Leaf(id) => FlattenSnoc([], Prim(id)); assert [] + [Prim(id)] == [Prim(id)];
    case Paren(e) =>
      FlattenGrouped(e);
      FlattenSnoc([], Group(Grouped(e)));
      assert [] + [Group(Grouped(e))] == [Group(Grouped(e))];
    case Neg(g) =>
      FlattenFactorGrouped(g);
      FlattenAppend([NotTok], FactorGrouped(g));
      FlattenSnoc([], NotTok);
      assert [] + [NotTok] == [NotTok];
  }

  // ------------------------------------------------------------------------------------------
  // What the other passes accept comes from the grammar
  // ------------------------------------------------------------------------------------------

  lemma Concat3(a: seq<Node>, b: seq<Node>, r: Result<seq<Node>>)
    ensures r.Ok? ==> a + b + r.value == a + (b + r.value)
  {
  }

  lemma {:induction false} NotAccumulates(p: seq<Node>, done: seq<Node>)
    ensures NotRest(p, done) ==
            match NotRest(p, []) case Ok(n) => Ok(done + n) case Err(e) => Err(e)
    decreases |p|
  {
    if p == [] {
      assert done + [] == done;
    } else if p[0].Group? {
      var body := NotRest(p[0].body, []);
      if body.Ok? {
        var g := Group(body.value);
        assert NotRest(p, done) == NotRest(p[1..], done + [g]);
        assert NotRest(p, []) == NotRest(p[1..], [] + [g]);
        NotAccumulates(p[1..], done + [g]);
        NotAccumulates(p[1..], [g]);
        assert [] + [g] == [g];
        Concat3(done, [g], NotRest(p[1..], []));
      }
    } else if IsNot(p[0]) {
      var k := NotRun(p);
      if k < |p| && !IsOr(p[k]) {
        var n := if k % 2 == 1 then Not([p[k]]) else p[k];
        NotAccumulates(p[k + 1..], done + [n]);
        NotAccumulates(p[k + 1..], [n]);
        assert [] + [n] == [n];
        Concat3(done, [n], NotRest(p[k + 1..], []));
      }
    } else {
      NotAccumulates(p[1..], done + [p[0]]);
      NotAccumulates(p[1..], [p[0]]);
      assert [] + [p[0]] == [p[0]];
      Concat3(done, [p[0]], NotRest(p[1..], []));
    }
  }

  predicate NoNot(p: seq<Node>) {
    forall i :: 0 <= i < |p| ==> NoNotNode(p[i])
  }

  predicate NoNotNode(n: Node) {
    !n.NotTok? && (n.Group? ==> NoNot(n.body))
  }

  /** or_squish cannot get past a `!` that not_squish left untouched. */
  lemma {:induction false} OrNeedsNots(p: seq<Node>, done: seq<Node>)
    requires IsGrouped(p) && OrRest(p, done).Ok?
    ensures NoNot(p)
    decreases p
  {
    if p != [] {
      assert IsGroupedNode(p[0]) && p[0] in p;
      if p[0].Group? {
        OrNeedsNots(p[0].body, []);
        OrNeedsNots(p[1..], done + [Group(OrRest(p[0].body, []).value)]);
      } else if p[0].OrTok? {
        OrNeedsNots(p[1..], []);
      } else {
        OrNeedsNots(p[1..], done + [p[0]]);
      }
    }
  }

  lemma {:induction false} NoNotUntouched(p: seq<Node>, done: seq<Node>)
    requires IsGrouped(p) && NoNot(p)
    ensures NotRest(p, done) == Ok(done + p)
    decreases p
  {
    if p == [] {
      assert done + p == done;
    } else {
      assert IsGroupedNode(p[0]) && NoNotNode(p[0]) && p[0] in p;
      if p[0].Group? {
        NoNotUntouched(p[0].body, []);
        assert [] + p[0].body == p[0].body;
        assert Group(p[0].body) == p[0];
        assert NotRest(p, done) == NotRest(p[1..], done + [Group(p[0].body)]);
      }
      NoNotUntouched(p[1..], done + [p[0]]);
      assert done + [p[0]] + p[1..] == done + p;
    }
  }

  lemma {:induction false} NoNotNoNeg(e: Expr)
    requires NoNot(Grouped(e))
    ensures !HasNeg(e)
    decreases e, 2
  {
    var g := Grouped(e);
    assert g[..|AllGrouped(e.fs)|] == AllGrouped(e.fs);
    AllNoNotNoNeg(e.fs);
    if e.Alt? {
      assert g[|AllGrouped(e.fs)| + 1..] == Grouped(e.rest);
      NoNotNoNeg(e.rest);
    }
  }

  lemma {:induction false} AllNoNotNoNeg(fs: seq<Factor>)
    requires NoNot(AllGrouped(fs))
    ensures !AllHasNeg(fs)
    decreases fs, 1
  {
    if fs != [] {
      var g := AllGrouped(fs);
      assert g[..|FactorGrouped(fs[0])|] == FactorGrouped(fs[0]);
      assert g[|FactorGrouped(fs[0])|..] == AllGrouped(fs[1..]);
      FactorNoNotNoNeg(fs[0]);
      AllNoNotNoNeg(fs[1..]);
    }
  }

  lemma {:induction false} FactorNoNotNoNeg(f: Factor)
    requires NoNot(FactorGrouped(f))
    ensures !FactorHasNeg(f)
    decreases f, 0
  {
    assert f.Leaf? || NoNotNode(FactorGrouped(f)[0]);
    if f.Paren? {
      NoNotNoNeg(f.e);
    }
  }

  lemma {:induction false} AllGroupedSnoc(fs: seq<Factor>, f: Factor)
    ensures AllGrouped(fs + [f]) == AllGrouped(fs) + FactorGrouped(f)
  {
    if fs == [] {
      assert fs + [f] == [f] && [f][1..] == [];
      assert AllGrouped([f]) == FactorGrouped(f) + AllGrouped([f][1..]);
    } else {
      assert (fs + [f])[1..] == fs[1..] + [f];
      AllGroupedSnoc(fs[1..], f);
    }
  }

  lemma {:induction false} AllUnsquishedSnoc(fs: seq<Factor>, f: Factor)
    requires !AllUnsquished(fs) && !FactorUnsquished(f, false)
    ensures !AllUnsquished(fs + [f])
  {
    if fs == [] {
      assert fs + [f] == [f] && [f][1..] == [];
    } else {
      assert (fs + [f])[1..] == fs[1..] + [f];
      AllUnsquishedSnoc(fs[1..], f);
    }
  }

  /** `k` negations of a base factor. */
  function Wrap(k: nat, f: Factor): (r: Factor)
    ensures WellFormedFactor(f) ==> WellFormedFactor(r)
  {
    if k == 0 then f else Neg(Wrap(k - 1, f))
  }

  lemma {:induction false} WrapFacts(k: nat, f: Factor)
    requires !f.Neg?
    ensures FactorUnsquished(Wrap(k, f), true) == FactorUnsquished(f, true)
    ensures 0 < k ==> FactorUnsquished(Wrap(k, f), false) == FactorUnsquished(f, true)
    ensures |FactorGrouped(Wrap(k, f))| == k + 1 && FactorGrouped(Wrap(k, f))[k..] == FactorGrouped(f)
    ensures forall i :: 0 <= i < k ==> FactorGrouped(Wrap(k, f))[i] == NotTok
  {
    if k != 0 {
      WrapFacts(k - 1, f);
    }
  }

  /** What not_squish makes of the first operand of a list. */
  function NotHead(p: seq<Node>): Node
    requires NotRun(p) < |p|
    requires NotRun(p) == 0 && p[0].Group? ==> NotRest(p[0].body, []).Ok?
  {
    var k := NotRun(p);
    if k == 0 && p[0].Group? then Group(NotRest(p[0].body, []).value) else Negated(k, p[k])
  }

  lemma NotStepsOverRun(p: seq<Node>)
    requires p != [] && IsNot(p[0]) && NotRest(p, []).Ok?
    ensures var k := NotRun(p); k < |p| && !IsOr(p[k]) && NotRest(p, []) == NotRest(p[k + 1..], [Negated(k, p[k])])
  {
    hide NotRun;
    var k := NotRun(p);
    if k < |p| {
      assert [] + [Negated(k, p[k])] == [Negated(k, p[k])];
    }
  }

  lemma NotStepsOverOne(p: seq<Node>)
    requires p != [] && !IsNot(p[0]) && NotRest(p, []).Ok?
    ensures NotRun(p) == 0
    ensures p[0].Group? ==> NotRest(p[0].body, []).Ok?
    ensures NotRest(p, []) == NotRest(p[1..], [NotHead(p)])
  {
    assert [] + [NotHead(p)] == [NotHead(p)];
  }

  lemma NotPeels(p: seq<Node>)
    requires IsGrouped(p) && p != [] && !p[0].OrTok? && NotRest(p, []).Ok?
    ensures var k := NotRun(p);
            && k < |p| && (p[k].Prim? || p[k].Group?)
            && (k == 0 && p[0].Group? ==> NotRest(p[0].body, []).Ok?)
            && NotRest(p[k + 1..], []).Ok?
            && NotRest(p, []) == Ok([NotHead(p)] + NotRest(p[k + 1..], []).value)
  {
    hide NotRest;
    if IsNot(p[0]) {
      NotStepsOverRun(p);
      hide NotRun;
    } else {
      NotStepsOverOne(p);
      hide NotRun;
    }
    var k := NotRun(p);
    assert IsGroupedNode(p[k]);
    NotAccumulates(p[k + 1..], [NotHead(p)]);
  }

  /** What or_squish makes of one operand. */
  function OrHead(item: Node): Node
    requires item.Group? ==> OrRest(item.body, []).Ok?
    requires item.Not? ==> OrRest(item.arg, []).Ok?
  {
    match item
    case Group(body) => Group(OrRest(body, []).value)
    case Not(arg) => Not(OrRest(arg, []).value)
    case _ => item
  }

  lemma OrPeels(item: Node, m: seq<Node>, done: seq<Node>)
    requires item.Prim? || item.Group? || item.Not?
    requires OrRest([item] + m, done).Ok?
    ensures item.Group? ==> OrRest(item.body, []).Ok?
    ensures item.Not? ==> OrRest(item.arg, []).Ok?
    ensures OrRest([item] + m, done) == OrRest(m, done + [OrHead(item)])
  {
    assert ([item] + m)[1..] == m;
  }

  lemma OrSplits(p: seq<Node>, done: seq<Node>)
    requires p != [] && p[0].OrTok? && NotRest(p, []).Ok? && OrRest(NotRest(p, []).value, done).Ok?
    ensures done != [] && p[1..] != []
    ensures NotRest(p[1..], []).Ok? && OrRest(NotRest(p[1..], []).value, []).Ok?
  {
    NotAccumulates(p[1..], [OrTok]);
    assert [] + [OrTok] == [OrTok];
    var n := NotRest(p, []).value;
    assert n[1..] == NotRest(p[1..], []).value;
  }

  /** Rebuilds the expression from the grouped list, one operand at a time: `fs` are the operands
    * read since the last `-o`, and `done` is what or_squish has collected for them. */
  lemma {:induction false} Rebuild(p: seq<Node>, fs: seq<Factor>, done: seq<Node>) returns (e: Expr)
    requires IsGrouped(p) && NotRest(p, []).Ok? && OrRest(NotRest(p, []).value, done).Ok?
    requires (done == [] <==> fs == []) && (p != [] || fs != [])
    requires (forall i :: 0 <= i < |fs| ==> WellFormedFactor(fs[i])) && !AllUnsquished(fs)
    ensures WellFormed(e) && !Unsquished(e) && Grouped(e) == AllGrouped(fs) + p
    decreases p, 1
  {
    hide NotRest, OrRest, AllUnsquished, AllGrouped, FactorGrouped;
    if p == [] {
      e := Conj(fs);
      assert AllGrouped(fs) + p == AllGrouped(fs);
    } else if p[0].OrTok? {
      OrSplits(p, done);
      NothingUnsquished();
      var rest := Rebuild(p[1..], [], []);
      e := Alt(fs, rest);
      assert AllGrouped(fs) + [OrTok] + Grouped(rest) == AllGrouped(fs) + p;
    } else {
      NotPeels(p);
      var k := NotRun(p);
      var item, m := NotHead(p), NotRest(p[k + 1..], []).value;
      OrPeels(item, m, done);
      var f := RebuildOperand(p);
      AllGroupedSnoc(fs, f);
      AllUnsquishedSnoc(fs, f);
      e := Rebuild(p[k + 1..], fs + [f], done + [OrHead(item)]);
      assert AllGrouped(fs) + FactorGrouped(f) + p[k + 1..] == AllGrouped(fs) + p;
    }
  }

  lemma NothingUnsquished()
    ensures !AllUnsquished([]) && AllGrouped([]) == []
  {
  }

  /** The factor of the first operand. */
  lemma {:induction false} RebuildOperand(p: seq<Node>) returns (f: Factor)
    requires IsGrouped(p)
    requires var k := NotRun(p);
             && k < |p| && (p[k].Prim? || p[k].Group?)
             && (k == 0 && p[0].Group? ==> NotRest(p[0].body, []).Ok?)
             && (NotHead(p).Group? ==> OrRest(NotHead(p).body, []).Ok?)
             && (NotHead(p).Not? ==> OrRest(NotHead(p).arg, []).Ok?)
    ensures WellFormedFactor(f) && !FactorUnsquished(f, false)
    ensures FactorGrouped(f) == p[..NotRun(p) + 1]
    decreases p, 0
  {
    var k := NotRun(p);
    var base := p[k];
    assert base in p && IsGroupedNode(base);
    if base.Group? && k % 2 == 1 {
      OrUnwraps(base);
    }
    f := RebuildBase(base, k > 0);
    WrapFacts(k, f);
    f := Wrap(k, f);
    assert forall i :: 0 <= i < k ==> IsGroupedNode(p[i]) && IsNot(p[i]);
    assert FactorGrouped(f) == FactorGrouped(f)[..k] + FactorGrouped(f)[k..];
    assert p[..k + 1] == p[..k] + [base];
  }

  lemma OrUnwraps(g: Node)
    requires g.Group? && OrRest([g], []).Ok?
    ensures OrRest(g.body, []).Ok?
  {
  }

  lemma {:induction false} RebuildBase(base: Node, negated: bool) returns (f: Factor)
    requires IsGroupedNode(base) && (base.Prim? || base.Group?)
    requires base.Group? && !negated ==>
               NotRest(base.body, []).Ok? && OrRest(NotRest(base.body, []).value, []).Ok?
    requires base.Group? && negated ==> OrRest(base.body, []).Ok?
    ensures WellFormedFactor(f) && !f.Neg? && !FactorUnsquished(f, negated)
    ensures FactorGrouped(f) == [base]
    decreases base, 0
  {
    if base.Prim? {
      return Leaf(base.id);
    }
    if negated {
      OrNeedsNots(base.body, []);
      NoNotUntouched(base.body, []);
      assert [] + base.body == base.body;
    }
    hide NotRest, OrRest;
    NothingUnsquished();
    var e := Rebuild(base.body, [], []);
    assert [] + base.body == base.body;
    f := Paren(e);
    if negated {
      NoNotNoNeg(e);
    }
  }

  // ------------------------------------------------------------------------------------------
  // Main results
  // ------------------------------------------------------------------------------------------

  ghost predicate Grammatical(ts: seq<Node>) {
    exists e :: WellFormed(e) && Tokens(e) == ts
  }

  lemma CompilesTo(e: Expr)
    requires WellFormed(e) && !NotInNegatedGroup(Tokens(e), false, 0)
    ensures Compile(Tokens(e)) == Ok(Compiled(e))
  {
    ScanOutside(e, []);
    assert Tokens(e) + [] == Tokens(e);
    ParenExpr(e, []);
    NotExpr(e, []);
    assert [] + Grouped(e) == Grouped(e) && [] + Notted(e) == Notted(e);
    OrExpr(e);
  }

  lemma Decompile(ts: seq<Node>) returns (e: Expr)
    requires TokensOnly(ts) && ts != [] && Compile(ts).Ok?
    ensures WellFormed(e) && Tokens(e) == ts && !NotInNegatedGroup(ts, false, 0)
  {
    ParenFlattens(ts, []);
    var p := ParenRest(ts, []).value;
    assert [] + ts == ts;
    e := Rebuild(p, [], []);
    assert AllGrouped([]) + p == p;
    FlattenGrouped(e);
    ScanOutside(e, []);
    assert Tokens(e) + [] == Tokens(e);
  }

  /** The compiler accepts a nonempty list exactly when it is in the grammar and has no `!`
    * inside a group that is itself negated. */
  lemma AcceptsExactly(ts: seq<Node>)
    requires TokensOnly(ts) && ts != []
    ensures Compile(ts).Ok? <==> Grammatical(ts) && !NotInNegatedGroup(ts, false, 0)
  {
    if Compile(ts).Ok? {
      var e := Decompile(ts);
    }
    if Grammatical(ts) && !NotInNegatedGroup(ts, false, 0) {
      var e :| WellFormed(e) && Tokens(e) == ts;
      CompilesTo(e);
    }
  }

  /** Whenever the compiler accepts the tokens of an expression, running the plan gives the truth
    * value of the expression and runs the same primaries in the same order. */
  lemma CompilePreservesMeaning(e: Expr, oracle: Oracle, log: seq<nat>)
    requires WellFormed(e) && Compile(Tokens(e)).Ok?
    ensures EvalList(Compile(Tokens(e)).value, oracle, log) == Meaning(e, oracle, log)
  {
    TokensAreTokens(e);
    assert Tokens(e) != [] by { CollectExpr(e, [], []); assert Tokens(e) + [] == Tokens(e); FlattenGrouped(e); }
    var e' := Decompile(Tokens(e));
    CompilesTo(e);
    EvalExpr(e, oracle, log);
  }

  lemma {:induction false} TokensAreTokens(e: Expr)
    ensures TokensOnly(Tokens(e))
    decreases e, 2
  {
    AllTokensAreTokens(e.fs);
    if e.Alt? {
      TokensAreTokens(e.rest);
    }
  }

  lemma {:induction false} AllTokensAreTokens(fs: seq<Factor>)
    ensures TokensOnly(AllTokens(fs))
    decreases fs, 1
  {
    if fs != [] {
      FactorTokensAreTokens(fs[0]);
      AllTokensAreTokens(fs[1..]);
    }
  }

  lemma {:induction false} FactorTokensAreTokens(f: Factor)
    ensures TokensOnly(FactorTokens(f))
    decreases f, 0
  {
    match f
    case Leaf(_) =>
    case Paren(e) => TokensAreTokens(e);
    case Neg(g) => FactorTokensAreTokens(g);
  }

  /** A plan an evaluator can run: no operator token, no parenthesis and no empty sublist. */
  predicate Clean(ps: seq<Node>) {
    ps != [] && forall i :: 0 <= i < |ps| ==> CleanNode(ps[i])
  }

  predicate CleanNode(n: Node) {
    match n
    case Prim(_) => true
    case Group(body) => Clean(body)
    case Not(arg) => Clean(arg)
    case Or(left, right) => Clean(left) && Clean(right)
    case _ => false
  }

  /** The primaries of a plan, in the order of the plan. */
  function Primaries(ps: seq<Node>): seq<nat>
    decreases ps, 0
  {
    if ps == [] then [] else
    assert ps[0] in ps;
    NodePrimaries(ps[0]) + Primaries(ps[1..])
  }

  function NodePrimaries(n: Node): seq<nat>
    decreases n, 0
  {
    match n
    case Prim(id) => [id]
    case Group(body) => Primaries(body)
    case Not(arg) => Primaries(arg)
    case Or(left, right) => Primaries(left) + Primaries(right)
    case _ => []
  }

  lemma {:induction false} PrimariesAppend(p: seq<Node>, q: seq<Node>)
    ensures Primaries(p + q) == Primaries(p) + Primaries(q)
    decreases |p|
  {
    hide NodePrimaries;
    if p == [] {
      assert p + q == q;
    } else {
      PrimariesAppend(p[1..], q);
      assert (p + q)[1..] == p[1..] + q && (p + q)[0] == p[0];
    }
  }

  lemma PrimariesSingle(n: Node)
    ensures Primaries([n]) == NodePrimaries(n)
  {
    assert [n][1..] == [];
  }

  lemma {:induction false} CompiledClean(e: Expr)
    requires WellFormed(e)
    ensures Clean(Compiled(e)) && Primaries(Compiled(e)) == Primaries(Tokens(e))
    decreases e, 2
  {
    AllCompiledClean(e.fs);
    if e.Alt? {
      CompiledClean(e.rest);
      PrimariesSingle(Compiled(e)[0]);
      PrimariesAppend(AllTokens(e.fs) + [OrTok], Tokens(e.rest));
      PrimariesAppend(AllTokens(e.fs), [OrTok]);
      PrimariesSingle(OrTok);
    }
  }

  lemma {:induction false} AllCompiledClean(fs: seq<Factor>)
    requires forall i :: 0 <= i < |fs| ==> WellFormedFactor(fs[i])
    ensures |AllCompiled(fs)| == |fs|
    ensures fs != [] ==> Clean(AllCompiled(fs))
    ensures Primaries(AllCompiled(fs)) == Primaries(AllTokens(fs))
    decreases fs, 1
  {
    if fs != [] {
      FactorCompiledClean(fs[0]);
      AllCompiledClean(fs[1..]);
      PrimariesAppend(FactorTokens(fs[0]), AllTokens(fs[1..]));
      assert AllCompiled(fs)[1..] == AllCompiled(fs[1..]);
      assert forall i :: 1 <= i < |fs| ==> AllCompiled(fs)[i] == AllCompiled(fs[1..])[i - 1];
    }
  }

  lemma {:induction false} FactorCompiledClean(f: Factor)
    requires WellFormedFactor(f)
    ensures CleanNode(FactorCompiled(f)) && NodePrimaries(FactorCompiled(f)) == Primaries(FactorTokens(f))
    decreases f, 0
  {
    match f
    case Leaf(id) => PrimariesSingle(Prim(id));
    case Paren(e) =>
      CompiledClean(e);
      PrimariesSingle(Open);
      PrimariesSingle(Close);
      PrimariesAppend([Open] + Tokens(e), [Close]);
      PrimariesAppend([Open], Tokens(e));
    case Neg(g) =>
      FactorCompiledClean(g);
      PrimariesSingle(NotTok);
      PrimariesAppend([NotTok], FactorTokens(g));
      var b := FactorCompiled(Base(f));
      assert FactorCompiled(f) == Negated(Negs(f), b) && FactorCompiled(g) == Negated(Negs(g), b);
      PrimariesSingle(b);
      assert Clean([b]) <==> CleanNode(b);
  }

  /** Every accepted plan can be run, and holds each primary once, in its original place. */
  lemma CompiledPlanIsClean(ts: seq<Node>)
    requires TokensOnly(ts) && ts != [] && Compile(ts).Ok?
    ensures Clean(Compile(ts).value) && Primaries(Compile(ts).value) == Primaries(ts)
  {
    var e := Decompile(ts);
    CompilesTo(e);
    CompiledClean(e);
  }

  /** The default print joins the last alternative: it does not run when an earlier one holds. */
  function WithPrint(e: Expr): Expr {
    match e
    case Conj(fs) => Conj(fs + [Leaf(PRINT)])
    case Alt(fs, rest) => Alt(fs, WithPrint(rest))
  }

  lemma {:induction false} DefaultPrintJoinsLast(e: Expr)
    requires WellFormed(e)
    ensures WellFormed(WithPrint(e))
    ensures Tokens(WithPrint(e)) == Tokens(e) + [Prim(PRINT)]
  {
    match e
    case Conj(fs) => AllTokensSnoc(fs, Leaf(PRINT));
    case Alt(fs, rest) => DefaultPrintJoinsLast(rest);
  }

  lemma {:induction false} AllTokensSnoc(fs: seq<Factor>, f: Factor)
    ensures AllTokens(fs + [f]) == AllTokens(fs) + FactorTokens(f)
  {
    if fs == [] {
      assert fs + [f] == [f] && [f][1..] == [];
      assert AllTokens([f]) == FactorTokens(f) + AllTokens([f][1..]);
    } else {
      assert (fs + [f])[1..] == fs[1..] + [f];
      AllTokensSnoc(fs[1..], f);
    }
  }

  // ------------------------------------------------------------------------------------------
  // From the arguments to the meaning
  // ------------------------------------------------------------------------------------------

  /** The nodes of the arguments before the last one. */
  lemma NodesBefore(args: seq<Arg>, from: seq<nat>, plan: seq<Node>)
    requires NodesOf(args, from, plan) && args != []
    ensures |plan| == |from|
    ensures var n := |args| - 1;
            if args[n].And? then NodesOf(args[..n], from, plan)
            else from != [] && from[|from| - 1] == n
                 && plan[|plan| - 1] == (if args[n].Output? then Prim(args[n].id) else args[n].node)
                 && NodesOf(args[..n], from[..|from| - 1], plan[..|plan| - 1])
  {
    var n := |args| - 1;
    if !args[n].And? {
      assert n in from;
      var last := from[..|from| - 1];
      assert from == last + [from[|from| - 1]];
      forall i | 0 <= i < n
        ensures i in last <==> !args[..n][i].And?
      {
        assert args[..n][i] == args[i];
        assert i in last <==> i in from;
      }
    } else {
      assert n !in from;
      forall k | 0 <= k < |from|
        ensures from[k] < n
      {
        assert from[k] in from;
      }
      forall i | 0 <= i < n
        ensures i in from <==> !args[..n][i].And?
      {
        assert args[..n][i] == args[i];
      }
    }
  }

  lemma NodeHasArg(args: seq<Arg>, from: seq<nat>, plan: seq<Node>, k: nat)
    requires NodesOf(args, from, plan) && k < |from|
    ensures from[k] < |args|
  {
  }

  lemma NoNodes(from: seq<nat>, plan: seq<Node>)
    requires NodesOf([], from, plan)
    ensures from == [] && plan == []
  {
    assert |plan| == |from|;
    hide NodesOf;
    if from != [] {
      NodeHasArg([], from, plan, 0);
    }
  }

  lemma SameSeq<T>(s: seq<T>, t: seq<T>)
    requires 0 < |s| && 0 < |t| && s[..|s| - 1] == t[..|t| - 1] && s[|s| - 1] == t[|t| - 1]
    ensures s == t
  {
    assert s == s[..|s| - 1] + [s[|s| - 1]] && t == t[..|t| - 1] + [t[|t| - 1]];
  }

  /** The arguments determine their nodes. */
  lemma {:induction false} NodesUnique(args: seq<Arg>, from: seq<nat>, plan: seq<Node>, from': seq<nat>,
                                       plan': seq<Node>)
    requires NodesOf(args, from, plan) && NodesOf(args, from', plan')
    ensures from == from' && plan == plan'
    decreases |args|
  {
    if args == [] {
      NoNodes(from, plan);
      NoNodes(from', plan');
    } else {
      NodesBefore(args, from, plan);
      NodesBefore(args, from', plan');
      hide NodesOf;
      var n := |args| - 1;
      if args[n].And? {
        NodesUnique(args[..n], from, plan, from', plan');
      } else {
        NodesUnique(args[..n], from[..|from| - 1], plan[..|plan| - 1], from'[..|from'| - 1], plan'[..|plan'| - 1]);
        SameSeq(from, from');
        SameSeq(plan, plan');
      }
    }
  }

  /** The plan of an expression, with the default print or without it. */
  lemma MeaningOfPlan(e: Expr, isoutput: bool, oracle: Oracle, log: seq<nat>)
    requires WellFormed(e)
    ensures var whole := if isoutput then e else WithPrint(e);
            var plan := Compile(Tokens(e) + if isoutput then [] else [Prim(PRINT)]);
            && (plan.Ok? <==> !NotInNegatedGroup(Tokens(whole), false, 0))
            && (plan.Ok? ==> EvalList(plan.value, oracle, log) == Meaning(whole, oracle, log))
  {
    DefaultPrintJoinsLast(e);
    var whole := if isoutput then e else WithPrint(e);
    var ts := Tokens(e) + if isoutput then [] else [Prim(PRINT)];
    assert ts == Tokens(whole);
    TokensAreTokens(whole);
    TokensNotEmpty(whole);
    AcceptsExactly(ts);
    hide *;
    if Compile(ts).Ok? {
      CompilePreservesMeaning(whole, oracle, log);
    }
    assert WellFormed(whole) && Tokens(whole) == ts;
  }

  lemma TokensNotEmpty(e: Expr)
    requires WellFormed(e)
    ensures Tokens(e) != []
  {
    CollectExpr(e, [], []);
    assert Tokens(e) + [] == Tokens(e);
    FlattenGrouped(e);
  }

  /** `ids` are the primaries among the arguments, those with the numbers `which`, in their order. */
  ghost predicate PrimariesOf(args: seq<Arg>, which: seq<nat>, ids: seq<nat>) {
    && |ids| == |which|
    && (forall j, k :: 0 <= j < k < |which| ==> which[j] < which[k])
    && (forall i :: 0 <= i < |args| ==>
          (i in which <==> args[i].Output? || (args[i].Plain? && args[i].node.Prim?)))
    && (forall k :: 0 <= k < |which| ==>
          && which[k] < |args|
          && (args[which[k]].Output? ==> ids[k] == args[which[k]].id)
          && (args[which[k]].Plain? && args[which[k]].node.Prim? ==> ids[k] == args[which[k]].node.id))
  }

  lemma OneMoreArg(args: seq<Arg>, which: seq<nat>, ids: seq<nat>, id: nat)
    requires args != [] && PrimariesOf(args[..|args| - 1], which, ids)
    ensures var last := args[|args| - 1];
            if last.Output? || (last.Plain? && last.node.Prim?) then
              id == (if last.Output? then last.id else last.node.id) ==>
                PrimariesOf(args, which + [|args| - 1], ids + [id])
            else PrimariesOf(args, which, ids)
  {
    var n := |args| - 1;
    var last := args[n];
    var more := which + if last.Output? || (last.Plain? && last.node.Prim?) then [n] else [];
    assert forall k :: 0 <= k < |which| ==> args[..n][which[k]] == args[which[k]];
    forall i | 0 <= i < |args|
      ensures i in more <==> args[i].Output? || (args[i].Plain? && args[i].node.Prim?)
    {
      if i < n {
        assert args[..n][i] == args[i];
        assert i in which <==> i in more;
      } else {
        assert i !in which;
        assert |more| > |which| ==> more[|which|] == n;
      }
    }
  }

  /** The nodes of the arguments keep their primaries. */
  lemma {:induction false} NodesKeepPrimaries(args: seq<Arg>, from: seq<nat>, nodes: seq<Node>)
      returns (which: seq<nat>)
    requires NodesOf(args, from, nodes) && TokensOnly(nodes)
    ensures PrimariesOf(args, which, Primaries(nodes))
    decreases |args|
  {
    if args == [] {
      which := [];
      NoNodes(from, nodes);
    } else {
      NodesBefore(args, from, nodes);
      hide NodesOf;
      var n := |args| - 1;
      if args[n].And? {
        which := NodesKeepPrimaries(args[..n], from, nodes);
        OneMoreArg(args, which, Primaries(nodes), 0);
      } else {
        var front, node := nodes[..|nodes| - 1], nodes[|nodes| - 1];
        which := NodesKeepPrimaries(args[..n], from[..|from| - 1], front);
        assert nodes == front + [node];
        PrimariesAppend(front, [node]);
        PrimariesSingle(node);
        hide PrimariesOf;
        OneMoreArg(args, which, Primaries(front), if node.Prim? then node.id else 0);
        which := which + if node.Prim? then [n] else [];
        assert Primaries(front) + [] == Primaries(front);
      }
    }
  }

  lemma PlanKeepsPrimaries(nodes: seq<Node>, more: seq<Node>)
    requires TokensOnly(nodes) && nodes + more != [] && Compile(nodes + more).Ok?
    requires more == [] || more == [Prim(PRINT)]
    ensures Primaries(Compile(nodes + more).value) == Primaries(nodes) + if more == [] then [] else [PRINT]
  {
    CompiledPlanIsClean(nodes + more);
    hide Compile;
    PrimariesAppend(nodes, more);
    if more != [] {
      PrimariesSingle(Prim(PRINT));
    }
  }

  lemma SomethingToRun(args: seq<Arg>, from: seq<nat>, nodes: seq<Node>, isoutput: bool)
    requires NodesOf(args, from, nodes) && (isoutput <==> exists i :: 0 <= i < |args| && args[i].Output?)
    requires forall i :: 0 <= i < |args| && args[i].Plain? ==> IsToken(args[i].node)
    ensures TokensOnly(nodes) && (isoutput ==> nodes != [])
  {
    if isoutput {
      var i :| 0 <= i < |args| && args[i].Output?;
      assert i in from;
    }
    forall k | 0 <= k < |nodes|
      ensures IsToken(nodes[k])
    {
      assert from[k] in from;
    }
  }

  /** The arguments become a plan, and the plan is run.  If the arguments, `-a` left out, write an
    * expression, what runs is this expression when one of them makes output, wherever it stands, and
    * else the expression with a print in its last alternative. */
  method FormAndRun(args: seq<Arg>, oracle: Oracle, log: seq<nat>)
      returns (formed: Result<seq<Node>>, state: bool, ran: seq<nat>, ghost which: seq<nat>, ghost ids: seq<nat>)
    ensures forall e: Expr, from: seq<nat> :: WellFormed(e) && NodesOf(args, from, Tokens(e)) ==>
              (var whole := if exists i :: 0 <= i < |args| && args[i].Output? then e else WithPrint(e);
               && (formed.Ok? <==> !NotInNegatedGroup(Tokens(whole), false, 0))
               && (formed.Ok? ==> (state, ran) == Meaning(whole, oracle, log)))
    ensures formed.Ok? && (forall i :: 0 <= i < |args| && args[i].Plain? ==> IsToken(args[i].node)) ==>
              && PrimariesOf(args, which, ids)
              && Primaries(formed.value) ==
                 ids + if exists i :: 0 <= i < |args| && args[i].Output? then [] else [0]
  {
    ghost var made, nodes;
    formed, made, nodes := FormPlan(args);
    state, ran, which, ids := false, log, [], [];
    if formed.Ok? {
      state, ran := FindExpr(formed.value, oracle, log);
    }
    ghost var isoutput := exists i :: 0 <= i < |args| && args[i].Output?;
    hide Compile, EvalList, Meaning, NotInNegatedGroup, Tokens, WellFormed, Primaries, PrimariesOf;
    if formed.Ok? && forall i :: 0 <= i < |args| && args[i].Plain? ==> IsToken(args[i].node) {
      SomethingToRun(args, made, nodes, isoutput);
      which := NodesKeepPrimaries(args, made, nodes);
      ids := Primaries(nodes);
      PlanKeepsPrimaries(nodes, if isoutput then [] else [Prim(PRINT)]);
    }
    hide NodesOf;
    forall e: Expr, from: seq<nat> | WellFormed(e) && NodesOf(args, from, Tokens(e))
      ensures var whole := if isoutput then e else WithPrint(e);
              && (formed.Ok? <==> !NotInNegatedGroup(Tokens(whole), false, 0))
              && (formed.Ok? ==> (state, ran) == Meaning(whole, oracle, log))
    {
      NodesUnique(args, from, Tokens(e), made, nodes);
      MeaningOfPlan(e, isoutput, oracle, log);
    }
  }
}
