/** The grammar of `find` expressions, and the proof that the three passes compile it. */
module FindGrammar {
  import opened FindPlan

  /** `!` binds tightest, then juxtaposition, then `-o`. */
  datatype Expr = Conj(fs: seq<Factor>) | Alt(fs: seq<Factor>, rest: Expr)

  datatype Factor = Leaf(id: nat) | Paren(e: Expr) | Neg(f: Factor)

  predicate WellFormed(e: Expr) {
    && e.fs != []
    && (forall i :: 0 <= i < |e.fs| ==> WellFormedFactor(e.fs[i]))
    && (e.Alt? ==> WellFormed(e.rest))
  }

  predicate WellFormedFactor(f: Factor) {
    match f
    case Leaf(_) => true
    case Paren(e) => WellFormed(e)
    case Neg(g) => WellFormedFactor(g)
  }

  function Tokens(e: Expr): seq<Node> {
    match e
    case Conj(fs) => AllTokens(fs)
    case Alt(fs, rest) => AllTokens(fs) + [OrTok] + Tokens(rest)
  }

  function AllTokens(fs: seq<Factor>): seq<Node> {
    if fs == [] then [] else FactorTokens(fs[0]) + AllTokens(fs[1..])
  }

  function FactorTokens(f: Factor): seq<Node> {
    match f
    case Leaf(id) => [Prim(id)]
    case Paren(e) => [Open] + Tokens(e) + [Close]
    case Neg(g) => [NotTok] + FactorTokens(g)
  }

  /** Short-circuit evaluation: the truth value, and the primaries that ran. */
  function Meaning(e: Expr, oracle: Oracle, log: seq<nat>): (bool, seq<nat>) {
    var (v, l) := AllMeaning(e.fs, oracle, log);
    if e.Conj? || v then (v, l) else Meaning(e.rest, oracle, l)
  }

  function AllMeaning(fs: seq<Factor>, oracle: Oracle, log: seq<nat>): (bool, seq<nat>) {
    if fs == [] then (true, log)
    else
      var (v, l) := FactorMeaning(fs[0], oracle, log);
      if v then AllMeaning(fs[1..], oracle, l) else (false, l)
  }

  function FactorMeaning(f: Factor, oracle: Oracle, log: seq<nat>): (bool, seq<nat>) {
    match f
    case Leaf(id) => (oracle(id, log), log + [id])
    case Paren(e) => Meaning(e, oracle, log)
    case Neg(g) =>
      var (v, l) := FactorMeaning(g, oracle, log);
      (!v, l)
  }

  // ------------------------------------------------------------------------------------------
  // What not_squish leaves undone: `!` inside a group that is itself negated
  // ------------------------------------------------------------------------------------------

  /** A check on the tokens alone: is there a `!` inside a parenthesis opened right after a `!`?
    * `depth` counts the parentheses open since such a one. */
  predicate NotInNegatedGroup(tokens: seq<Node>, afterNot: bool, depth: nat) {
    tokens != [] &&
    if depth == 0 then
      NotInNegatedGroup(tokens[1..], tokens[0].NotTok?, if tokens[0].Open? && afterNot then 1 else 0)
    else
      tokens[0].NotTok? ||
      NotInNegatedGroup(tokens[1..], false,
                        if tokens[0].Open? then depth + 1 else if tokens[0].Close? then depth - 1 else depth)
  }

  predicate HasNeg(e: Expr) {
    AllHasNeg(e.fs) || (e.Alt? && HasNeg(e.rest))
  }

  predicate AllHasNeg(fs: seq<Factor>) {
    fs != [] && (FactorHasNeg(fs[0]) || AllHasNeg(fs[1..]))
  }

  predicate FactorHasNeg(f: Factor) {
    f.Neg? || (f.Paren? && HasNeg(f.e))
  }

  predicate Unsquished(e: Expr) {
    AllUnsquished(e.fs) || (e.Alt? && Unsquished(e.rest))
  }

  predicate AllUnsquished(fs: seq<Factor>) {
    fs != [] && (FactorUnsquished(fs[0], false) || AllUnsquished(fs[1..]))
  }

  predicate FactorUnsquished(f: Factor, afterNot: bool) {
    match f
    case Leaf(_) => false
    case Paren(e) => if afterNot then HasNeg(e) else Unsquished(e)
    case Neg(g) => FactorUnsquished(g, true)
  }

  /** Inside a negated group the token scan finds exactly the negations of the tree. */
  lemma {:induction false} ScanInside(e: Expr, rest: seq<Node>, depth: nat)
    requires 0 < depth
    ensures NotInNegatedGroup(Tokens(e) + rest, false, depth)
       <==> HasNeg(e) || NotInNegatedGroup(rest, false, depth)
    decreases e, 2
  {
    match e
    case Conj(fs) => ScanAllInside(fs, rest, depth);
    case Alt(fs, e') =>
      assert Tokens(e) + rest == AllTokens(fs) + ([OrTok] + (Tokens(e') + rest));
      ScanAllInside(fs, [OrTok] + (Tokens(e') + rest), depth);
      ScanInside(e', rest, depth);
      assert ([OrTok] + (Tokens(e') + rest))[1..] == Tokens(e') + rest;
  }

  lemma {:induction false} ScanAllInside(fs: seq<Factor>, rest: seq<Node>, depth: nat)
    requires 0 < depth
    ensures NotInNegatedGroup(AllTokens(fs) + rest, false, depth)
       <==> AllHasNeg(fs) || NotInNegatedGroup(rest, false, depth)
    decreases fs, 1
  {
    if fs == [] {
      assert AllTokens(fs) + rest == rest;
    } else {
      assert AllTokens(fs) + rest == FactorTokens(fs[0]) + (AllTokens(fs[1..]) + rest);
      ScanFactorInside(fs[0], AllTokens(fs[1..]) + rest, depth);
      ScanAllInside(fs[1..], rest, depth);
    }
  }

  lemma {:induction false} ScanFactorInside(f: Factor, rest: seq<Node>, depth: nat)
    requires 0 < depth
    ensures NotInNegatedGroup(FactorTokens(f) + rest, false, depth)
       <==> FactorHasNeg(f) || NotInNegatedGroup(rest, false, depth)
    decreases f, 0
  {
    var ts := FactorTokens(f) + rest;
    match f
    case Leaf(_) => assert ts[1..] == rest;
    case Neg(_) =>
    case Paren(e) =>
      assert ts[1..] == Tokens(e) + ([Close] + rest);
      ScanInside(e, [Close] + rest, depth + 1);
      assert ([Close] + rest)[1..] == rest;
  }

  /** The token scan finds exactly the negations that not_squish will not reach. */
  lemma {:induction false} ScanOutside(e: Expr, rest: seq<Node>)
    requires WellFormed(e)
    ensures NotInNegatedGroup(Tokens(e) + rest, false, 0)
       <==> Unsquished(e) || NotInNegatedGroup(rest, false, 0)
    decreases e, 2
  {
    match e
    case Conj(fs) => ScanAllOutside(fs, rest);
    case Alt(fs, e') =>
      assert Tokens(e) + rest == AllTokens(fs) + ([OrTok] + (Tokens(e') + rest));
      ScanAllOutside(fs, [OrTok] + (Tokens(e') + rest));
      ScanOutside(e', rest);
      assert ([OrTok] + (Tokens(e') + rest))[1..] == Tokens(e') + rest;
  }

  lemma {:induction false} ScanAllOutside(fs: seq<Factor>, rest: seq<Node>)
    requires forall i :: 0 <= i < |fs| ==> WellFormedFactor(fs[i])
    ensures NotInNegatedGroup(AllTokens(fs) + rest, false, 0)
       <==> AllUnsquished(fs) || NotInNegatedGroup(rest, false, 0)
    decreases fs, 1
  {
    if fs == [] {
      assert AllTokens(fs) + rest == rest;
    } else {
      assert AllTokens(fs) + rest == FactorTokens(fs[0]) + (AllTokens(fs[1..]) + rest);
      ScanFactorOutside(fs[0], AllTokens(fs[1..]) + rest, false);
      ScanAllOutside(fs[1..], rest);
    }
  }

  lemma {:induction false} ScanFactorOutside(f: Factor, rest: seq<Node>, afterNot: bool)
    requires WellFormedFactor(f)
    ensures NotInNegatedGroup(FactorTokens(f) + rest, afterNot, 0)
       <==> FactorUnsquished(f, afterNot) || NotInNegatedGroup(rest, false, 0)
    decreases f, 0
  {
    var ts := FactorTokens(f) + rest;
    match f
    case Leaf(_) => assert ts[1..] == rest;
    case Neg(g) =>
      assert ts[1..] == FactorTokens(g) + rest;
      ScanFactorOutside(g, rest, true);
    case Paren(e) =>
      assert ts[1..] == Tokens(e) + ([Close] + rest);
      assert ([Close] + rest)[1..] == rest;
      if afterNot {
        ScanInside(e, [Close] + rest, 1);
      } else {
        ScanOutside(e, [Close] + rest);
      }
  }

  // ------------------------------------------------------------------------------------------
  // What each pass makes of a grammatical list
  // ------------------------------------------------------------------------------------------

  function Grouped(e: Expr): seq<Node> {
    match e
    case Conj(fs) => AllGrouped(fs)
    case Alt(fs, rest) => AllGrouped(fs) + [OrTok] + Grouped(rest)
  }

  function AllGrouped(fs: seq<Factor>): seq<Node> {
    if fs == [] then [] else FactorGrouped(fs[0]) + AllGrouped(fs[1..])
  }

  function FactorGrouped(f: Factor): seq<Node> {
    match f
    case Leaf(id) => [Prim(id)]
    case Paren(e) => [Group(Grouped(e))]
    case Neg(g) => [NotTok] + FactorGrouped(g)
  }

  lemma {:induction false} CollectExpr(e: Expr, rest: seq<Node>, body: seq<Node>)
    requires WellFormed(e)
    ensures Collect(Tokens(e) + rest, body) == Collect(rest, body + Grouped(e))
    ensures Grouped(e) != []
    decreases e, 2
  {
    match e
    case Conj(fs) => CollectAll(fs, rest, body);
    case Alt(fs, e') =>
      var tail := [OrTok] + (Tokens(e') + rest);
      assert Tokens(e) + rest == AllTokens(fs) + tail;
      CollectAll(fs, tail, body);
      assert tail[1..] == Tokens(e') + rest;
      var body' := body + AllGrouped(fs) + [OrTok];
      CollectExpr(e', rest, body');
      assert body' + Grouped(e') == body + Grouped(e);
  }

  lemma {:induction false} TokensFront(fs: seq<Factor>, rest: seq<Node>)
    requires fs != []
    ensures AllTokens(fs) + rest == FactorTokens(fs[0]) + (AllTokens(fs[1..]) + rest)
  {
    hide FactorTokens;
  }

  lemma {:induction false} GroupedFront(body: seq<Node>, fs: seq<Factor>)
    requires fs != []
    ensures body + FactorGrouped(fs[0]) + AllGrouped(fs[1..]) == body + AllGrouped(fs)
    ensures FactorGrouped(fs[0]) != [] ==> AllGrouped(fs) != []
  {
    hide FactorGrouped;
  }

  lemma {:induction false} CollectAll(fs: seq<Factor>, rest: seq<Node>, body: seq<Node>)
    requires forall i :: 0 <= i < |fs| ==> WellFormedFactor(fs[i])
    ensures Collect(AllTokens(fs) + rest, body) == Collect(rest, body + AllGrouped(fs))
    ensures fs != [] ==> AllGrouped(fs) != []
    decreases fs, 1
  {
    if fs == [] {
      assert AllTokens(fs) + rest == rest;
      assert body + AllGrouped(fs) == body;
    } else {
      TokensFront(fs, rest);
      GroupedFront(body, fs);
      hide *;
      CollectFactor(fs[0], AllTokens(fs[1..]) + rest, body);
      CollectAll(fs[1..], rest, body + FactorGrouped(fs[0]));
    }
  }

  lemma {:induction false} CollectFactor(f: Factor, rest: seq<Node>, body: seq<Node>)
    requires WellFormedFactor(f)
    ensures Collect(FactorTokens(f) + rest, body) == Collect(rest, body + FactorGrouped(f))
    ensures FactorGrouped(f) != []
    decreases f, 0
  {
    var ts := FactorTokens(f) + rest;
    match f
    case Leaf(_) => assert ts[1..] == rest;
    case Neg(g) =>
      assert ts[1..] == FactorTokens(g) + rest;
      CollectFactor(g, rest, body + [NotTok]);
      assert body + [NotTok] + FactorGrouped(g) == body + FactorGrouped(f);
    case Paren(e) =>
      CollectParen(e, rest);
      assert ts == [Open] + Tokens(e) + [Close] + rest;
  }

  lemma {:induction false} CollectParen(e: Expr, rest: seq<Node>)
    requires WellFormed(e)
    ensures Collect(([Open] + Tokens(e) + [Close] + rest)[1..], []) == Ok((Grouped(e), rest))
    decreases e, 3
  {
    var ts := [Open] + Tokens(e) + [Close] + rest;
    assert ts[1..] == Tokens(e) + ([Close] + rest);
    CollectExpr(e, [Close] + rest, []);
    assert [] + Grouped(e) == Grouped(e);
    assert ([Close] + rest)[1..] == rest;
  }

  lemma {:induction false} ParenExpr(e: Expr, done: seq<Node>)
    requires WellFormed(e)
    ensures ParenRest(Tokens(e), done) == Ok(done + Grouped(e))
    decreases e
  {
    match e
    case Conj(fs) =>
      ParenAll(fs, [], done);
      assert AllTokens(fs) + [] == AllTokens(fs);
    case Alt(fs, e') =>
      var tail := [OrTok] + Tokens(e');
      assert Tokens(e) == AllTokens(fs) + tail;
      ParenAll(fs, tail, done);
      assert tail[1..] == Tokens(e');
      var done' := done + AllGrouped(fs) + [OrTok];
      ParenExpr(e', done');
      assert done' + Grouped(e') == done + Grouped(e);
  }

  lemma {:induction false} ParenAll(fs: seq<Factor>, rest: seq<Node>, done: seq<Node>)
    requires forall i :: 0 <= i < |fs| ==> WellFormedFactor(fs[i])
    ensures ParenRest(AllTokens(fs) + rest, done) == ParenRest(rest, done + AllGrouped(fs))
    decreases fs, 1
  {
    if fs == [] {
      assert AllTokens(fs) + rest == rest;
      assert done + AllGrouped(fs) == done;
    } else {
      TokensFront(fs, rest);
      GroupedFront(done, fs);
      hide *;
      ParenFactor(fs[0], AllTokens(fs[1..]) + rest, done);
      ParenAll(fs[1..], rest, done + FactorGrouped(fs[0]));
    }
  }

  lemma {:induction false} ParenFactor(f: Factor, rest: seq<Node>, done: seq<Node>)
    requires WellFormedFactor(f)
    ensures ParenRest(FactorTokens(f) + rest, done) == ParenRest(rest, done + FactorGrouped(f))
    decreases f, 0
  {
    var ts := FactorTokens(f) + rest;
    match f
    case Leaf(_) => assert ts[1..] == rest;
    case Neg(g) =>
      assert ts[1..] == FactorTokens(g) + rest;
      ParenFactor(g, rest, done + [NotTok]);
      assert done + [NotTok] + FactorGrouped(g) == done + FactorGrouped(f);
    case Paren(e) =>
      CollectParen(e, rest);
      assert ts == [Open] + Tokens(e) + [Close] + rest;
  }

  /** The number of `!` in front of a factor, and the factor they stand before. */
  function Negs(f: Factor): nat {
    if f.Neg? then 1 + Negs(f.f) else 0
  }

  function Base(f: Factor): Factor
    ensures !Base(f).Neg? && (f.Neg? ==> Base(f) < f) && (!f.Neg? ==> Base(f) == f)
  {
    if f.Neg? then Base(f.f) else f
  }

  function Negated(k: nat, n: Node): Node {
    if k % 2 == 1 then Not([n]) else n
  }

  function Notted(e: Expr): seq<Node> {
    match e
    case Conj(fs) => AllNotted(fs)
    case Alt(fs, rest) => AllNotted(fs) + [OrTok] + Notted(rest)
  }

  function AllNotted(fs: seq<Factor>): seq<Node> {
    if fs == [] then [] else [FactorNotted(fs[0])] + AllNotted(fs[1..])
  }

  function FactorNotted(f: Factor): Node {
    match f
    case Leaf(id) => Prim(id)
    case Paren(e) => Group(Notted(e))
    case Neg(_) =>
      match Base(f)
      case Leaf(id) => Negated(Negs(f), Prim(id))
      case Paren(e) => Negated(Negs(f), Group(Grouped(e)))
  }

  lemma {:induction false} NegRun(f: Factor, rest: seq<Node>)
    ensures var ts := FactorGrouped(f) + rest;
            && NotRun(ts) == Negs(f) < |ts|
            && [ts[Negs(f)]] == FactorGrouped(Base(f))
            && ts[Negs(f) + 1..] == rest
  {
    if f.Neg? {
      NegRun(f.f, rest);
      assert (FactorGrouped(f) + rest)[1..] == FactorGrouped(f.f) + rest;
    }
  }

  lemma {:induction false} NotExpr(e: Expr, done: seq<Node>)
    ensures NotRest(Grouped(e), done) == Ok(done + Notted(e))
    decreases e, 2
  {
    match e
    case Conj(fs) =>
      NotAll(fs, [], done);
      assert AllGrouped(fs) + [] == AllGrouped(fs);
    case Alt(fs, e') =>
      var tail := [OrTok] + Grouped(e');
      assert Grouped(e) == AllGrouped(fs) + tail;
      NotAll(fs, tail, done);
      assert tail[1..] == Grouped(e');
      var done' := done + AllNotted(fs) + [OrTok];
      NotExpr(e', done');
      assert done' + Notted(e') == done + Notted(e);
  }

  lemma {:induction false} NotAll(fs: seq<Factor>, rest: seq<Node>, done: seq<Node>)
    ensures NotRest(AllGrouped(fs) + rest, done) == NotRest(rest, done + AllNotted(fs))
    decreases fs, 1
  {
    if fs == [] {
      assert AllGrouped(fs) + rest == rest;
      assert done + AllNotted(fs) == done;
    } else {
      assert AllGrouped(fs) + rest == FactorGrouped(fs[0]) + (AllGrouped(fs[1..]) + rest);
      NotFactor(fs[0], AllGrouped(fs[1..]) + rest, done);
      NotAll(fs[1..], rest, done + [FactorNotted(fs[0])]);
      assert done + [FactorNotted(fs[0])] + AllNotted(fs[1..]) == done + AllNotted(fs);
    }
  }

  lemma {:induction false} NotFactor(f: Factor, rest: seq<Node>, done: seq<Node>)
    ensures NotRest(FactorGrouped(f) + rest, done) == NotRest(rest, done + [FactorNotted(f)])
    decreases f, 0
  {
    var ts := FactorGrouped(f) + rest;
    match f
    case Leaf(_) => assert ts[1..] == rest;
    case Paren(e) =>
      assert ts[1..] == rest;
      NotExpr(e, []);
      assert [] + Notted(e) == Notted(e);
    case Neg(_) => NegRun(f, rest);
  }

  // The finished plan of a list whose negated groups hold no `!`.

  function Compiled(e: Expr): seq<Node> {
    match e
    case Conj(fs) => AllCompiled(fs)
    case Alt(fs, rest) => [Or(AllCompiled(fs), Compiled(rest))]
  }

  function AllCompiled(fs: seq<Factor>): seq<Node> {
    if fs == [] then [] else [FactorCompiled(fs[0])] + AllCompiled(fs[1..])
  }

  function FactorCompiled(f: Factor): Node
    decreases f
  {
    match Base(f)
    case Leaf(id) => Negated(Negs(f), Prim(id))
    case Paren(e) =>
      assert e < Base(f);
      Negated(Negs(f), Group(Compiled(e)))
  }

  lemma {:induction false} NoNegNotted(e: Expr)
    requires !HasNeg(e)
    ensures Notted(e) == Grouped(e) && !Unsquished(e)
    decreases e, 2
  {
    AllNoNegNotted(e.fs);
    if e.Alt? {
      NoNegNotted(e.rest);
    }
  }

  lemma {:induction false} AllNoNegNotted(fs: seq<Factor>)
    requires !AllHasNeg(fs)
    ensures AllNotted(fs) == AllGrouped(fs) && !AllUnsquished(fs)
    decreases fs, 1
  {
    if fs != [] {
      FactorNoNegNotted(fs[0]);
      AllNoNegNotted(fs[1..]);
    }
  }

  lemma {:induction false} FactorNoNegNotted(f: Factor)
    requires !FactorHasNeg(f)
    ensures [FactorNotted(f)] == FactorGrouped(f) && !FactorUnsquished(f, false)
    decreases f, 0
  {
    if f.Paren? {
      NoNegNotted(f.e);
    }
  }

  lemma {:induction false} OrExpr(e: Expr)
    requires WellFormed(e) && !Unsquished(e)
    ensures OrRest(Notted(e), []) == Ok(Compiled(e))
    ensures Compiled(e) != []
    decreases e, 2
  {
    match e
    case Conj(fs) =>
      OrAll(fs, [], []);
      assert AllNotted(fs) + [] == AllNotted(fs);
      assert [] + AllCompiled(fs) == AllCompiled(fs);
    case Alt(fs, e') =>
      var tail := [OrTok] + Notted(e');
      assert Notted(e) == AllNotted(fs) + tail;
      OrAll(fs, tail, []);
      assert tail[1..] == Notted(e');
      assert [] + AllCompiled(fs) == AllCompiled(fs);
      OrExpr(e');
  }

  lemma {:induction false} NottedFront(fs: seq<Factor>, rest: seq<Node>)
    requires fs != []
    ensures var ts := AllNotted(fs) + rest;
      ts != [] && ts[0] == FactorNotted(fs[0]) && ts[1..] == AllNotted(fs[1..]) + rest
  {
    hide FactorNotted;
    assert AllNotted(fs) == [FactorNotted(fs[0])] + AllNotted(fs[1..]);
  }

  lemma {:induction false} OrAll(fs: seq<Factor>, rest: seq<Node>, done: seq<Node>)
    requires (forall i :: 0 <= i < |fs| ==> WellFormedFactor(fs[i])) && !AllUnsquished(fs)
    ensures OrRest(AllNotted(fs) + rest, done) == OrRest(rest, done + AllCompiled(fs))
    decreases fs, 1
  {
    if fs == [] {
      assert AllNotted(fs) + rest == rest;
      assert done + AllCompiled(fs) == done;
    } else {
      hide OrRest, FactorNotted, FactorCompiled, WellFormedFactor, FactorUnsquished;
      var ts := AllNotted(fs) + rest;
      NottedFront(fs, rest);
      hide AllNotted;
      OrFactor(fs[0], ts, done);
      OrAll(fs[1..], rest, done + [FactorCompiled(fs[0])]);
      assert done + [FactorCompiled(fs[0])] + AllCompiled(fs[1..]) == done + AllCompiled(fs);
    }
  }

  lemma {:induction false} UnsquishedBase(f: Factor)
    requires WellFormedFactor(f)
    ensures FactorUnsquished(f, true) == FactorUnsquished(Base(f), true)
    ensures WellFormedFactor(Base(f))
  {
    if f.Neg? {
      UnsquishedBase(f.f);
    }
  }

  lemma OrSingle(n: Node)
    requires n.Prim? || (n.Group? && OrRest(n.body, []).Ok?)
    ensures OrRest([n], []) == Ok([if n.Prim? then n else Group(OrRest(n.body, []).value)])
  {
    var done := [if n.Prim? then n else Group(OrRest(n.body, []).value)];
    assert [n][1..] == [] && [] + done == done;
    assert OrRest([], done) == Ok(done);
  }

  lemma {:induction false} OrFactor(f: Factor, ts: seq<Node>, done: seq<Node>)
    requires WellFormedFactor(f) && !FactorUnsquished(f, false)
    requires ts != [] && ts[0] == FactorNotted(f)
    ensures OrRest(ts, done) == OrRest(ts[1..], done + [FactorCompiled(f)])
    decreases f, 0
  {
    UnsquishedBase(f);
    var base := Base(f);
    if base.Paren? {
      assert base.e < base;
      if f.Neg? {
        NoNegNotted(base.e);
      }
      OrExpr(base.e);
    }
    if f.Neg? && Negs(f) % 2 == 1 {
      OrSingle(ts[0].arg[0]);
    }
  }

  // ------------------------------------------------------------------------------------------
  // The meaning of a finished plan
  // ------------------------------------------------------------------------------------------

  lemma {:induction false} EvalExpr(e: Expr, oracle: Oracle, log: seq<nat>)
    ensures EvalList(Compiled(e), oracle, log) == Meaning(e, oracle, log)
    decreases e, 2
  {
    EvalAll(e.fs, oracle, log);
    if e.Alt? {
      var (v, l) := AllMeaning(e.fs, oracle, log);
      EvalExpr(e.rest, oracle, l);
      assert Compiled(e)[1..] == [];
    }
  }

  lemma {:induction false} EvalAll(fs: seq<Factor>, oracle: Oracle, log: seq<nat>)
    ensures EvalList(AllCompiled(fs), oracle, log) == AllMeaning(fs, oracle, log)
    decreases fs, 1
  {
    if fs != [] {
      EvalFactor(fs[0], oracle, log);
      assert AllCompiled(fs)[1..] == AllCompiled(fs[1..]);
      EvalAll(fs[1..], oracle, FactorMeaning(fs[0], oracle, log).1);
    }
  }

  lemma {:induction false} EvalFactor(f: Factor, oracle: Oracle, log: seq<nat>)
    ensures EvalNode(FactorCompiled(f), oracle, log) == FactorMeaning(f, oracle, log)
    decreases f, 0
  {
    match f
    case Leaf(_) =>
    case Paren(e) => EvalExpr(e, oracle, log);
    case Neg(g) =>
      EvalFactor(g, oracle, log);
      NegatedFlips(f, oracle, log);
  }

  /** One more `!` flips the value and leaves the log alone. */
  lemma NegatedFlips(f: Factor, oracle: Oracle, log: seq<nat>)
    requires f.Neg?
    ensures var (v, l) := EvalNode(FactorCompiled(f.f), oracle, log);
            EvalNode(FactorCompiled(f), oracle, log) == (!v, l)
  {
    var b := FactorCompiled(Base(f));
    assert [b][1..] == [];
    assert EvalList([b], oracle, log) == EvalNode(b, oracle, log);
    assert FactorCompiled(f) == Negated(Negs(f), b);
    assert FactorCompiled(f.f) == Negated(Negs(f.f), b);
    assert Negs(f) == Negs(f.f) + 1;
  }
}
