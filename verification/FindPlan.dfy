/** The compiler of `find` expressions: a list of tokens becomes a short-circuit plan in three
 * passes over linked lists, which relink the nodes they are given.
 *
 * Primaries stay opaque: an oracle decides each from its number and from the primaries that ran
 * before it, and a log records which ones ran.
 */
module FindPlan {
  import opened Options

  /** A node of a plan.  `NotTok` and `OrTok` are operator nodes whose subplans are not yet set. */
  datatype Node =
    | Prim(id: nat)
    | Open
    | Close
    | NotTok
    | OrTok
    | Group(body: seq<Node>)
    | Not(arg: seq<Node>)
    | Or(left: seq<Node>, right: seq<Node>)

  /** Usage: the program exits with a message.  Crash: it follows a null or uninitialised
    * pointer. */
  datatype Failure = Usage | Crash

  datatype Result<+T> = Ok(value: T) | Err(failure: Failure)
  {
    predicate IsFailure() { Err? }

    function PropagateFailure<U>(): Result<U>
      requires Err?
    {
      Err(failure)
    }

    function Extract(): T
      requires Ok?
    {
      value
    }
  }

  // ------------------------------------------------------------------------------------------
  // The passes as functions
  // ------------------------------------------------------------------------------------------

  /** Collects expressions up to the closing parenthesis: the group's body and what follows. */
  function Collect(plan: seq<Node>, body: seq<Node>): (r: Result<(seq<Node>, seq<Node>)>)
    ensures r.Ok? ==> |r.value.1| < |plan|
    decreases |plan|
  {
    if plan == [] then Err(Crash)
    else if plan[0].Close? then if body == [] then Err(Usage) else Ok((body, plan[1..]))
    else if plan[0].Open? then
      var (inner, rest) :- Collect(plan[1..], []);
      Collect(rest, body + [Group(inner)])
    else Collect(plan[1..], body + [plan[0]])
  }

  /** The rest of paren_squish, given the part of the result built so far. */
  function ParenRest(plan: seq<Node>, done: seq<Node>): Result<seq<Node>>
    decreases |plan|
  {
    if plan == [] then Ok(done)
    else if plan[0].Close? then Err(Usage)
    else if plan[0].Open? then
      var (inner, rest) :- Collect(plan[1..], []);
      ParenRest(rest, done + [Group(inner)])
    else ParenRest(plan[1..], done + [plan[0]])
  }

  predicate IsNot(n: Node) { n.NotTok? || n.Not? }

  predicate IsOr(n: Node) { n.OrTok? || n.Or? }

  /** The number of leading `!` nodes. */
  function NotRun(plan: seq<Node>): (k: nat)
    ensures k <= |plan|
    ensures forall i :: 0 <= i < k ==> IsNot(plan[i])
    ensures k < |plan| ==> !IsNot(plan[k])
  {
    if plan == [] || !IsNot(plan[0]) then 0 else 1 + NotRun(plan[1..])
  }

  function NotRest(plan: seq<Node>, done: seq<Node>): Result<seq<Node>>
    decreases plan
  {
    if plan == [] then Ok(done)
    else if plan[0].Group? then
      assert plan[0] in plan;
      var body :- NotRest(plan[0].body, []);
      NotRest(plan[1..], done + [Group(body)])
    else if IsNot(plan[0]) then
      var k := NotRun(plan);
      if k == |plan| then Err(Crash)
      else if IsOr(plan[k]) then Err(Usage)
      else NotRest(plan[k + 1..], done + [if k % 2 == 1 then Not([plan[k]]) else plan[k]])
    else NotRest(plan[1..], done + [plan[0]])
  }

  function OrRest(plan: seq<Node>, done: seq<Node>): Result<seq<Node>>
    decreases plan
  {
    if plan == [] then Ok(done)
    else
      match plan[0]
      case Group(body) =>
        var b :- OrRest(body, []);
        OrRest(plan[1..], done + [Group(b)])
      case Not(arg) =>
        var a :- OrRest(arg, []);
        OrRest(plan[1..], done + [Not(a)])
      case NotTok => Err(Crash)
      case OrTok =>
        if done == [] then Err(Usage)
        else
          var right :- OrRest(plan[1..], []);
          if right == [] then Err(Usage) else Ok([Or(done, right)])
      case Or(_, _) =>
        if done == [] then Err(Usage)
        else
          var right :- OrRest(plan[1..], []);
          if right == [] then Err(Usage) else Ok([Or(done, right)])
      case _ => OrRest(plan[1..], done + [plan[0]])
  }

  function Compile(tokens: seq<Node>): Result<seq<Node>> {
    var p :- ParenRest(tokens, []);
    var n :- NotRest(p, []);
    OrRest(n, [])
  }

  // ------------------------------------------------------------------------------------------
  // The passes as the program runs them
  // ------------------------------------------------------------------------------------------

  /** A plan held through a pointer to its head, from which the passes remove nodes. */
  class PlanList {
    var nodes: seq<Node>

    constructor (nodes: seq<Node>)
      ensures this.nodes == nodes
    {
      this.nodes := nodes;
    }

    method YankNode() returns (node: Option<Node>)
      modifies this
      ensures old(nodes) == [] ==> node == None && nodes == []
      ensures old(nodes) != [] ==> node == Some(old(nodes)[0]) && nodes == old(nodes)[1..]
    {
      if nodes == [] {
        return None;
      }
      node := Some(nodes[0]);
      nodes := nodes[1..];
    }

    /** After one `!`: counts it and those that follow, and removes them and the node behind. */
    method YankOperand() returns (notlevel: nat, node: Option<Node>)
      modifies this
      ensures var rest, k := old(nodes), NotRun(old(nodes));
              && notlevel == k + 1
              && node == (if k == |rest| then None else Some(rest[k]))
              && nodes == (if k == |rest| then [] else rest[k + 1..])
    {
      ghost var rest := nodes;
      notlevel := 1;
      node := YankNode();
      while node != None && IsNot(node.value)
        invariant 1 <= notlevel <= |rest| + 1
        invariant NotRun(rest) == notlevel - 1 + NotRun(rest[notlevel - 1..])
        invariant node == if notlevel - 1 == |rest| then None else Some(rest[notlevel - 1])
        invariant nodes == if notlevel - 1 == |rest| then [] else rest[notlevel..]
        decreases |rest| - notlevel
      {
        notlevel := notlevel + 1;
        node := YankNode();
      }
    }

    /** Removes one expression: a plain node, or a parenthesised list made into a group. */
    method YankExpr() returns (r: Result<Option<Node>>)
      modifies this
      ensures var plan := old(nodes);
              if plan == [] then r == Ok(None) && nodes == []
              else if plan[0].Open? then
                match Collect(plan[1..], [])
                case Ok((body, rest)) => r == Ok(Some(Group(body))) && nodes == rest
                case Err(e) => r == Err(e)
              else r == Ok(Some(plan[0])) && nodes == plan[1..]
      decreases |nodes|
    {
      var node := YankNode();
      if node == None || !node.value.Open? {
        return Ok(node);
      }
      var subplan: seq<Node> := [];
      while true
        invariant |nodes| < |old(nodes)|
        invariant Collect(old(nodes)[1..], []) == Collect(nodes, subplan)
        decreases |nodes|
      {
        if nodes == [] {
          return Err(Crash);
        }
        var next := YankExpr();
        if next.Err? {
          return Err(next.failure);
        }
        if next.value.value.Close? {
          if subplan == [] {
            return Err(Usage);
          }
          return Ok(Some(Group(subplan)));
        }
        subplan := subplan + [next.value.value];
      }
    }
  }

  method ParenSquish(plan: seq<Node>) returns (r: Result<seq<Node>>)
    ensures r == ParenRest(plan, [])
  {
    var list := new PlanList(plan);
    var result: seq<Node> := [];
    while list.nodes != []
      invariant ParenRest(plan, []) == ParenRest(list.nodes, result)
      decreases |list.nodes|
    {
      var expr := list.YankExpr();
      if expr.Err? {
        return Err(expr.failure);
      }
      if expr.value.value.Close? {
        return Err(Usage);
      }
      result := result + [expr.value.value];
    }
    return Ok(result);
  }

  lemma {:induction false} Suffix(plan: seq<Node>, at: nat, n: nat)
    requires at + n <= |plan|
    ensures plan[at..][n..] == plan[at + n..]
  {
  }

  lemma {:induction false} NotStepGroup(plan: seq<Node>, done: seq<Node>)
    requires plan != [] && plan[0].Group?
    ensures var body := NotRest(plan[0].body, []);
            NotRest(plan, done) ==
            if body.Ok? then NotRest(plan[1..], done + [Group(body.value)]) else Err(body.failure)
  {
  }

  lemma {:induction false} NotStepRun(plan: seq<Node>, done: seq<Node>, k: nat)
    requires plan != [] && IsNot(plan[0]) && k == 1 + NotRun(plan[1..])
    ensures k <= |plan|
    ensures NotRest(plan, done) ==
            if k == |plan| then Err(Crash) else if IsOr(plan[k]) then Err(Usage)
            else NotRest(plan[k + 1..], done + [if k % 2 == 1 then Not([plan[k]]) else plan[k]])
  {
    assert NotRun(plan) == k;
    hide NotRun;
  }

  lemma {:induction false} NotStepPlain(plan: seq<Node>, done: seq<Node>)
    requires plan != [] && !plan[0].Group? && !IsNot(plan[0])
    ensures NotRest(plan, done) == NotRest(plan[1..], done + [plan[0]])
  {
  }

  lemma InPlan(plan: seq<Node>, at: nat, item: Node)
    requires at < |plan| && item == plan[at] && item.Group?
    ensures item in plan && (plan decreases to item.body)
  {
  }

  method NotSquish(plan: seq<Node>) returns (r: Result<seq<Node>>)
    ensures r == NotRest(plan, [])
    decreases plan
  {
    var list := new PlanList(plan);
    var result: seq<Node> := [];
    ghost var at := 0;
    while list.nodes != []
      invariant 0 <= at <= |plan| && list.nodes == plan[at..]
      invariant NotRest(plan, []) == NotRest(list.nodes, result)
      decreases |list.nodes|
    {
      hide NotRest, NotRun;
      ghost var rest := list.nodes;
      var next := list.YankNode();
      Suffix(plan, at, 1);
      at := at + 1;
      var item := next.value;
      if item.Group? {
        NotStepGroup(rest, result);
        InPlan(plan, at - 1, item);
        var body := NotSquish(item.body);
        if body.Err? {
          return Err(body.failure);
        }
        item := Group(body.value);
      } else if IsNot(item) {
        var notlevel, node := list.YankOperand();
        NotStepRun(rest, result, notlevel);
        if node == None {
          return Err(Crash);
        }
        Suffix(plan, at, notlevel);
        at := at + notlevel;
        if IsOr(node.value) {
          return Err(Usage);
        }
        item := if notlevel % 2 != 1 then node.value else Not([node.value]);
      } else {
        NotStepPlain(rest, result);
      }
      result := result + [item];
    }
    return Ok(result);
  }

  method OrSquish(plan: seq<Node>) returns (r: Result<seq<Node>>)
    ensures r == OrRest(plan, [])
    decreases plan
  {
    var list := new PlanList(plan);
    var result: seq<Node> := [];
    ghost var at := 0;
    while list.nodes != []
      invariant 0 <= at <= |plan| && list.nodes == plan[at..]
      invariant OrRest(plan, []) == OrRest(list.nodes, result)
      decreases |list.nodes|
    {
      var next := list.YankNode();
      at := at + 1;
      var item := next.value;
      assert item in plan;
      if item.Group? {
        var body := OrSquish(item.body);
        if body.Err? {
          return Err(body.failure);
        }
        item := Group(body.value);
      } else if item.NotTok? {
        return Err(Crash);
      } else if item.Not? {
        var arg := OrSquish(item.arg);
        if arg.Err? {
          return Err(arg.failure);
        }
        item := Not(arg.value);
      } else if IsOr(item) {
        if result == [] {
          return Err(Usage);
        }
        var right := OrSquish(list.nodes);
        if right.Err? {
          return Err(right.failure);
        }
        if right.value == [] {
          return Err(Usage);
        }
        return Ok([Or(result, right.value)]);
      }
      result := result + [item];
    }
    return Ok(result);
  }

  /** One command-line operator: `-a` makes no node, and some primaries produce output. */
  datatype Arg = And | Plain(node: Node) | Output(id: nat)

  const PRINT := 0

  /** `plan` holds the nodes of the arguments with the numbers `from`: all but `-a`, in their order. */
  ghost predicate NodesOf(args: seq<Arg>, from: seq<nat>, plan: seq<Node>) {
    && |plan| == |from|
    && (forall j, k :: 0 <= j < k < |from| ==> from[j] < from[k])
    && (forall i :: 0 <= i < |args| ==> (i in from <==> !args[i].And?))
    && (forall k :: 0 <= k < |from| ==>
          && from[k] < |args|
          && (args[from[k]].Plain? ==> plan[k] == args[from[k]].node)
          && (args[from[k]].Output? ==> plan[k] == Prim(args[from[k]].id)))
  }

  lemma {:induction false} NodesNext(args: seq<Arg>, from: seq<nat>, plan: seq<Node>, arg: Arg, made: seq<Node>)
    requires NodesOf(args, from, plan)
    requires made == if arg.And? then [] else if arg.Plain? then [arg.node] else [Prim(arg.id)]
    ensures NodesOf(args + [arg], from + (if arg.And? then [] else [|args|]), plan + made)
  {
    var args', from' := args + [arg], from + if arg.And? then [] else [|args|];
    forall i | 0 <= i < |args'|
      ensures i in from' <==> !args'[i].And?
    {
      if i == |args| {
        assert !arg.And? ==> from'[|from|] == i;
      } else {
        assert i in from <==> i in from';
      }
    }
  }

  /** The first loop of find_formplan: the list of nodes, and whether one makes output. */
  method CreateAll(args: seq<Arg>) returns (plan: seq<Node>, isoutput: bool, ghost from: seq<nat>)
    ensures NodesOf(args, from, plan)
    ensures isoutput <==> exists i :: 0 <= i < |args| && args[i].Output?
  {
    plan, isoutput, from := [], false, [];
    var i := 0;
    while i < |args|
      invariant 0 <= i <= |args|
      invariant NodesOf(args[..i], from, plan)
      invariant isoutput <==> exists j :: 0 <= j < i && args[j].Output?
    {
      hide NodesOf;
      var made: seq<Node> := [];
      match args[i] {
        case And =>
        case Plain(n) => made := [n];
        case Output(id) => made, isoutput := [Prim(id)], true;
      }
      NodesNext(args[..i], from, plan, args[i], made);
      assert args[..i] + [args[i]] == args[..i + 1];
      from := from + if args[i].And? then [] else [i];
      plan := plan + made;
      i := i + 1;
    }
    assert args[..i] == args;
  }

  /** Turns the arguments into a plan, with a default print when nothing makes output: the passes are
    * run over `nodes` and the print. */
  method FormPlan(args: seq<Arg>) returns (r: Result<seq<Node>>, ghost from: seq<nat>, ghost nodes: seq<Node>)
    ensures NodesOf(args, from, nodes)
    ensures r == Compile(nodes + if exists i :: 0 <= i < |args| && args[i].Output? then [] else [Prim(0)])
  {
    hide ParenRest, NotRest, OrRest, NodesOf;
    var plan, isoutput;
    plan, isoutput, from := CreateAll(args);
    nodes := plan;
    if !isoutput {
      plan := plan + [Prim(PRINT)];
    }
    assert plan == nodes + if exists i :: 0 <= i < |args| && args[i].Output? then [] else [Prim(0)];
    r := ParenSquish(plan);
    if r.Ok? {
      r := NotSquish(r.value);
      if r.Ok? {
        r := OrSquish(r.value);
      }
    }
  }

  // ------------------------------------------------------------------------------------------
  // Evaluation
  // ------------------------------------------------------------------------------------------

  /** Decides a primary from its number and the primaries that ran before it. */
  type Oracle = (nat, seq<nat>) -> bool

  function EvalNode(n: Node, oracle: Oracle, log: seq<nat>): (bool, seq<nat>)
    decreases n, 0
  {
    match n
    case Prim(id) => (oracle(id, log), log + [id])
    case Group(body) => EvalList(body, oracle, log)
    case Not(arg) =>
      var (v, l) := EvalList(arg, oracle, log);
      (!v, l)
    case Or(left, right) =>
      var (v, l) := EvalList(left, oracle, log);
      if v then (true, l) else EvalList(right, oracle, l)
    case _ => (false, log)
  }

  /** Runs a list until an expression is false.  An empty list, which the compiler never leaves
    * in a plan, would read an uninitialised state. */
  function EvalList(ps: seq<Node>, oracle: Oracle, log: seq<nat>): (bool, seq<nat>)
    decreases ps, 0
  {
    if ps == [] then (true, log)
    else
      assert ps[0] in ps;
      var (v, l) := EvalNode(ps[0], oracle, log);
      if v then EvalList(ps[1..], oracle, l) else (false, l)
  }

  method Eval(n: Node, oracle: Oracle, log: seq<nat>) returns (state: bool, ran: seq<nat>)
    ensures (state, ran) == EvalNode(n, oracle, log)
    decreases n, 1
  {
    match n
    case Prim(id) => return oracle(id, log), log + [id];
    case Group(body) => state, ran := FindExpr(body, oracle, log);
    case Not(_) => state, ran := FindNot(n, oracle, log);
    case Or(_, _) => state, ran := FindOr(n, oracle, log);
    case _ => return false, log;
  }

  method FindExpr(body: seq<Node>, oracle: Oracle, log: seq<nat>) returns (state: bool, ran: seq<nat>)
    ensures (state, ran) == EvalList(body, oracle, log)
    decreases body, 0
  {
    state, ran := true, log;
    var i := 0;
    while i < |body| && state
      invariant 0 <= i <= |body|
      invariant EvalList(body, oracle, log) == if state then EvalList(body[i..], oracle, ran) else (false, ran)
      decreases |body| - i, state
    {
      assert body[i] in body;
      state, ran := Eval(body[i], oracle, ran);
      i := i + 1;
    }
  }

  method FindNot(n: Node, oracle: Oracle, log: seq<nat>) returns (state: bool, ran: seq<nat>)
    requires n.Not?
    ensures (state, ran) == EvalNode(n, oracle, log)
    decreases n, 0
  {
    state, ran := FindExpr(n.arg, oracle, log);
    state := !state;
  }

  method FindOr(n: Node, oracle: Oracle, log: seq<nat>) returns (state: bool, ran: seq<nat>)
    requires n.Or?
    ensures (state, ran) == EvalNode(n, oracle, log)
    decreases n, 0
  {
    state, ran := FindExpr(n.left, oracle, log);
    if !state {
      state, ran := FindExpr(n.right, oracle, ran);
    }
  }
}
