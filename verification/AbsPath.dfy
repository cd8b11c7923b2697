/** The client's path normaliser, which rewrites a string in place with a cursor that also moves
 * backwards, against resolution of the path's components with a stack. */
module AbsPath {

  // ------------------------------------------------------------------------------------------
  // The meaning of a path
  // ------------------------------------------------------------------------------------------

  /** The number of characters before the first slash. */
  function WordLength(s: string): (n: nat)
    ensures n <= |s|
    ensures forall i :: 0 <= i < n ==> s[i] != '/'
    ensures n < |s| ==> s[n] == '/'
  {
    if s == "" || s[0] == '/' then 0 else 1 + WordLength(s[1..])
  }

  /** The nonempty parts between slashes. */
  function Components(s: string): seq<string>
    decreases |s|
  {
    if s == "" then []
    else if s[0] == '/' then Components(s[1..])
    else [s[..WordLength(s)]] + Components(s[WordLength(s)..])
  }

  /** `.` stays, `..` goes up but never above the root, everything else goes down. */
  function Resolve(cs: seq<string>, stack: seq<string>): seq<string> {
    if cs == [] then stack
    else if cs[0] == "." then Resolve(cs[1..], stack)
    else if cs[0] == ".." then Resolve(cs[1..], if stack == [] then [] else stack[..|stack| - 1])
    else Resolve(cs[1..], stack + [cs[0]])
  }

  function Meaning(s: string): seq<string> {
    Resolve(Components(s), [])
  }

  predicate Plain(cs: seq<string>) {
    forall i :: 0 <= i < |cs| ==> cs[i] != "." && cs[i] != ".."
  }

  lemma {:induction false} ComponentsJoin(u: string, v: string)
    ensures Components(u + "/" + v) == Components(u) + Components(v)
    decreases |u|
  {
    var s := u + "/" + v;
    if u == "" {
      assert s[1..] == v;
    } else if u[0] == '/' {
      assert s[1..] == u[1..] + "/" + v;
      ComponentsJoin(u[1..], v);
    } else {
      var n := WordLength(u);
      JoinWord(u, v, n);
      hide Components, WordLength;
      ComponentsJoin(u[n..], v);
    }
  }

  lemma JoinWord(u: string, v: string, n: nat)
    requires u != "" && u[0] != '/' && n == WordLength(u)
    ensures 0 < n
    ensures Components(u + "/" + v) == [u[..n]] + Components(u[n..] + "/" + v)
    ensures Components(u) == [u[..n]] + Components(u[n..])
  {
    var s := u + "/" + v;
    WordLengthIs(s, n);
    assert s[..n] == u[..n] && s[n..] == u[n..] + "/" + v;
  }

  lemma {:induction false} WordLengthIs(s: string, n: nat)
    requires n <= |s| && (forall i :: 0 <= i < n ==> s[i] != '/') && (n < |s| ==> s[n] == '/')
    ensures WordLength(s) == n
  {
    if n != 0 {
      WordLengthIs(s[1..], n - 1);
    }
  }

  lemma ComponentsWord(x: string)
    requires x != "" && '/' !in x
    ensures Components(x) == [x]
  {
    WordLengthIs(x, |x|);
    assert x[..|x|] == x && x[|x|..] == "";
  }

  lemma {:induction false} ResolveAppend(a: seq<string>, b: seq<string>, stack: seq<string>)
    ensures Resolve(a + b, stack) == Resolve(b, Resolve(a, stack))
    decreases |a|
  {
    if a == [] {
      assert a + b == b;
    } else {
      assert (a + b)[1..] == a[1..] + b;
      var top := if a[0] == "." then stack
                 else if a[0] == ".." then if stack == [] then [] else stack[..|stack| - 1]
                 else stack + [a[0]];
      ResolveAppend(a[1..], b, top);
    }
  }

  lemma {:induction false} ResolvePlain(a: seq<string>, stack: seq<string>)
    requires Plain(a)
    ensures Resolve(a, stack) == stack + a
    decreases |a|
  {
    if a == [] {
      assert stack + a == stack;
    } else {
      ResolvePlain(a[1..], stack + [a[0]]);
      assert stack + [a[0]] + a[1..] == stack + a;
    }
  }

  // ------------------------------------------------------------------------------------------
  // The five rewrites keep the meaning
  // ------------------------------------------------------------------------------------------

  /** The rest of a path: nothing, or a slash and what follows. */
  predicate Tail(w: string) {
    w == "" || w[0] == '/'
  }

  lemma ComponentsTail(u: string, w: string)
    requires Tail(w)
    ensures Components(u + w) == Components(u) + Components(w)
  {
    if w == "" {
      assert u + w == u;
    } else {
      assert u + w == u + "/" + w[1..];
      ComponentsJoin(u, w[1..]);
    }
  }

  lemma DoubleSlash(u: string, v: string)
    ensures Components(u + "/" + ("/" + v)) == Components(u + "/" + v)
  {
    ComponentsJoin(u, "/" + v);
    ComponentsJoin(u, v);
    assert ("/" + v)[1..] == v;
  }

  /** Dropping a `.` component. */
  lemma DropDot(u: string, w: string)
    requires Tail(w)
    ensures Meaning(u + "/." + w) == Meaning(u + w)
  {
    ComponentsTail(u, w);
    ComponentsTail(u + "/.", w);
    ComponentsJoin(u, ".");
    ComponentsWord(".");
    assert u + "/" + "." == u + "/.";
    var a, b := Components(u), Components(w);
    assert Components(u + "/." + w) == a + (["."] + b);
    ResolveAppend(a, ["."] + b, []);
    ResolveAppend(a, b, []);
    assert (["."] + b)[1..] == b;
  }

  /** Dropping `..` at the root. */
  lemma DropRootUp(w: string)
    requires Tail(w)
    ensures Meaning("/.." + w) == Meaning(w)
  {
    ComponentsTail("/..", w);
    ComponentsJoin("", "..");
    ComponentsWord("..");
    assert "" + "/" + ".." == "/..";
    var b := Components(w);
    assert Components("/.." + w) == [".."] + b;
    assert ([".."] + b)[1..] == b;
  }

  lemma ComponentsDotDot(p: string, w: string)
    requires Tail(w)
    ensures Components(p + "/.." + w) == Components(p) + [".."] + Components(w)
  {
    ComponentsTail(p + "/..", w);
    ComponentsJoin(p, "..");
    ComponentsWord("..");
    hide *;
    assert p + "/" + ".." == p + "/..";
  }

  lemma ComponentsUp(u: string, x: string, w: string)
    requires Tail(w) && x != "" && '/' !in x
    ensures Components(u + "/" + x + "/.." + w) == Components(u) + [x] + ([".."] + Components(w))
  {
    ComponentsDotDot(u + "/" + x, w);
    ComponentsJoin(u, x);
    ComponentsWord(x);
    hide *;
  }

  lemma ResolveUp(a: seq<string>, x: string, b: seq<string>)
    requires Plain(a + [x])
    ensures Resolve(a + [x] + ([".."] + b), []) == Resolve(a + b, [])
  {
    ResolveAppend(a + [x], [".."] + b, []);
    ResolvePlain(a + [x], []);
    assert [] + (a + [x]) == a + [x];
    assert Plain(a) by { assert forall i :: 0 <= i < |a| ==> a[i] == (a + [x])[i]; }
    ResolveAppend(a, b, []);
    ResolvePlain(a, []);
    assert [] + a == a;
    assert ([".."] + b)[1..] == b && (a + [x])[..|a + [x]| - 1] == a;
  }

  /** Dropping a component and the `..` after it. */
  lemma DropUp(u: string, x: string, w: string)
    requires Tail(w) && x != "" && '/' !in x && Plain(Components(u) + [x])
    ensures Meaning(u + "/" + x + "/.." + w) == Meaning(u + w)
  {
    ComponentsTail(u, w);
    ComponentsUp(u, x, w);
    ResolveUp(Components(u), x, Components(w));
    hide Components, Resolve, Plain;
  }

  // ------------------------------------------------------------------------------------------
  // What the cursor has passed is free of dots
  // ------------------------------------------------------------------------------------------

  predicate DotAt(s: string, i: nat) {
    i < |s| && s[i] == '.' && (i + 1 == |s| || s[i + 1] == '/')
  }

  predicate UpAt(s: string, i: nat) {
    i + 1 < |s| && s[i] == '.' && s[i + 1] == '.' && (i + 2 == |s| || s[i + 2] == '/')
  }

  /** No component that starts before `t` is `.` or `..`. */
  predicate NoDots(s: string, t: nat) {
    forall i :: 1 <= i < t && i < |s| && s[i - 1] == '/' ==> !DotAt(s, i) && !UpAt(s, i)
  }

  /** Only the first two characters may both be slashes, up to `t`. */
  predicate NoDoubles(s: string, t: nat) {
    forall i :: 2 <= i <= t && i < |s| ==> s[i] != '/' || s[i - 1] != '/'
  }

  /** A string without dot components has plain components only; `from` is the start of one. */
  lemma {:induction false} NoDotsPlain(s: string, from: nat)
    requires 1 <= from <= |s| && s[from - 1] == '/' && NoDots(s, |s|)
    ensures Plain(Components(s[from..]))
    decreases |s| - from
  {
    if from < |s| {
      if s[from] == '/' {
        NoDotsPlain(s, from + 1);
        assert s[from..][1..] == s[from + 1..];
      } else {
        var r := s[from..];
        var n := WordLength(r);
        assert r[n..] == s[from + n..];
        assert !DotAt(s, from) && !UpAt(s, from);
        assert forall i :: 0 <= i < n ==> r[..n][i] == s[from + i];
        assert n == 1 ==> r[..n][0] == s[from];
        assert n == 2 ==> r[..n][0] == s[from] && r[..n][1] == s[from + 1];
        assert r[..n] != "." && r[..n] != "..";
        if n < |r| {
          assert r[n] == '/' && r[n..][1..] == s[from + n + 1..];
          NoDotsPlain(s, from + n + 1);
        }
      }
    }
  }

  // ------------------------------------------------------------------------------------------
  // The program
  // ------------------------------------------------------------------------------------------

  /** `a` holds the string `s` and its terminating zero. */
  ghost predicate Holds(a: array<char>, s: string)
    reads a
  {
    |s| < a.Length && a[..|s|] == s && a[|s|] == '\0' && '\0' !in s
  }

  /** The characters before the first zero. */
  function UpToZero(s: string): string {
    if s == "" || s[0] == '\0' then "" else [s[0]] + UpToZero(s[1..])
  }

  lemma {:induction false} UpToZeroIs(s: string, rest: string)
    requires '\0' !in s && rest != "" && rest[0] == '\0'
    ensures UpToZero(s + rest) == s
  {
    if s == "" {
      assert s + rest == rest;
    } else {
      assert (s + rest)[1..] == s[1..] + rest;
      UpToZeroIs(s[1..], rest);
    }
  }

  lemma HeldString(a: array<char>, s: string)
    requires Holds(a, s)
    ensures UpToZero(a[..]) == s
  {
    UpToZeroIs(s, a[|s|..]);
    assert a[..] == s + a[|s|..];
  }

  /** Copies the string from `from` down to `to`, with its zero. */
  method MoveDown(a: array<char>, to: nat, from: nat, ghost s: string)
    requires Holds(a, s) && to <= from <= |s|
    modifies a
    ensures Holds(a, s[..to] + s[from..])
  {
    var d, f := to, from;
    ghost var r := s[..to] + s[from..];
    while a[f] != '\0'
      invariant from <= f <= |s| && d == to + (f - from)
      invariant forall i :: 0 <= i < d ==> a[i] == r[i]
      invariant forall i :: f <= i < |s| ==> a[i] == s[i]
      invariant a[|s|] == '\0'
      decreases |s| - f
    {
      a[d] := a[f];
      d, f := d + 1, f + 1;
    }
    a[d] := '\0';
    assert a[..|r|] == r;
  }

  /** Ends the string at `at`. */
  method Cut(a: array<char>, at: nat, ghost s: string)
    requires Holds(a, s) && at <= |s|
    modifies a
    ensures Holds(a, s[..at])
  {
    a[at] := '\0';
    assert a[..at] == s[..at];
  }

  /** What holds at the cursor `t`. */
  ghost predicate Passed(s: string, t: nat, meaning: seq<string>) {
    && t <= |s| && s != "" && s[0] == '/'
    && Meaning(s) == meaning
    && NoDots(s, t) && NoDoubles(s, t)
    && (t == |s| && 1 < |s| ==> s[t - 1] != '/')
  }

  /** A finished path: rooted, with plain components that are the meaning, no slash at the end
    * and no double slash but possibly at the start. */
  ghost predicate Normal(s: string, meaning: seq<string>) {
    && s != "" && s[0] == '/'
    && Components(s) == meaning && Plain(meaning)
    && NoDoubles(s, |s|)
    && (1 < |s| ==> s[|s| - 1] != '/')
  }

  lemma PassedAll(s: string, meaning: seq<string>)
    requires Passed(s, |s|, meaning)
    ensures Normal(s, meaning)
  {
    NoDotsPlain(s, 1);
    assert s[1..] == s[1..] && Components(s) == Components(s[1..]);
    ResolvePlain(Components(s), []);
    assert [] + Components(s) == Components(s);
  }

  lemma RootNormal()
    ensures Normal("/", [])
  {
    assert "/"[1..] == "";
  }

  /** Changing a string only behind the end of a component keeps what was passed. */
  lemma SamePrefix(s: string, s': string, t: nat)
    requires t <= |s| && t <= |s'| && s[..t] == s'[..t]
    requires (t == |s| || s[t] == '/') && (t == |s'| || s'[t] == '/')
    ensures NoDots(s, t) ==> NoDots(s', t)
  {
    assert forall i :: 0 <= i < t ==> s[i] == s[..t][i] == s'[i];
    forall i | 1 <= i < t && s'[i - 1] == '/' && NoDots(s, t)
      ensures !DotAt(s', i) && !UpAt(s', i)
    {
      assert s[i - 1] == '/' && !DotAt(s, i) && !UpAt(s, i);
    }
  }

  // One lemma for each way the loop moves on.

  lemma CollapseKeeps(s: string, t: nat, m: seq<string>)
    requires Passed(s, t, m) && t + 1 < |s| && s[t] == '/' && s[t + 1] == '/'
    ensures Passed(s[..t] + s[t + 1..], t, m)
  {
    var u, v, s' := s[..t], s[t + 2..], s[..t] + s[t + 1..];
    assert s == u + "/" + ("/" + v);
    assert s' == u + "/" + v;
    DoubleSlash(u, v);
    SamePrefix(s, s', t);
    assert forall i :: 0 <= i <= t ==> s'[i] == s[i];
  }

  lemma StripEnds(s: string, t: nat, m: seq<string>)
    requires Passed(s, t, m) && t + 1 == |s| && s[t] == '/' && t != 0
    ensures Normal(s[..t], m)
  {
    var u := s[..t];
    assert s == u + "/" + "";
    ComponentsJoin(u, "");
    assert Components(u) + Components("") == Components(u);
    SamePrefix(s, u, t);
    assert Passed(u, t, m);
    PassedAll(u, m);
  }

  lemma NextKeeps(s: string, t: nat, m: seq<string>)
    requires Passed(s, t, m) && t < |s|
    requires s[t] == '/' ==> (t + 1 < |s| && s[t + 1] != '/') || |s| == 1
    requires t != 0 && s[t - 1] == '/' ==> !DotAt(s, t) && !UpAt(s, t)
    ensures Passed(s, t + 1, m)
  {
    assert t == 0 ==> s[t] == '/';
  }

  lemma RootDotsKeep(s: string, m: seq<string>, n: nat)
    requires Passed(s, 1, m) && 1 < |s| && ((n == 1 && DotAt(s, 1)) || (n == 2 && UpAt(s, 1)))
    ensures |s| == n + 1 ==> Normal("/", m)
    ensures n + 1 < |s| ==> Passed(s[..1] + s[n + 2..], 1, m)
  {
    var w := s[n + 1..];
    if n == 1 {
      assert s == "" + "/." + w;
      DropDot("", w);
      assert "" + w == w;
    } else {
      assert s == "/.." + w;
      DropRootUp(w);
    }
    assert Meaning(w) == m;
    if w == "" {
      assert m == [];
      RootNormal();
    } else {
      assert s[..1] + s[n + 2..] == w;
    }
  }

  lemma DotKeeps(s: string, t: nat, m: seq<string>)
    requires Passed(s, t, m) && 2 <= t && s[t - 1] == '/' && DotAt(s, t)
    ensures Passed(s[..t - 1] + s[t + 1..], t - 1, m)
  {
    var u, w, s' := s[..t - 1], s[t + 1..], s[..t - 1] + s[t + 1..];
    assert s == u + "/." + w;
    DropDot(u, w);
    SamePrefix(s, s', t - 1);
    assert forall i :: 0 <= i < t - 1 ==> s'[i] == s[i];
    assert t - 1 < |s'| ==> s'[t - 1] == '/';
  }

  /** The last slash before `t - 1`: the component in between and the `..` at `t` go. */
  lemma UpKeeps(s: string, t: nat, b: nat, m: seq<string>)
    requires Passed(s, t, m) && 2 <= t && s[t - 1] == '/' && UpAt(s, t)
    requires b <= t - 2 && s[b] == '/' && forall i :: b < i <= t - 2 ==> s[i] != '/'
    ensures b == 0 && t + 2 == |s| ==> Normal("/", m)
    ensures b != 0 || t + 2 < |s| ==> Passed(s[..b] + s[t + 2..], b, m)
  {
    var u, x, w := s[..b], s[b + 1..t - 1], s[t + 2..];
    assert s == u + "/" + x + "/.." + w;
    UpMeaning(s, t, b, m);
    if b == 0 && w == "" {
      assert u + w == "";
      RootNormal();
    } else {
      var s' := u + w;
      SamePrefix(s, s', b);
      assert forall i :: 0 <= i < b ==> s'[i] == s[i];
      assert b < |s'| ==> s'[b] == '/';
    }
  }

  lemma DoubleRootUp(w: string)
    requires Tail(w)
    ensures Meaning("//.." + w) == Meaning(w)
  {
    var v := ".." + w;
    DoubleSlash("", v);
    DropRootUp(w);
    hide Components, Resolve;
    assert "" + "/" + ("/" + v) == "//.." + w;
    assert "" + "/" + v == "/.." + w;
  }

  lemma UpMeaning(s: string, t: nat, b: nat, m: seq<string>)
    requires Passed(s, t, m) && 2 <= t && s[t - 1] == '/' && UpAt(s, t)
    requires b <= t - 2 && s[b] == '/' && forall i :: b < i <= t - 2 ==> s[i] != '/'
    ensures Meaning(s[..b] + s[t + 2..]) == m
  {
    if b == t - 2 {
      UpAfterDouble(s, t, m);
    } else {
      PassedComponents(s, t, b, m);
      hide NoDots, NoDoubles, Components, Resolve, Plain;
      var u, x, w := s[..b], s[b + 1..t - 1], s[t + 2..];
      assert s == u + "/" + x + "/.." + w;
      DropUp(u, x, w);
    }
  }

  /** A double slash is only found at the start. */
  lemma UpAfterDouble(s: string, t: nat, m: seq<string>)
    requires Passed(s, t, m) && 2 <= t && s[t - 1] == '/' && UpAt(s, t) && s[t - 2] == '/'
    ensures t == 2 && Meaning(s[..t - 2] + s[t + 2..]) == m
  {
    hide Meaning;
    var w := s[t + 2..];
    assert s == "//.." + w;
    DoubleRootUp(w);
    assert s[..t - 2] + w == w;
  }

  lemma PassedComponents(s: string, t: nat, b: nat, m: seq<string>)
    requires Passed(s, t, m) && 2 <= t < |s| && s[t - 1] == '/'
    requires b < t - 2 && s[b] == '/' && forall i :: b < i <= t - 2 ==> s[i] != '/'
    ensures Plain(Components(s[..b]) + [s[b + 1..t - 1]])
  {
    var u, x := s[..b], s[b + 1..t - 1];
    var q := s[..t];
    SamePrefix(s, q, t - 1);
    assert NoDots(q, |q|);
    NoDotsPlain(q, 1);
    assert Components(q) == Components(q[1..]);
    assert q == u + "/" + x + "/" + "";
    ComponentsJoin(u + "/" + x, "");
    ComponentsJoin(u, x);
    ComponentsWord(x);
    assert Components(q) == Components(u) + [x];
  }

  /** Squeezes a run of slashes at the cursor into one. */
  method Collapse(path: array<char>, t: nat, ghost s0: string, ghost m: seq<string>) returns (ghost s: string)
    requires Holds(path, s0) && Passed(s0, t, m) && t < |s0| && s0[t] == '/'
    modifies path
    ensures Holds(path, s) && Passed(s, t, m) && t < |s| <= |s0| && s[t] == '/'
    ensures t + 1 < |s| ==> s[t + 1] != '/'
  {
    s := s0;
    while path[t + 1] == '/'
      invariant Holds(path, s) && Passed(s, t, m) && t < |s| <= |s0| && s[t] == '/'
      decreases |s|
    {
      CollapseKeeps(s, t, m);
      MoveDown(path, t, t + 1, s);
      s := s[..t] + s[t + 1..];
    }
  }

  /** What a check for dots does: nothing, a rewrite after which the loop goes on, or the end. */
  datatype Outcome = Same | Rewritten | Finished

  /** The branch for `..` at the cursor. */
  method UpStep(path: array<char>, t0: nat, ghost s0: string, ghost m: seq<string>)
      returns (o: Outcome, t: nat, ghost s: string)
    requires Holds(path, s0) && Passed(s0, t0, m) && t0 < |s0|
    modifies path
    ensures Holds(path, s)
    ensures match o
            case Same => s == s0 && t == t0 && (t0 != 0 && s0[t0 - 1] == '/' ==> !UpAt(s0, t0))
            case Rewritten => |s| < |s0| && Passed(s, t, m)
            case Finished => Normal(s, m)
  {
    hide Meaning, Components, Resolve, NoDots, NoDoubles, Normal;
    o, t, s := Same, t0, s0;
    if path[t] == '.' && path[t + 1] == '.' {
      if t - 1 == 0 && path[t + 2] == '\0' {
        RootDotsKeep(s, m, 2);
        Cut(path, t, s);
        s := s[..1];
        assert s == "/";
        return Finished, t, s;
      }
      if t - 1 == 0 && path[t + 2] == '/' {
        RootDotsKeep(s, m, 2);
        MoveDown(path, t, t + 3, s);
        s := s[..1] + s[4..];
        return Rewritten, t, s;
      }
      if path[t - 1] == '/' && (path[t + 2] == '/' || path[t + 2] == '\0') {
        var from := t + 2;
        t := t - 2;
        while t > 0 && path[t] != '/'
          invariant 0 <= t <= t0 - 2
          invariant forall i :: t < i <= t0 - 2 ==> s[i] != '/'
        {
          t := t - 1;
        }
        UpKeeps(s, t0, t, m);
        if t != 0 || path[from] == '/' {
          MoveDown(path, t, from, s);
          s := s[..t] + s[from..];
          return Rewritten, t, s;
        }
        Cut(path, 1, s);
        s := s[..1];
        assert s == "/";
        return Finished, t, s;
      }
    }
  }

  /** The branch for `.` at the cursor. */
  method DotStep(path: array<char>, t0: nat, ghost s0: string, ghost m: seq<string>)
      returns (o: Outcome, t: nat, ghost s: string)
    requires Holds(path, s0) && Passed(s0, t0, m) && t0 < |s0|
    modifies path
    ensures Holds(path, s)
    ensures match o
            case Same => s == s0 && t == t0 && (t0 != 0 && s0[t0 - 1] == '/' ==> !DotAt(s0, t0))
            case Rewritten => |s| < |s0| && Passed(s, t, m)
            case Finished => Normal(s, m)
  {
    hide Meaning, Components, Resolve, NoDots, NoDoubles, Normal;
    o, t, s := Same, t0, s0;
    if path[t] == '.' {
      if t - 1 == 0 && path[t + 1] == '\0' {
        RootDotsKeep(s, m, 1);
        Cut(path, t, s);
        s := s[..1];
        assert s == "/";
        return Finished, t, s;
      }
      if t - 1 == 0 && path[t + 1] == '/' {
        RootDotsKeep(s, m, 1);
        MoveDown(path, t, t + 2, s);
        s := s[..1] + s[3..];
        return Rewritten, t, s;
      }
      if path[t - 1] == '/' && (path[t + 1] == '/' || path[t + 1] == '\0') {
        DotKeeps(s, t, m);
        MoveDown(path, t - 1, t + 1, s);
        s := s[..t - 1] + s[t + 1..];
        return Rewritten, t - 1, s;
      }
    }
  }

  /** Normalises the string in `path`: it ends up with the components that the input resolves to. */
  method Normalise(path: array<char>, ghost input: string) returns (ghost s: string)
    requires Holds(path, input) && input != "" && input[0] == '/'
    modifies path
    ensures Holds(path, s) && Normal(s, Meaning(input))
  {
    ghost var m := Meaning(input);
    s := input;
    var t, o := 0, Same;
    while path[t] != '\0'
      invariant 0 <= t && Holds(path, s) && Passed(s, t, m)
      decreases |s|, |s| - t
    {
      if path[t] == '/' {
        s := Collapse(path, t, s, m);
        if t != 0 && path[t + 1] == '\0' {
          StripEnds(s, t, m);
          Cut(path, t, s);
          s := s[..t];
          return;
        }
      }
      o, t, s := UpStep(path, t, s, m);
      if o == Same {
        o, t, s := DotStep(path, t, s, m);
      }
      if o == Finished {
        return;
      }
      if o == Same {
        NextKeeps(s, t, m);
        t := t + 1;
      }
    }
    PassedAll(s, m);
  }

  /** A copy of `s` with its terminating zero. */
  method Allocate(s: string) returns (a: array<char>)
    requires '\0' !in s
    ensures fresh(a) && Holds(a, s)
  {
    a := new char[|s| + 1](_ => '\0');
    var i := 0;
    while i < |s|
      invariant i <= |s| && a[|s|] == '\0'
      invariant forall j :: 0 <= j < i ==> a[j] == s[j]
    {
      a[i] := s[i];
      i := i + 1;
    }
    assert a[..|s|] == s;
  }

  /** The absolute path of `s2`, taken from `envDir` unless it starts with a slash: what the array
    * holds up to its zero. */
  method UtilAbsPath(envDir: string, s2: string) returns (path: array<char>)
    requires '\0' !in envDir && '\0' !in s2
    ensures '\0' in path[..]
    ensures Normal(UpToZero(path[..]), Meaning(if s2 != "" && s2[0] == '/' then s2 else envDir + "/" + s2))
  {
    var input := if s2 != "" && s2[0] == '/' then "/" + s2 else "/" + envDir + "/" + s2;
    path := Allocate(input);
    ghost var s := Normalise(path, input);
    assert input[1..] == if s2 != "" && s2[0] == '/' then s2 else envDir + "/" + s2;
    HeldString(path, s);
    assert path[..][|s|] == '\0';
  }

  /** Normalising again changes no component. */
  lemma NormalIsStable(s: string, m: seq<string>)
    requires Normal(s, m)
    ensures Meaning(s) == m
  {
    ResolvePlain(m, []);
    assert [] + m == m;
  }
}
