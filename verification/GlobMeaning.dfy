/** What a pattern means, read as a tree, and that the matcher answers exactly that. */
module GlobMeaning {
  import opened Glob
  import opened Options

  // ------------------------------------------------------------------------------------------
  // Patterns
  // ------------------------------------------------------------------------------------------

  datatype Item = One(c: char) | Range(lo: char, hi: char)

  datatype Elem = Lit(c: char) | Any | Star | Class(items: seq<Item>) | Braces(alts: seq<Alternative>)

  datatype Alternative = Alternative(elems: seq<Elem>)

  function ItemText(i: Item): string {
    match i
    case One(c) => [c]
    case Range(lo, hi) => [lo, '-', hi]
  }

  function ItemsText(items: seq<Item>): string {
    if items == [] then "" else ItemText(items[0]) + ItemsText(items[1..])
  }

  /** How the pattern is written. */
  function Text(p: seq<Elem>): string {
    if p == [] then "" else ElemText(p[0]) + Text(p[1..])
  }

  function ElemText(e: Elem): (t: string)
    ensures t != ""
  {
    match e
    case Lit(c) => [c]
    case Any => "?"
    case Star => "*"
    case Class(items) => "[" + ItemsText(items) + "]"
    case Braces(alts) => "{" + AltsText(alts) + "}"
  }

  function AltsText(alts: seq<Alternative>): string {
    if alts == [] then ""
    else if |alts| == 1 then Text(alts[0].elems)
    else Text(alts[0].elems) + "," + AltsText(alts[1..])
  }

  /** Characters that a class may name: its two signs excepted, and seven bits like all others. */
  predicate ClassChar(c: char) {
    '\0' < c < '\U{80}' && c != ']' && c != '-'
  }

  predicate GoodItem(i: Item) {
    match i
    case One(c) => ClassChar(c)
    case Range(lo, hi) => ClassChar(lo) && ClassChar(hi) && lo <= hi
  }

  /** Characters that stand for themselves; inside braces the comma and the end are signs too. */
  predicate PlainChar(c: char, inside: bool) {
    '\0' < c < '\U{80}' && c !in ['/', '{', '[', '*', '?'] && (inside ==> c != ',' && c != '}')
  }

  predicate Good(p: seq<Elem>, inside: bool) {
    p == [] || (GoodElem(p[0], inside) && Good(p[1..], inside))
  }

  predicate GoodElem(e: Elem, inside: bool) {
    match e
    case Lit(c) => PlainChar(c, inside)
    case Any => true
    case Star => true
    case Class(items) => forall i :: 0 <= i < |items| ==> GoodItem(items[i])
    case Braces(alts) => alts != [] && GoodAlts(alts)
  }

  predicate GoodAlts(alts: seq<Alternative>) {
    alts == [] || (Good(alts[0].elems, true) && GoodAlts(alts[1..]))
  }

  // ------------------------------------------------------------------------------------------
  // Meaning: what the braces expand to, and which names an expansion fits
  // ------------------------------------------------------------------------------------------

  /** `t` is the pattern with one alternative chosen for every brace, at every depth. */
  ghost predicate Expands(p: seq<Elem>, t: seq<Elem>)
    decreases p
  {
    if p == [] then t == []
    else exists k | 0 <= k <= |t| :: ExpandsElem(p[0], t[..k]) && Expands(p[1..], t[k..])
  }

  ghost predicate ExpandsElem(e: Elem, t: seq<Elem>)
    decreases e
  {
    if e.Braces? then exists i | 0 <= i < |e.alts| :: Expands(e.alts[i].elems, t)
    else t == [e]
  }

  predicate Has(i: Item, c: char) {
    match i
    case One(d) => c == d
    case Range(lo, hi) => lo <= c <= hi
  }

  predicate Holds(items: seq<Item>, c: char) {
    exists i | 0 <= i < |items| :: Has(items[i], c)
  }

  predicate Takes(e: Elem, c: char) {
    e == Any || e == Lit(c) || (e.Class? && Holds(e.items, c))
  }

  /** A name fits a pattern without braces. */
  ghost predicate Fits(t: seq<Elem>, s: string) {
    if t == [] then s == ""
    else if t[0] == Star then exists k | 0 <= k <= |s| :: Fits(t[1..], s[k..])
    else s != "" && Takes(t[0], s[0]) && Fits(t[1..], s[1..])
  }

  /** The name is in the language of the pattern: it fits some expansion. */
  ghost predicate Denotes(p: seq<Elem>, s: string) {
    exists t :: Expands(p, t) && Fits(t, s)
  }

  // ------------------------------------------------------------------------------------------
  // The meaning, one element at a time
  // ------------------------------------------------------------------------------------------

  lemma {:induction false} ExpandsJoin(a: seq<Elem>, b: seq<Elem>, u: seq<Elem>, v: seq<Elem>)
    requires Expands(a, u) && Expands(b, v)
    ensures Expands(a + b, u + v)
  {
    hide ExpandsElem;
    if a == [] {
      assert a + b == b && u + v == v;
    } else {
      var k :| 0 <= k <= |u| && ExpandsElem(a[0], u[..k]) && Expands(a[1..], u[k..]);
      hide Expands;
      ExpandsJoin(a[1..], b, u[k..], v);
      assert (a + b)[1..] == a[1..] + b && (a + b)[0] == a[0];
      assert (u + v)[..k] == u[..k] && (u + v)[k..] == u[k..] + v;
      ExpandsFirst(a + b, u + v, k);
    }
  }

  lemma ExpandsFirst(p: seq<Elem>, t: seq<Elem>, k: nat)
    requires p != [] && k <= |t| && ExpandsElem(p[0], t[..k]) && Expands(p[1..], t[k..])
    ensures Expands(p, t)
  {
    hide ExpandsElem;
  }

  lemma {:induction false} ExpandsSplit(a: seq<Elem>, b: seq<Elem>, t: seq<Elem>) returns (k: nat)
    requires Expands(a + b, t)
    ensures k <= |t| && Expands(a, t[..k]) && Expands(b, t[k..])
  {
    hide ExpandsElem;
    if a == [] {
      k := 0;
      assert a + b == b && t[0..] == t;
    } else {
      assert (a + b)[1..] == a[1..] + b;
      var h :| 0 <= h <= |t| && ExpandsElem(a[0], t[..h]) && Expands((a + b)[1..], t[h..]);
      var m := ExpandsSplit(a[1..], b, t[h..]);
      k := h + m;
      assert t[..k][..h] == t[..h] && t[..k][h..] == t[h..][..m] && t[h..][m..] == t[k..];
    }
  }

  /** A pattern with a brace in front means what its alternatives mean, each put in its place. */
  lemma DenotesBraces(alts: seq<Alternative>, rest: seq<Elem>, s: string)
    ensures Denotes([Braces(alts)] + rest, s) <==>
            exists i | 0 <= i < |alts| :: Denotes(alts[i].elems + rest, s)
  {
    hide Fits;
    var p := [Braces(alts)] + rest;
    assert p[1..] == rest;
    if Denotes(p, s) {
      var t :| Expands(p, t) && Fits(t, s);
      var k :| 0 <= k <= |t| && ExpandsElem(p[0], t[..k]) && Expands(p[1..], t[k..]);
      var i :| 0 <= i < |alts| && Expands(alts[i].elems, t[..k]);
      ExpandsJoin(alts[i].elems, rest, t[..k], t[k..]);
      assert t[..k] + t[k..] == t;
      assert Denotes(alts[i].elems + rest, s);
    }
    if i :| 0 <= i < |alts| && Denotes(alts[i].elems + rest, s) {
      var t :| Expands(alts[i].elems + rest, t) && Fits(t, s);
      var k := ExpandsSplit(alts[i].elems, rest, t);
      assert ExpandsElem(p[0], t[..k]);
      assert Expands(p, t);
    }
  }

  /** Every other element stands for itself in every expansion. */
  lemma ExpandsOne(e: Elem, rest: seq<Elem>, t: seq<Elem>)
    requires !e.Braces?
    ensures Expands([e] + rest, t) <==> t != [] && t[0] == e && Expands(rest, t[1..])
  {
    var p := [e] + rest;
    assert p[1..] == rest;
    if Expands(p, t) {
      var k :| 0 <= k <= |t| && ExpandsElem(p[0], t[..k]) && Expands(p[1..], t[k..]);
      assert t[..k] == [e];
      assert k == 1 && t[0] == t[..k][0];
    }
    if t != [] && t[0] == e && Expands(rest, t[1..]) {
      assert t[..1] == [e];
      assert ExpandsElem(p[0], t[..1]);
    }
  }

  lemma DenotesOne(e: Elem, rest: seq<Elem>, s: string)
    requires !e.Braces? && e != Star
    ensures Denotes([e] + rest, s) <==> s != "" && Takes(e, s[0]) && Denotes(rest, s[1..])
  {
    hide Expands, ExpandsElem, Takes;
    if Denotes([e] + rest, s) {
      var t :| Expands([e] + rest, t) && Fits(t, s);
      ExpandsOne(e, rest, t);
    }
    if s != "" && Takes(e, s[0]) && Denotes(rest, s[1..]) {
      var t :| Expands(rest, t) && Fits(t, s[1..]);
      ExpandsOne(e, rest, [e] + t);
      assert ([e] + t)[1..] == t;
      assert Fits([e] + t, s);
    }
  }

  lemma DenotesStar(rest: seq<Elem>, s: string)
    ensures Denotes([Star] + rest, s) <==> exists k | 0 <= k <= |s| :: Denotes(rest, s[k..])
  {
    hide Expands, ExpandsElem, Takes;
    if Denotes([Star] + rest, s) {
      var t :| Expands([Star] + rest, t) && Fits(t, s);
      ExpandsOne(Star, rest, t);
      var k :| 0 <= k <= |s| && Fits(t[1..], s[k..]);
      assert Denotes(rest, s[k..]);
    }
    if k :| 0 <= k <= |s| && Denotes(rest, s[k..]) {
      var t :| Expands(rest, t) && Fits(t, s[k..]);
      ExpandsOne(Star, rest, [Star] + t);
      assert ([Star] + t)[1..] == t;
      assert Fits([Star] + t, s);
    }
  }

  // ------------------------------------------------------------------------------------------
  // Classes
  // ------------------------------------------------------------------------------------------

  /** The scan of one item: what it adds to the answer. */
  lemma ScanItem(i: Item, x: string, scc: char, ok: bool, lc: int) returns (lc': int)
    requires GoodItem(i)
    ensures ScanClass(ItemText(i) + x, scc, ok, lc) == ScanClass(x, scc, ok || Has(i, scc), lc')
  {
    var q := ItemText(i) + x;
    if i.One? {
      lc' := i.c as int;
      assert q[1..] == x;
    } else {
      lc' := if i.lo <= scc then i.lo as int else i.hi as int;
      var q1, q2 := ['-', i.hi] + x, [i.hi] + x;
      assert q[1..] == q1 && q1[1..] == q2 && q1[2..] == x && q2[1..] == x;
      var okLo := ok || scc == i.lo;
      assert ScanClass(q, scc, ok, lc) == ScanClass(q1, scc, okLo, i.lo as int);
      if i.lo <= scc {
        assert ScanClass(q1, scc, okLo, i.lo as int) == ScanClass(x, scc, okLo || scc <= i.hi, i.lo as int);
      } else {
        assert ScanClass(q1, scc, okLo, i.lo as int) == ScanClass(q2, scc, okLo, i.lo as int);
        assert ScanClass(q2, scc, okLo, i.lo as int) == ScanClass(x, scc, okLo || scc == i.hi, i.hi as int);
      }
    }
  }

  /** The scan of a class answers membership, and leaves what follows the class. */
  lemma {:induction false} ScanItems(items: seq<Item>, x: string, scc: char, ok: bool, lc: int)
    requires forall i :: 0 <= i < |items| ==> GoodItem(items[i])
    ensures ScanClass(ItemsText(items) + "]" + x, scc, ok, lc) ==
            if ok || Holds(items, scc) then Some(x) else None
  {
    hide Has, ItemText, GoodItem;
    if items == [] {
      assert ItemsText(items) + "]" + x == "]" + x;
      assert ("]" + x)[1..] == x;
    } else {
      hide ScanClass;
      var y := ItemsText(items[1..]) + "]" + x;
      assert ItemsText(items) + "]" + x == ItemText(items[0]) + y;
      var lc' := ScanItem(items[0], y, scc, ok, lc);
      ScanItems(items[1..], x, scc, ok || Has(items[0], scc), lc');
      HoldsHead(items, scc);
    }
  }

  lemma HoldsHead(items: seq<Item>, c: char)
    requires items != []
    ensures Holds(items, c) == (Has(items[0], c) || Holds(items[1..], c))
  {
    hide Has;
    if i :| 0 <= i < |items| && Has(items[i], c) {
      assert i > 0 ==> items[1..][i - 1] == items[i];
    }
    if i :| 0 <= i < |items[1..]| && Has(items[1..][i], c) {
      assert items[i + 1] == items[1..][i];
    }
  }

  lemma {:induction false} ClassEndItems(items: seq<Item>, x: string)
    requires forall i :: 0 <= i < |items| ==> GoodItem(items[i])
    ensures ClassEnd(ItemsText(items) + "]" + x) == |ItemsText(items)|
  {
    if items == [] {
      assert ItemsText(items) + "]" + x == "]" + x;
    } else {
      var y := ItemsText(items[1..]) + "]" + x;
      ClassEndItems(items[1..], x);
      assert GoodItem(items[0]);
      ClassEndItem(items[0], y);
      assert ItemsText(items) + "]" + x == ItemText(items[0]) + y;
    }
  }

  lemma ClassEndItem(i: Item, y: string)
    requires GoodItem(i)
    ensures ClassEnd(ItemText(i) + y) == |ItemText(i)| + ClassEnd(y)
  {
    var q := ItemText(i) + y;
    if i.One? {
      assert q[1..] == y;
    } else {
      var q1, q2 := ['-', i.hi] + y, [i.hi] + y;
      assert q[1..] == q1 && q1[1..] == q2 && q2[1..] == y;
      assert ClassEnd(q1) == 1 + ClassEnd(q2);
    }
  }

  /** A class of one range has exactly the characters between its ends when, and only when, its
    * ends are in order. */
  lemma RangeNeedsOrder(lo: char, hi: char)
    requires ClassChar(lo) && ClassChar(hi)
    ensures (forall c :: ScanClass([lo, '-', hi, ']'], c, false, NO_CHAR).Some? == (lo <= c <= hi)) <==> lo <= hi
  {
    if lo <= hi {
      forall c ensures ScanClass([lo, '-', hi, ']'], c, false, NO_CHAR).Some? == (lo <= c <= hi) {
        var items := [Range(lo, hi)];
        assert ItemsText(items[1..]) == "";
        assert ItemsText(items) + "]" + "" == [lo, '-', hi, ']'];
        ScanItems(items, "", c, false, NO_CHAR);
        HoldsHead(items, c);
      }
    } else {
      ScanKeepsOk(['-', hi, ']'], lo, lo as int);
      assert [lo, '-', hi, ']'][1..] == ['-', hi, ']'];
      assert ScanClass([lo, '-', hi, ']'], lo, false, NO_CHAR).Some?;
    }
  }

  /** If they are not, it has exactly its two ends. */
  lemma ReversedRange(lo: char, hi: char, c: char)
    requires ClassChar(lo) && ClassChar(hi) && hi < lo
    ensures ScanClass([lo, '-', hi, ']'], c, false, NO_CHAR).Some? <==> c == lo || c == hi
  {
    var tail := ['-', hi, ']'];
    assert [lo, '-', hi, ']'][1..] == tail && tail[1..] == [hi, ']'] && tail[2..] == [']'] && [hi, ']'][1..] == [']'];
    ScanKeepsOk(tail, c, lo as int);
    ScanKeepsOk([']'], c, hi as int);
    assert ScanClass([']'], c, false, lo as int).None? && ScanClass([']'], c, false, hi as int).None?;
    if lo <= c {
      assert ScanClass(tail, c, false, lo as int) == ScanClass([']'], c, c <= hi, lo as int);
    } else {
      assert ScanClass(tail, c, false, lo as int) == ScanClass([hi, ']'], c, false, lo as int);
      assert ScanClass([hi, ']'], c, false, lo as int) == ScanClass([']'], c, c == hi, hi as int);
    }
  }

  /** Once a character is in the class, the rest of the scan does not take it out. */
  lemma {:induction false} ScanKeepsOk(q: string, scc: char, lc: int)
    ensures ScanClass(q, scc, true, lc).Some?
    decreases |q|
  {
    if q != "" && q[0] != ']' {
      if q[0] == '-' {
        if lc <= scc as int {
          ScanKeepsOk(if |q| == 1 then "" else q[2..], scc, lc);
        } else {
          ScanKeepsOk(q[1..], scc, lc);
        }
      } else {
        ScanKeepsOk(q[1..], scc, q[0] as int);
      }
    }
  }

  // ------------------------------------------------------------------------------------------
  // Braces
  // ------------------------------------------------------------------------------------------

  /** The brace scans run over the whole of `u`, from nesting `from` to nesting `to`. */
  predicate Over(u: string, from: nat, to: nat)
    decreases |u|
  {
    if u == "" then from == to
    else
      (u[0] == ',' || u[0] == '}' ==> from > 0) &&
      (u[0] == '[' ==> ClassEnd(u[1..]) + 1 < |u|) &&
      Over(u[Skip(u)..], Deeper(u[0], from), to)
  }

  lemma {:induction false} ClassEndMore(u: string, x: string)
    requires ClassEnd(u) < |u|
    ensures ClassEnd(u + x) == ClassEnd(u)
  {
    if u[0] != ']' {
      ClassEndMore(u[1..], x);
      assert (u + x)[1..] == u[1..] + x;
    }
  }

  lemma SkipMore(u: string, x: string)
    requires u != "" && (u[0] == '[' ==> ClassEnd(u[1..]) + 1 < |u|)
    ensures Skip(u + x) == Skip(u)
    ensures (u + x)[Skip(u)..] == u[Skip(u)..] + x
  {
    if u[0] == '[' {
      ClassEndMore(u[1..], x);
      assert (u + x)[1..] == u[1..] + x;
    }
  }

  lemma {:induction false} OverJoin(u: string, v: string, l: nat, m: nat, n: nat)
    requires Over(u, l, m) && Over(v, m, n)
    ensures Over(u + v, l, n)
    decreases |u|
  {
    hide Deeper;
    if u == "" {
      assert u + v == v;
    } else {
      SkipMore(u, v);
      if u[0] == '[' {
        ClassEndMore(u[1..], v);
        assert (u + v)[1..] == u[1..] + v;
      }
      OverJoin(u[Skip(u)..], v, Deeper(u[0], l), m, n);
    }
  }

  lemma {:induction false} OverClose(u: string, x: string, l: nat, m: nat)
    requires Over(u, l, m)
    ensures Close(u + x, l) == |u| + Close(x, m)
    decreases |u|
  {
    hide Deeper;
    if u == "" {
      assert u + x == x;
    } else {
      SkipMore(u, x);
      OverClose(u[Skip(u)..], x, Deeper(u[0], l), m);
    }
  }

  lemma {:induction false} OverTry(s: string, cur: string, u: string, x: string, l: nat, m: nat, rest: string)
    requires Over(u, l, m)
    ensures TryAlternatives(s, cur, u + x, l, rest) == TryAlternatives(s, cur + u, x, m, rest)
    decreases |u|
  {
    hide Match, TryAlternatives, Deeper, Skip;
    if u == "" {
      assert u + x == x && cur + u == cur;
    } else {
      SkipMore(u, x);
      TryStep(s, cur, u + x, l, rest);
      assert (u + x)[..Skip(u)] == u[..Skip(u)];
      OverTry(s, cur + u[..Skip(u)], u[Skip(u)..], x, Deeper(u[0], l), m, rest);
      assert cur + u[..Skip(u)] + u[Skip(u)..] == cur + u;
    }
  }

  lemma OverNothing(l: nat)
    ensures Over("", l, l)
  {
  }

  /** The brace scans run over one character that is not theirs. */
  lemma OverChar(c: char, l: nat, m: nat)
    requires c != '[' && (c == ',' || c == '}' ==> l > 0) && m == Deeper(c, l)
    ensures Over([c], l, m)
  {
    assert [c][1..] == "";
  }

  lemma OverClass(items: seq<Item>, l: nat)
    requires forall i :: 0 <= i < |items| ==> GoodItem(items[i])
    ensures Over("[" + ItemsText(items) + "]", l, l)
  {
    var u := "[" + ItemsText(items) + "]";
    ClassEndItems(items, "");
    assert u[1..] == ItemsText(items) + "]" + "";
    assert u[Skip(u)..] == "";
  }

  lemma {:induction false} OverElem(e: Elem, l: nat)
    requires GoodElem(e, true)
    ensures Over(ElemText(e), l, l)
    decreases e
  {
    hide Over;
    match e {
      case Lit(c) => OverChar(c, l, l);
      case Any => OverChar('?', l, l);
      case Star => OverChar('*', l, l);
      case Class(items) => OverClass(items, l);
      case Braces(alts) =>
        OverChar('{', l, l + 1);
        OverAlts(alts, l + 1);
        OverChar('}', l + 1, l);
        OverJoin("{", AltsText(alts), l, l + 1, l + 1);
        OverJoin("{" + AltsText(alts), "}", l, l + 1, l);
    }
  }

  lemma {:induction false} OverAlts(alts: seq<Alternative>, l: nat)
    requires GoodAlts(alts) && l > 0
    ensures Over(AltsText(alts), l, l)
    decreases alts
  {
    hide Over, Good;
    if alts == [] {
      OverNothing(l);
    } else {
      OverText(alts[0].elems, l);
      if |alts| > 1 {
        OverChar(',', l, l);
        OverAlts(alts[1..], l);
        OverJoin(Text(alts[0].elems), ",", l, l, l);
        OverJoin(Text(alts[0].elems) + ",", AltsText(alts[1..]), l, l, l);
      }
    }
  }

  lemma {:induction false} OverText(p: seq<Elem>, l: nat)
    requires Good(p, true)
    ensures Over(Text(p), l, l)
    decreases p
  {
    hide Over, GoodElem;
    if p == [] {
      OverNothing(l);
    } else {
      OverElem(p[0], l);
      OverText(p[1..], l);
      OverJoin(ElemText(p[0]), Text(p[1..]), l, l, l);
    }
  }

  // ------------------------------------------------------------------------------------------
  // The matcher answers the meaning
  // ------------------------------------------------------------------------------------------

  lemma {:induction false} TextJoin(a: seq<Elem>, b: seq<Elem>)
    ensures Text(a + b) == Text(a) + Text(b)
  {
    hide ElemText;
    if a == [] {
      assert a + b == b;
    } else {
      assert (a + b)[1..] == a[1..] + b;
      TextJoin(a[1..], b);
    }
  }

  /** What is good inside braces is good outside. */
  lemma {:induction false} GoodOutside(p: seq<Elem>)
    requires Good(p, true)
    ensures Good(p, false)
  {
    if p != [] {
      GoodOutside(p[1..]);
    }
  }

  lemma {:induction false} GoodJoin(a: seq<Elem>, b: seq<Elem>)
    requires Good(a, false) && Good(b, false)
    ensures Good(a + b, false)
  {
    hide GoodElem;
    if a == [] {
      assert a + b == b;
    } else {
      assert (a + b)[1..] == a[1..] + b;
      GoodJoin(a[1..], b);
    }
  }

  lemma {:induction false} AlternativeIsGood(alts: seq<Alternative>, i: nat)
    requires GoodAlts(alts) && i < |alts|
    ensures Good(alts[i].elems, false)
    ensures |Text(alts[i].elems)| <= |AltsText(alts)|
  {
    hide Good, Text;
    if i == 0 {
      GoodOutside(alts[0].elems);
    } else {
      AlternativeIsGood(alts[1..], i - 1);
    }
  }

  /** Trying the alternatives from left to right finds one that fits, if there is one. */
  lemma {:induction false} TryAlts(s: string, alts: seq<Alternative>, rest: string)
    requires alts != [] && GoodAlts(alts)
    ensures TryAlternatives(s, "", AltsText(alts), 0, rest) <==>
            exists i | 0 <= i < |alts| :: Match(s, Text(alts[i].elems) + rest)
  {
    hide Match, TryAlternatives, Good, Text, Over;
    var first := Text(alts[0].elems);
    OverText(alts[0].elems, 0);
    if |alts| == 1 {
      OverTry(s, "", first, "", 0, 0, rest);
      assert first + "" == first && "" + first == first;
      LastAlternative(s, first, rest);
    } else {
      var more := AltsText(alts[1..]);
      OverTry(s, "", first, "," + more, 0, 0, rest);
      assert first + ("," + more) == AltsText(alts) && "" + first == first;
      NextAlternative(s, first, more, rest);
      TryAlts(s, alts[1..], rest);
      if i :| 0 <= i < |alts| && Match(s, Text(alts[i].elems) + rest) {
        assert i > 0 ==> alts[1..][i - 1] == alts[i];
      }
      if i :| 0 <= i < |alts[1..]| && Match(s, Text(alts[1..][i].elems) + rest) {
        assert alts[i + 1] == alts[1..][i];
      }
    }
  }

  lemma LastAlternative(s: string, cur: string, rest: string)
    ensures TryAlternatives(s, cur, "", 0, rest) == Match(s, cur + rest)
  {
    hide Match;
  }

  lemma NextAlternative(s: string, cur: string, more: string, rest: string)
    ensures TryAlternatives(s, cur, "," + more, 0, rest) ==
            (Match(s, cur + rest) || TryAlternatives(s, "", more, 0, rest))
  {
    hide Match;
    assert ("," + more)[1..] == more;
  }

  lemma MatchBraces(s: string, alts: seq<Alternative>, rest: string)
    requires alts != [] && GoodAlts(alts)
    ensures Match(s, "{" + AltsText(alts) + "}" + rest) <==>
            exists i | 0 <= i < |alts| :: Match(s, Text(alts[i].elems) + rest)
  {
    hide Match, TryAlternatives, Close, GoodAlts, AltsText, Text, Over;
    var p, u := "{" + AltsText(alts) + "}" + rest, AltsText(alts);
    OverAltsAtTop(alts, "}" + rest);
    assert p[1..] == u + ("}" + rest);
    FrontBrace(s, p, 1 + |u|);
    assert p[1..1 + |u|] == u && p[|u| + 2..] == rest;
    TryAlts(s, alts, rest);
  }

  /** The scan for the closing brace finds the one after the alternatives. */
  lemma OverAltsAtTop(alts: seq<Alternative>, x: string)
    requires GoodAlts(alts) && x != "" && x[0] == '}'
    ensures Close(AltsText(alts) + x, 0) == |AltsText(alts)|
  {
    hide GoodAlts, AltsText, Over;
    CloseAlts(alts, x);
  }

  lemma {:induction false} CloseAlts(alts: seq<Alternative>, x: string)
    requires GoodAlts(alts)
    ensures Close(AltsText(alts) + x, 0) == |AltsText(alts)| + Close(x, 0)
  {
    hide Good, Text, Over, Close;
    if alts == [] {
      assert AltsText(alts) + x == x;
    } else {
      var first := Text(alts[0].elems);
      OverText(alts[0].elems, 0);
      if |alts| == 1 {
        OverClose(first, x, 0, 0);
      } else {
        var y := AltsText(alts[1..]) + x;
        CloseAlts(alts[1..], x);
        OverClose(first, "," + y, 0, 0);
        CloseComma(y);
        assert AltsText(alts) + x == first + ("," + y);
      }
    }
  }

  lemma CloseComma(y: string)
    ensures Close("," + y, 0) == 1 + Close(y, 0)
  {
    assert ("," + y)[1..] == y;
  }

  lemma {:induction false} TryFromAt(s: string, p: string)
    ensures TryFrom(s, p) <==> exists k | 0 <= k <= |s| :: Match(s[k..], p)
    decreases |s|
  {
    hide Match;
    assert s[0..] == s;
    if s != "" {
      TryFromAt(s[1..], p);
      if k :| 0 <= k <= |s| && Match(s[k..], p) {
        assert k > 0 ==> s[1..][k - 1..] == s[k..];
      }
      if k :| 0 <= k <= |s[1..]| && Match(s[1..][k..], p) {
        assert s[1..][k..] == s[k + 1..];
      }
    }
  }

  /** One step of the matcher at an element that takes one character. */
  lemma MatchOne(s: string, e: Elem, rest: string)
    requires !e.Braces? && e != Star && GoodElem(e, false)
    ensures Match(s, ElemText(e) + rest) == (s != "" && Takes(e, s[0]) && Match(s[1..], rest))
  {
    hide TryAlternatives, TryFrom, Close, ScanClass;
    var p := ElemText(e) + rest;
    if e.Class? {
      assert p[1..] == ItemsText(e.items) + "]" + rest;
      if s != "" {
        ScanItems(e.items, rest, s[0], false, NO_CHAR);
      }
    } else {
      assert p[1..] == rest;
    }
  }

  lemma MatchStar(s: string, rest: string)
    requires rest != "" ==> rest[0] != '/'
    ensures Match(s, "*" + rest) <==> rest == "" || exists k | 0 <= k <= |s| :: Match(s[k..], rest)
  {
    hide TryAlternatives, TryFrom, Close, ScanClass;
    assert ("*" + rest)[1..] == rest;
    TryFromAt(s, rest);
  }

  lemma TextFront(p: seq<Elem>)
    requires Good(p, false)
    ensures p == [] <==> Text(p) == ""
    ensures p != [] ==> Text(p)[0] != '/'
  {
  }

  /** The matcher says yes exactly when the name fits some expansion of the pattern: for every
    * name and every pattern without slashes, balanced, with its ranges in order. */
  lemma {:induction false} MatchIsMeaning(s: string, p: seq<Elem>)
    requires Good(p, false)
    ensures Match(s, Text(p)) <==> Denotes(p, s)
    decreases |Text(p)|, 1
  {
    hide Match, Denotes, ElemText, Takes;
    if p == [] {
      NothingMatches(s);
    } else {
      var e, rest := p[0], p[1..];
      assert p == [e] + rest;
      if e == Star {
        TextOfStar(rest);
        StarCase(s, rest);
      } else if e.Braces? {
        TextOfBraces(e.alts, rest);
        BracesCase(s, e.alts, rest);
      } else {
        MatchOne(s, e, Text(rest));
        DenotesOne(e, rest, s);
        if s != "" {
          MatchIsMeaning(s[1..], rest);
        }
      }
    }
  }

  lemma NothingMatches(s: string)
    ensures Match(s, "") <==> s == ""
    ensures Match(s, "") <==> Denotes([], s)
  {
    assert Expands([], []);
    assert Fits([], s) == (s == "");
  }

  lemma StarCase(s: string, rest: seq<Elem>)
    requires Good(rest, false)
    ensures Match(s, Text([Star] + rest)) <==> Denotes([Star] + rest, s)
    decreases |Text(rest)| + 1, 0
  {
    hide Match, Denotes, Text;
    TextOfStar(rest);
    DenotesStar(rest, s);
    TextFront(rest);
    if rest == [] {
      NothingMatches(s[|s|..]);
      assert Match(s[|s|..], Text(rest));
    }
    MatchStar(s, Text(rest));
    forall k | 0 <= k <= |s| ensures Match(s[k..], Text(rest)) <==> Denotes(rest, s[k..]) {
      MatchIsMeaning(s[k..], rest);
    }
  }

  lemma BracesCase(s: string, alts: seq<Alternative>, rest: seq<Elem>)
    requires alts != [] && GoodAlts(alts) && Good(rest, false)
    ensures Match(s, Text([Braces(alts)] + rest)) <==> Denotes([Braces(alts)] + rest, s)
    decreases |AltsText(alts)| + |Text(rest)| + 2, 0
  {
    hide Match, Denotes, Text, Good, GoodAlts;
    TextOfBraces(alts, rest);
    DenotesBraces(alts, rest, s);
    MatchBraces(s, alts, Text(rest));
    forall i | 0 <= i < |alts|
      ensures Match(s, Text(alts[i].elems) + Text(rest)) <==> Denotes(alts[i].elems + rest, s)
    {
      AlternativeIsGood(alts, i);
      GoodJoin(alts[i].elems, rest);
      TextJoin(alts[i].elems, rest);
      MatchIsMeaning(s, alts[i].elems + rest);
    }
  }

  lemma TextOfStar(rest: seq<Elem>)
    ensures Text([Star] + rest) == "*" + Text(rest)
  {
    assert ([Star] + rest)[1..] == rest;
  }

  lemma TextOfBraces(alts: seq<Alternative>, rest: seq<Elem>)
    ensures Text([Braces(alts)] + rest) == "{" + AltsText(alts) + "}" + Text(rest)
  {
    assert ([Braces(alts)] + rest)[1..] == rest;
  }
}
