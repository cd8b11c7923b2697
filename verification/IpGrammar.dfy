/** What a line of the address table looks like, and what it then says. */
module IpGrammar {
  import opened IpRange
  import opened Options

  // ------------------------------------------------------------------------------------------
  // Components
  // ------------------------------------------------------------------------------------------

  /** One component of an address, as it is written. */
  datatype Written = Star | One(ds: string) | Pair(lo: string, hi: string)

  predicate IsNumber(ds: string) {
    ds != "" && AreDigits(ds)
  }

  predicate Numeric(w: Written) {
    match w
    case Star => true
    case One(ds) => IsNumber(ds)
    case Pair(lo, hi) => IsNumber(lo) && IsNumber(hi)
  }

  function Text(w: Written): string {
    match w
    case Star => "*"
    case One(ds) => ds
    case Pair(lo, hi) => lo + "-" + hi
  }

  /** The numbers, modulo 2^64, are bytes. */
  predicate InRange(w: Written)
    requires Numeric(w)
  {
    match w
    case Star => true
    case One(ds) => Value(ds) % 0x1_0000_0000_0000_0000 <= 255
    case Pair(lo, hi) =>
      Value(lo) % 0x1_0000_0000_0000_0000 <= 255 && Value(hi) % 0x1_0000_0000_0000_0000 <= 255
  }

  /** What a component stands for. */
  function Meaning(w: Written): Bound
    requires Numeric(w) && InRange(w)
  {
    match w
    case Star => Bound(0, 255)
    case One(ds) => var v := Value(ds) % 0x1_0000_0000_0000_0000; Bound(v, v)
    case Pair(lo, hi) => Bound(Value(lo) % 0x1_0000_0000_0000_0000, Value(hi) % 0x1_0000_0000_0000_0000)
  }

  /** `y` does not go on with the component. */
  predicate Stops(w: Written, y: string) {
    y == "" || w.Star? || (!IsDigit(y[0]) && (w.One? ==> y[0] != '-'))
  }

  lemma NumReads(ds: string, y: string)
    requires IsNumber(ds) && (y == "" || !IsDigit(y[0]))
    ensures Num(ds + y) ==
            if Value(ds) % 0x1_0000_0000_0000_0000 <= 255 then Some((Value(ds) % 0x1_0000_0000_0000_0000, y)) else None
  {
    AllDigits(ds);
    DigitsStop(ds, y);
    assert (ds + y)[..|ds|] == ds && (ds + y)[|ds|..] == y;
    hide Value, Digits, IsDigit;
  }

  lemma NumIs(t: string) returns (ds: string, y: string)
    requires Num(t).Some?
    ensures IsNumber(ds) && (y == "" || !IsDigit(y[0])) && t == ds + y
    ensures Value(ds) % 0x1_0000_0000_0000_0000 <= 255
    ensures Num(t) == Some((Value(ds) % 0x1_0000_0000_0000_0000, y))
  {
    ds, y := t[..Digits(t)], t[Digits(t)..];
    assert t == ds + y;
  }

  /** A component, if nothing goes on with it, is read as what it stands for, or refused if a number is
    * too large. */
  lemma ComponentReads(w: Written, y: string)
    requires Numeric(w) && Stops(w, y)
    ensures Component(Text(w) + y) == if InRange(w) then Some((Meaning(w), y)) else None
  {
    hide Num, Value;
    match w
    case Star => assert ("*" + y)[1..] == y;
    case One(ds) => NumReads(ds, y);
    case Pair(lo, hi) =>
      var tail := "-" + (hi + y);
      assert Text(w) + y == lo + tail && tail[1..] == hi + y;
      NumReads(lo, tail);
      NumReads(hi, y);
  }

  /** Nothing else is read. */
  lemma ComponentIs(t: string) returns (w: Written, y: string)
    requires Component(t).Some?
    ensures Numeric(w) && InRange(w) && Stops(w, y) && t == Text(w) + y
    ensures Component(t) == Some((Meaning(w), y))
  {
    hide Num, Value;
    if t != "" && t[0] == '*' {
      w, y := Star, t[1..];
      assert t == "*" + y;
    } else {
      var ds, rest := NumIs(t);
      if rest == "" || rest[0] != '-' {
        w, y := One(ds), rest;
      } else {
        var hi;
        hi, y := NumIs(rest[1..]);
        w := Pair(ds, hi);
        assert rest == "-" + (hi + y);
        assert ds + ("-" + (hi + y)) == Text(w) + y;
      }
    }
  }

  // ------------------------------------------------------------------------------------------
  // Addresses
  // ------------------------------------------------------------------------------------------

  /** Components, each with a dot in front. */
  function Dotted(ws: seq<Written>): string {
    if ws == [] then "" else "." + Text(ws[0]) + Dotted(ws[1..])
  }

  function Joined(ws: seq<Written>): string {
    if ws == [] then "" else Text(ws[0]) + Dotted(ws[1..])
  }

  predicate AllNumeric(ws: seq<Written>) {
    forall i :: 0 <= i < |ws| ==> Numeric(ws[i])
  }

  predicate AllInRange(ws: seq<Written>)
    requires AllNumeric(ws)
  {
    forall i :: 0 <= i < |ws| ==> InRange(ws[i])
  }

  /** `bs` are the bounds of the components, with stars for those that are missing. */
  predicate Says(ws: seq<Written>, bs: seq<Bound>)
    requires AllNumeric(ws) && AllInRange(ws)
  {
    && |ws| <= |bs|
    && forall i :: 0 <= i < |bs| ==> bs[i] == if i < |ws| then Meaning(ws[i]) else Bound(0, 255)
  }

  /** Where an address of up to `n` components may end: at a space, or, if it has all of them, at
    * anything that does not go on with the last one. */
  predicate Ends(ws: seq<Written>, y: string, n: nat) {
    |ws| <= n && if |ws| < n then y != "" && IsSpace(y[0]) else ws == [] || Stops(ws[|ws| - 1], y)
  }

  lemma {:induction false} StarsSay(n: nat)
    ensures |Stars(n)| == n && forall i :: 0 <= i < n ==> Stars(n)[i] == Bound(0, 255)
  {
    if n > 0 {
      StarsSay(n - 1);
    }
  }

  /** Reading one component and then the others. */
  lemma BoundsNext(w: Written, y: string, n: nat)
    requires 1 <= n <= 4 && Numeric(w) && Stops(w, y)
    ensures Bounds((if n < 4 then "." else "") + (Text(w) + y), n) ==
            if InRange(w) && Bounds(y, n - 1).Some? then Some([Meaning(w)] + Bounds(y, n - 1).value) else None
  {
    ComponentReads(w, y);
    var t := (if n < 4 then "." else "") + (Text(w) + y);
    assert n < 4 ==> t[1..] == Text(w) + y;
    assert n == 4 ==> t == Text(w) + y;
    TextFront(w);
    hide Component, Stops, Meaning, Numeric, InRange, Text;
  }

  lemma TextFront(w: Written)
    requires Numeric(w)
    ensures Text(w) != "" && !IsSpace(Text(w)[0])
  {
  }

  lemma SaysNext(ws: seq<Written>, bs: seq<Bound>)
    requires ws != [] && AllNumeric(ws) && InRange(ws[0]) && AllInRange(ws[1..]) && Says(ws[1..], bs)
    ensures AllInRange(ws) && Says(ws, [Meaning(ws[0])] + bs)
  {
    hide Meaning, InRange, Numeric;
    assert forall i :: 0 < i < |ws| ==> ws[i] == ws[1..][i - 1];
  }

  lemma EndsLater(ws: seq<Written>, y: string, n: nat)
    requires ws != [] && Ends(ws, y, n)
    ensures 1 <= n && Ends(ws[1..], y, n - 1) && Stops(ws[0], Dotted(ws[1..]) + y)
  {
    if |ws| == 1 {
      assert Dotted(ws[1..]) + y == y;
    } else {
      assert (Dotted(ws[1..]) + y)[0] == '.';
    }
  }

  /** The components that are left, `n` of them at most. */
  function Left(ws: seq<Written>, n: nat): string {
    if n < 4 then Dotted(ws) else Joined(ws)
  }

  lemma LeftNext(ws: seq<Written>, y: string, n: nat)
    requires ws != []
    ensures Left(ws, n) + y == (if n < 4 then "." else "") + (Text(ws[0]) + (Dotted(ws[1..]) + y))
  {
    hide Text;
  }

  lemma {:induction false} BoundsReads(ws: seq<Written>, y: string, n: nat)
    requires n <= 4 && AllNumeric(ws) && Ends(ws, y, n)
    ensures var r := Bounds(Left(ws, n) + y, n);
            if AllInRange(ws) then r.Some? && |r.value| == n && Says(ws, r.value) else r == None
    decreases |ws|
  {
    if ws == [] {
      StarsSay(n);
      assert Left(ws, n) + y == y;
    } else {
      EndsLater(ws, y, n);
      var rest := Dotted(ws[1..]) + y;
      LeftNext(ws, y, n);
      BoundsNext(ws[0], rest, n);
      BoundsReads(ws[1..], y, n - 1);
      hide *;
      assert Left(ws[1..], n - 1) + y == rest by { LeftIsDotted(ws[1..], n - 1); }
      SplitRange(ws);
      if AllInRange(ws) {
        SaysNext(ws, Bounds(rest, n - 1).value);
      }
    }
  }

  lemma LeftIsDotted(ws: seq<Written>, n: nat)
    requires n < 4
    ensures Left(ws, n) == Dotted(ws)
  {
  }

  lemma SplitRange(ws: seq<Written>)
    requires ws != [] && AllNumeric(ws)
    ensures AllNumeric(ws[1..]) && (AllInRange(ws) <==> InRange(ws[0]) && AllInRange(ws[1..]))
  {
    hide Numeric, InRange;
    if InRange(ws[0]) && AllInRange(ws[1..]) {
      forall i | 0 <= i < |ws|
        ensures InRange(ws[i])
      {
        assert i > 0 ==> ws[i] == ws[1..][i - 1];
      }
    }
  }

  lemma {:induction false} BoundsAre(t: string, n: nat) returns (ws: seq<Written>, y: string)
    requires n <= 4 && Bounds(t, n).Some?
    ensures AllNumeric(ws) && AllInRange(ws) && Ends(ws, y, n) && t == Left(ws, n) + y
    decreases n
  {
    if n == 0 || (t != "" && IsSpace(t[0])) {
      ws, y := [], t;
    } else {
      var c := if n < 4 then t[1..] else t;
      assert t == (if n < 4 then "." else "") + c;
      var w, rest := ComponentIs(c);
      ws, y := BoundsAre(rest, n - 1);
      hide *;
      LeftIsDotted(ws, n - 1);
      EndsBefore(w, ws, y, n);
      NumericBefore(w, ws);
      LeftNext([w] + ws, y, n);
      assert ([w] + ws)[1..] == ws;
      ws := [w] + ws;
    }
  }

  lemma NumericBefore(w: Written, ws: seq<Written>)
    requires Numeric(w) && InRange(w) && AllNumeric(ws) && AllInRange(ws)
    ensures AllNumeric([w] + ws) && AllInRange([w] + ws)
  {
    hide Numeric, InRange;
  }

  lemma EndsBefore(w: Written, ws: seq<Written>, y: string, n: nat)
    requires 1 <= n && Ends(ws, y, n - 1) && Stops(w, Dotted(ws) + y)
    ensures Ends([w] + ws, y, n)
  {
    if ws == [] {
      assert Dotted(ws) + y == y;
    }
  }

  /** An address is read if and only if it is written as up to four components, whose numbers are bytes
    * modulo 2^64, up to a space if they are fewer; what is read is what they stand for, with stars for
    * those that are missing. */
  lemma AddressIs(t: string, bs: seq<Bound>)
    ensures Bounds(t, 4) == Some(bs) <==>
            |bs| == 4 && exists ws, y ::
              AllNumeric(ws) && AllInRange(ws) && Ends(ws, y, 4) && t == Joined(ws) + y && Says(ws, bs)
  {
    if Bounds(t, 4) == Some(bs) {
      var ws, y := BoundsAre(t, 4);
      BoundsReads(ws, y, 4);
      assert Left(ws, 4) == Joined(ws);
    }
    if |bs| == 4 && exists ws, y ::
         AllNumeric(ws) && AllInRange(ws) && Ends(ws, y, 4) && t == Joined(ws) + y && Says(ws, bs)
    {
      var ws, y :|
        AllNumeric(ws) && AllInRange(ws) && Ends(ws, y, 4) && t == Joined(ws) + y && Says(ws, bs);
      BoundsReads(ws, y, 4);
      assert Left(ws, 4) == Joined(ws);
      SameSays(ws, bs, Bounds(t, 4).value);
    }
  }

  lemma SameSays(ws: seq<Written>, bs: seq<Bound>, cs: seq<Bound>)
    requires AllNumeric(ws) && AllInRange(ws) && Says(ws, bs) && Says(ws, cs) && |bs| == |cs|
    ensures bs == cs
  {
    hide Meaning, InRange, Numeric;
  }

  /** What up to three digits write. */
  lemma ShortValue(a: char, b: char, c: char)
    requires IsDigit(a) && IsDigit(b) && IsDigit(c)
    ensures Value([a]) == (a - '0') as nat
    ensures Value([a, b]) == 10 * (a - '0') as nat + (b - '0') as nat
    ensures Value([a, b, c]) == 100 * (a - '0') as nat + 10 * (b - '0') as nat + (c - '0') as nat
  {
    assert [a][..0] == [] && [a, b][..1] == [a] && [a, b, c][..2] == [a, b];
  }

  // ------------------------------------------------------------------------------------------
  // Lines
  // ------------------------------------------------------------------------------------------

  predicate Blank(t: string) {
    forall k :: 0 <= k < |t| ==> t[k] == ' ' || 9 <= t[k] as int <= 13
  }

  lemma {:induction false} SkipBlank(b: string, y: string)
    requires Blank(b)
    ensures SkipSpace(b + y) == SkipSpace(y)
  {
    if b == "" {
      assert b + y == y;
    } else {
      assert (b + y)[1..] == b[1..] + y;
      SkipBlank(b[1..], y);
    }
  }

  lemma {:induction false} SkipIs(t: string) returns (b: string)
    ensures Blank(b) && t == b + SkipSpace(t)
  {
    b := "";
    if t != "" && IsSpace(t[0]) {
      b := SkipIs(t[1..]);
      b := [t[0]] + b;
    }
  }

  lemma {:induction false} TrimBlank(m: string, b: string)
    requires Blank(b) && (m == "" || !IsSpace(m[|m| - 1]))
    ensures TrimEnd(m + b) == m
    decreases |b|
  {
    if b == "" {
      assert m + b == m;
    } else {
      assert (m + b)[..|m + b| - 1] == m + b[..|b| - 1];
      TrimBlank(m, b[..|b| - 1]);
    }
  }

  /** The parts of a line that says something: an address or a name, a type and a message, with spaces
    * around them. */
  datatype Parts = Parts(indent: string, word: string, gap: string, kind: char, space: string, message: string,
                         end: string)

  function LineOf(p: Parts): string {
    p.indent + (p.word + (p.gap + ([p.kind] + (p.space + (p.message + p.end)))))
  }

  predicate Proper(p: Parts) {
    && Blank(p.indent) && p.word != "" && NoSpace(p.word) && p.word[0] != '#'
    && Blank(p.gap) && p.gap != "" && !IsSpace(p.kind) && p.kind != '#'
    && Blank(p.space) && Trimmed(p.message) && Blank(p.end)
  }

  /** What a line with these parts says: a numeric address is read up to where it ends, which may be
    * before the word does, and any other word is a name to be looked up. */
  lemma LineReads(p: Parts)
    requires Proper(p)
    ensures var t := p.word + (p.gap + ([p.kind] + (p.space + (p.message + p.end))));
            Parse(LineOf(p)) ==
            if p.word[0] != '*' && !('0' <= p.word[0] <= '9') then Lookup(p.word, p.kind, p.message)
            else if Bounds(t, 4).Some? then Entry(Range(Bounds(t, 4).value, p.kind, p.message))
            else Nothing
  {
    var text := p.message + p.end;
    var m := [p.kind] + (p.space + text);
    var t := p.word + (p.gap + m);
    SkipBlank(p.indent, t);
    NothingToSkip(t);
    WordIs(p.word, p.gap + m);
    assert t[..|p.word|] == p.word && t[|p.word|..] == p.gap + m;
    SkipBlank(p.gap, m);
    NothingToSkip(m);
    assert m[1..] == p.space + text;
    SkipBlank(p.space, text);
    MessageIs(p.message, p.end);
    hide Bounds, Word, SkipSpace, TrimEnd, IsSpace;
  }

  lemma MessageIs(message: string, end: string)
    requires Trimmed(message) && Blank(end)
    ensures TrimEnd(SkipSpace(message + end)) == message
  {
    if message == "" {
      assert "" + end == end && end + "" == end;
      SkipBlank(end, "");
    } else {
      NothingToSkip(message + end);
      TrimBlank(message, end);
    }
  }

  lemma {:induction false} WordHasNoSpace(t: string)
    ensures NoSpace(t[..Word(t)]) && (Word(t) < |t| ==> IsSpace(t[Word(t)]))
  {
    if t != "" && !IsSpace(t[0]) {
      WordHasNoSpace(t[1..]);
      assert t[..Word(t)] == [t[0]] + t[1..][..Word(t[1..])];
    }
  }

  lemma {:induction false} TrimIs(t: string) returns (b: string)
    ensures Blank(b) && t == TrimEnd(t) + b
    decreases |t|
  {
    b := "";
    if t == "" || !IsSpace(t[|t| - 1]) {
      assert t + "" == t;
    } else {
      b := TrimIs(t[..|t| - 1]);
      b := b + [t[|t| - 1]];
      assert t == t[..|t| - 1] + [t[|t| - 1]];
    }
  }

  /** Every line that says something has these parts. */
  lemma LineIs(line: string) returns (p: Parts)
    requires Parse(line) != Nothing
    ensures Proper(p) && line == LineOf(p)
  {
    var t := SkipSpace(line);
    var indent := SkipIs(line);
    var word, rest := t[..Word(t)], t[Word(t)..];
    WordHasNoSpace(t);
    var m := SkipSpace(rest);
    var gap := SkipIs(rest);
    var text := SkipSpace(m[1..]);
    var space := SkipIs(m[1..]);
    var end := TrimIs(text);
    TrimKeepsFront(text);
    assert word != "" && word[0] == t[0];
    assert gap != "";
    p := Parts(indent, word, gap, m[0], space, TrimEnd(text), end);
    hide *;
    assert Proper(p) by { ProperIs(p); }
    CutAt(t, |word|);
    CutAt(m, 1);
    FirstItem(m);
    assert m == [m[0]] + (space + (TrimEnd(text) + end));
    assert line == LineOf(p) by { LineOfIs(p); }
  }

  lemma ProperIs(p: Parts)
    requires Blank(p.indent) && p.word != "" && NoSpace(p.word) && p.word[0] != '#'
    requires Blank(p.gap) && p.gap != "" && !IsSpace(p.kind) && p.kind != '#'
    requires Blank(p.space) && Trimmed(p.message) && Blank(p.end)
    ensures Proper(p)
  {
  }

  lemma LineOfIs(p: Parts)
    ensures LineOf(p) == p.indent + (p.word + (p.gap + ([p.kind] + (p.space + (p.message + p.end)))))
  {
  }

  lemma CutAt(t: string, n: nat)
    requires n <= |t|
    ensures t == t[..n] + t[n..]
  {
  }

  lemma FirstItem(t: string)
    requires t != ""
    ensures t[..1] == [t[0]]
  {
  }
}
