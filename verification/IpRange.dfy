/** The table of host addresses: the lines it is read from, the lines it is written to, and the
  * lookup. */
module IpRange {
  import opened Options

  type Byte = b: nat | b <= 0xff witness 0

  /** The number of values of an `unsigned long`: a longer number wraps. */
  const ULONG: nat := 0x1_0000_0000_0000_0000

  datatype Bound = Bound(lo: Byte, hi: Byte)

  /** An entry: the bounds of the four bytes, the first one of the address in front, and the text:
    * the type letter and the message. */
  datatype Range = Range(bounds: seq<Bound>, kind: char, message: string)

  /** What a line says: nothing, an entry, or a host name that has to be looked up. */
  datatype Line = Nothing | Entry(range: Range) | Lookup(host: string, kind: char, message: string)

  predicate IsSpace(c: char) {
    c == ' ' || '\t' <= c <= '\r'
  }

  predicate IsDigit(c: char) {
    '0' <= c <= '9'
  }

  // ------------------------------------------------------------------------------------------
  // Reading
  // ------------------------------------------------------------------------------------------

  function Digits(t: string): (n: nat)
    ensures n <= |t|
    ensures forall k :: 0 <= k < n ==> IsDigit(t[k])
    ensures n < |t| ==> !IsDigit(t[n])
  {
    if t == "" || !IsDigit(t[0]) then 0 else 1 + Digits(t[1..])
  }

  /** The number that the digits write. */
  function Value(ds: string): nat
    requires forall k :: 0 <= k < |ds| ==> IsDigit(ds[k])
  {
    if ds == "" then 0
    else
      assert IsDigit(ds[|ds| - 1]);
      10 * Value(ds[..|ds| - 1]) + (ds[|ds| - 1] - '0') as nat
  }

  /** A number and what follows it. */
  function Num(t: string): (r: Option<(Byte, string)>)
    ensures r.Some? ==> |r.value.1| < |t|
  {
    var n := Digits(t);
    if n == 0 || Value(t[..n]) % ULONG > 0xff then None else Some((Value(t[..n]) % ULONG, t[n..]))
  }

  /** A number, two numbers around a dash, or a star. */
  function Component(t: string): (r: Option<(Bound, string)>)
    ensures r.Some? ==> |r.value.1| < |t|
  {
    if t != "" && t[0] == '*' then Some((Bound(0, 0xff), t[1..]))
    else if Num(t).None? then None
    else
      var (lo, rest) := Num(t).value;
      if rest == "" || rest[0] != '-' then Some((Bound(lo, lo), rest))
      else if Num(rest[1..]).None? then None
      else Some((Bound(lo, Num(rest[1..]).value.0), Num(rest[1..]).value.1))
  }

  function Stars(n: nat): (bs: seq<Bound>)
    ensures |bs| == n
  {
    if n == 0 then [] else [Bound(0, 0xff)] + Stars(n - 1)
  }

  /** The bounds that are left to read, `n` of them; all but the first of four follow a dot. */
  function Bounds(t: string, n: nat): (r: Option<seq<Bound>>)
    requires n <= 4
    ensures r.Some? ==> |r.value| == n
    decreases n
  {
    if n == 0 then Some([])
    else if t != "" && IsSpace(t[0]) then Some(Stars(n))
    else if n < 4 && (t == "" || t[0] != '.') then None
    else
      var c := Component(if n < 4 then t[1..] else t);
      if c.None? then None
      else
        var more := Bounds(c.value.1, n - 1);
        if more.None? then None else Some([c.value.0] + more.value)
  }

  /** The number of characters before the first space. */
  function Word(t: string): (n: nat)
    ensures n <= |t|
  {
    if t == "" || IsSpace(t[0]) then 0 else 1 + Word(t[1..])
  }

  function SkipSpace(t: string): (r: string)
    ensures |r| <= |t|
    ensures r == "" || !IsSpace(r[0])
  {
    if t == "" || !IsSpace(t[0]) then t else SkipSpace(t[1..])
  }

  function TrimEnd(t: string): (r: string)
    ensures r == "" || !IsSpace(r[|r| - 1])
  {
    if t == "" || !IsSpace(t[|t| - 1]) then t else TrimEnd(t[..|t| - 1])
  }

  function Parse(line: string): Line {
    var t := SkipSpace(line);
    if t == "" || t[0] == '#' then Nothing
    else
      var m := SkipSpace(t[Word(t)..]);
      if m == "" || m[0] == '#' then Nothing
      else
        var message := TrimEnd(SkipSpace(m[1..]));
        if t[0] != '*' && !IsDigit(t[0]) then Lookup(t[..Word(t)], m[0], message)
        else
          var bounds := Bounds(t, 4);
          if bounds.None? then Nothing else Entry(Range(bounds.value, m[0], message))
  }

  // ------------------------------------------------------------------------------------------
  // Writing
  // ------------------------------------------------------------------------------------------

  function Decimal(n: nat): (ds: string)
    ensures ds != "" && forall k :: 0 <= k < |ds| ==> IsDigit(ds[k])
  {
    var d := [('0' as int + n % 10) as char];
    if n < 10 then d else Decimal(n / 10) + d
  }

  function BoundText(b: Bound): string {
    Decimal(b.lo) + "-" + Decimal(b.hi)
  }

  function BoundsText(bs: seq<Bound>): string {
    if bs == [] then "" else if |bs| == 1 then BoundText(bs[0]) else BoundText(bs[0]) + "." + BoundsText(bs[1..])
  }

  /** The line for an entry. */
  function Dump(r: Range): string {
    BoundsText(r.bounds) + "  " + [r.kind] + "  " + r.message + "\n"
  }

  // ------------------------------------------------------------------------------------------
  // What is written is read back
  // ------------------------------------------------------------------------------------------

  lemma {:induction false} DecimalValue(n: nat)
    ensures Value(Decimal(n)) == n
  {
    var d := [('0' as int + n % 10) as char];
    if n < 10 {
      assert Value(d[..0]) == 0;
    } else {
      DecimalValue(n / 10);
      assert (Decimal(n / 10) + d)[..|Decimal(n / 10)|] == Decimal(n / 10);
    }
  }

  /** What follows the digits does not matter, if it is not one more. */
  lemma {:induction false} DigitsStop(a: string, y: string)
    requires y != "" ==> !IsDigit(y[0])
    ensures Digits(a + y) == Digits(a)
  {
    if a == "" {
      assert a + y == y;
    } else {
      assert (a + y)[1..] == a[1..] + y;
      DigitsStop(a[1..], y);
    }
  }

  lemma NumStop(a: string, y: string)
    requires y != "" ==> !IsDigit(y[0])
    ensures Num(a + y) == if Num(a).None? then None else Some((Num(a).value.0, Num(a).value.1 + y))
  {
    DigitsStop(a, y);
    var n := Digits(a);
    assert (a + y)[..n] == a[..n] && (a + y)[n..] == a[n..] + y;
  }

  /** What follows a component does not matter, if it cannot go on with it. */
  lemma ComponentStop(a: string, y: string)
    requires y != "" && !IsDigit(y[0]) && y[0] != '-' && y[0] != '*'
    ensures Component(a + y) ==
            if Component(a).None? then None else Some((Component(a).value.0, Component(a).value.1 + y))
  {
    hide Num, IsDigit;
    NumStop(a, y);
    if a != "" && a[0] == '*' {
      assert (a + y)[1..] == a[1..] + y;
    } else if Num(a).Some? {
      var rest := Num(a).value.1;
      if rest != "" && rest[0] == '-' {
        NumStop(rest[1..], y);
        assert (rest + y)[1..] == rest[1..] + y;
      }
    }
  }

  lemma {:induction false} AllDigits(ds: string)
    requires forall k :: 0 <= k < |ds| ==> IsDigit(ds[k])
    ensures Digits(ds) == |ds|
  {
    if ds != "" {
      AllDigits(ds[1..]);
    }
  }

  lemma SmallNumber(n: nat)
    requires n <= 0xff
    ensures n % ULONG == n
  {
  }

  lemma NumDecimal(n: Byte, y: string)
    requires y != "" ==> !IsDigit(y[0])
    ensures Num(Decimal(n) + y) == Some((n, y))
  {
    hide Decimal, Digits, Value, IsDigit;
    var ds := Decimal(n);
    AllDigits(ds);
    DecimalValue(n);
    SmallNumber(n);
    DigitsStop(ds, y);
    assert (ds + y)[..|ds|] == ds && (ds + y)[|ds|..] == y;
  }

  lemma ComponentOfText(b: Bound, y: string)
    requires y != "" ==> !IsDigit(y[0])
    ensures Component(BoundText(b) + y) == Some((b, y))
  {
    hide Num, Decimal;
    var tail := "-" + (Decimal(b.hi) + y);
    assert BoundText(b) + y == Decimal(b.lo) + tail;
    NumDecimal(b.lo, tail);
    NumDecimal(b.hi, y);
    assert tail[1..] == Decimal(b.hi) + y;
    assert IsDigit(Decimal(b.lo)[0]);
  }

  predicate NoSpace(t: string) {
    forall k :: 0 <= k < |t| ==> !IsSpace(t[k])
  }

  lemma {:induction false} BoundsTextFront(bs: seq<Bound>)
    requires bs != []
    ensures BoundsText(bs) != "" && IsDigit(BoundsText(bs)[0]) && NoSpace(BoundsText(bs))
  {
    hide Decimal;
    assert IsDigit(Decimal(bs[0].lo)[0]);
    assert NoSpace(BoundText(bs[0]));
    if |bs| > 1 {
      BoundsTextFront(bs[1..]);
    }
  }

  /** One round of the reading loop, at a component. */
  lemma BoundsStep(c: string, n: nat, b: Bound, rest: string)
    requires 1 <= n <= 4 && c != "" && !IsSpace(c[0]) && Component(c) == Some((b, rest))
    ensures Bounds((if n < 4 then "." else "") + c, n) ==
            if Bounds(rest, n - 1).None? then None else Some([b] + Bounds(rest, n - 1).value)
  {
    hide Component;
    var t := (if n < 4 then "." else "") + c;
    assert n < 4 ==> t[1..] == c;
    assert n == 4 ==> t == c;
  }

  /** What follows the first bounds of a text. */
  function AfterFirst(bs: seq<Bound>, y: string): string
    requires bs != []
  {
    if |bs| == 1 then y else "." + BoundsText(bs[1..]) + y
  }

  lemma {:induction false} FirstOfText(bs: seq<Bound>, y: string)
    requires bs != [] && y != "" && IsSpace(y[0])
    ensures BoundsText(bs) + y == BoundText(bs[0]) + AfterFirst(bs, y)
    ensures AfterFirst(bs, y) != "" && !IsDigit(AfterFirst(bs, y)[0])
  {
    hide BoundText;
    if |bs| > 1 {
      assert BoundsText(bs) == BoundText(bs[0]) + "." + BoundsText(bs[1..]);
      assert AfterFirst(bs, y)[0] == '.';
    }
  }

  /** The bounds that are written are read back. */
  lemma {:induction false} BoundsOfText(bs: seq<Bound>, y: string)
    requires 1 <= |bs| <= 4 && y != "" && IsSpace(y[0])
    ensures Bounds((if |bs| < 4 then "." else "") + (BoundsText(bs) + y), |bs|) == Some(bs)
  {
    hide *;
    var t, more := BoundsText(bs) + y, AfterFirst(bs, y);
    FirstOfText(bs, y);
    ComponentOfText(bs[0], more);
    BoundsTextFront(bs);
    assert t[0] == BoundsText(bs)[0];
    DigitIsNoSpace(t[0]);
    BoundsStep(t, |bs|, bs[0], more);
    RestOfText(bs, y);
    if |bs| == 1 {
      NoMoreBounds(y);
    } else {
      BoundsOfText(bs[1..], y);
    }
    assert bs == [bs[0]] + bs[1..];
  }

  lemma DigitIsNoSpace(c: char)
    requires IsDigit(c)
    ensures !IsSpace(c)
  {
  }

  lemma RestOfText(bs: seq<Bound>, y: string)
    requires bs != []
    ensures AfterFirst(bs, y) == if |bs| == 1 then y else "." + (BoundsText(bs[1..]) + y)
  {
    hide BoundsText;
  }

  lemma NoMoreBounds(y: string)
    ensures Bounds(y, 0) == Some([])
  {
  }

  lemma {:induction false} WordIs(a: string, y: string)
    requires NoSpace(a) && (y == "" || IsSpace(y[0]))
    ensures Word(a + y) == |a|
  {
    if a == "" {
      assert a + y == y;
    } else {
      assert (a + y)[1..] == a[1..] + y;
      WordIs(a[1..], y);
    }
  }

  lemma SkipTwo(t: string)
    ensures SkipSpace("  " + t) == SkipSpace(t)
  {
    assert ("  " + t)[1..] == " " + t;
    assert (" " + t)[1..] == t;
    assert SkipSpace(" " + t) == SkipSpace(t);
  }

  lemma {:induction false} TrimKeepsFront(t: string)
    requires t == "" || !IsSpace(t[0])
    ensures TrimEnd(t) == "" || !IsSpace(TrimEnd(t)[0])
  {
    if t != "" && IsSpace(t[|t| - 1]) {
      TrimKeepsFront(t[..|t| - 1]);
    }
  }

  predicate Trimmed(m: string) {
    m == "" || (!IsSpace(m[0]) && !IsSpace(m[|m| - 1]))
  }

  predicate Clean(r: Range) {
    |r.bounds| == 4 && !IsSpace(r.kind) && r.kind != '#' && Trimmed(r.message)
  }

  /** Every entry that is read has four bounds, a type and a message without spaces around it. */
  lemma ParsedIsClean(line: string)
    requires Parse(line).Entry?
    ensures Clean(Parse(line).range)
  {
    hide Bounds, Word;
    var t := SkipSpace(line);
    var m := SkipSpace(t[Word(t)..]);
    TrimKeepsFront(SkipSpace(m[1..]));
  }

  /** The line of an entry is read back as the same entry, exactly when the entry is one that can
    * be read at all. */
  lemma RoundTrip(r: Range)
    requires |r.bounds| == 4
    ensures Parse(Dump(r)) == Entry(r) <==> Clean(r)
  {
    if Parse(Dump(r)) == Entry(r) {
      ParsedIsClean(Dump(r));
    }
    if Clean(r) {
      CleanRoundTrip(r);
    }
  }

  lemma CleanRoundTrip(r: Range)
    requires Clean(r)
    ensures Parse(Dump(r)) == Entry(r)
  {
    hide Bounds, BoundsText, Word, SkipSpace, TrimEnd;
    var line, a := Dump(r), BoundsText(r.bounds);
    var tail := [r.kind] + "  " + r.message + "\n";
    assert line == a + ("  " + tail);
    BoundsTextFront(r.bounds);
    NothingToSkip(line);
    WordIs(a, "  " + tail);
    assert line[|a|..] == "  " + tail;
    SkipTwo(tail);
    NothingToSkip(tail);
    assert tail[1..] == "  " + (r.message + "\n");
    SkipTwo(r.message + "\n");
    TrimsToMessage(r.message);
    BoundsOfText(r.bounds, "  " + tail);
    assert "" + (a + ("  " + tail)) == line;
  }

  lemma NothingToSkip(t: string)
    requires t == "" || !IsSpace(t[0])
    ensures SkipSpace(t) == t
  {
  }

  lemma TrimsToMessage(m: string)
    requires Trimmed(m)
    ensures TrimEnd(SkipSpace(m + "\n")) == m
  {
    if m == "" {
      assert (m + "\n")[1..] == "";
    } else {
      NothingToSkip(m + "\n");
      assert (m + "\n")[..|m|] == m;
    }
  }

  // ------------------------------------------------------------------------------------------
  // Addresses that are cut short
  // ------------------------------------------------------------------------------------------

  function Dots(t: string): nat {
    if t == "" then 0 else (if t[0] == '.' then 1 else 0) + Dots(t[1..])
  }

  /** The text `.*`, a number of times. */
  function StarText(k: nat): string {
    if k == 0 then "" else ".*" + StarText(k - 1)
  }

  lemma {:induction false} StarsAreRead(k: nat, n: nat, x: string)
    requires k <= n < 4 && x != "" && IsSpace(x[0])
    ensures Bounds(StarText(k) + x, n) == Some(Stars(n))
  {
    if k == 0 {
      assert StarText(k) + x == x;
    } else {
      var t, y := StarText(k) + x, StarText(k - 1) + x;
      assert t == ".*" + y;
      assert t[1..] == "*" + y;
      assert ("*" + y)[1..] == y;
      assert Component("*" + y) == Some((Bound(0, 0xff), y));
      StarsAreRead(k - 1, n - 1, x);
    }
  }

  /** A component is read without a dot, and what is left is an end of the text. */
  lemma ComponentLeaves(a: string)
    requires Component(a).Some? && NoSpace(a)
    ensures NoSpace(Component(a).value.1)
    ensures Dots(Component(a).value.1) == Dots(a)
  {
    if a[0] != '*' {
      NumLeaves(a);
      var rest := Num(a).value.1;
      if rest != "" && rest[0] == '-' {
        NumLeaves(rest[1..]);
      }
    }
  }

  lemma NumLeaves(a: string)
    requires Num(a).Some? && NoSpace(a)
    ensures NoSpace(Num(a).value.1)
    ensures Dots(Num(a).value.1) == Dots(a)
  {
    DotsAfterDigits(a, Digits(a));
  }

  lemma {:induction false} DotsAfterDigits(a: string, n: nat)
    requires n <= |a| && forall k :: 0 <= k < n ==> IsDigit(a[k])
    ensures Dots(a[n..]) == Dots(a)
  {
    if n == 0 {
      assert a[0..] == a;
    } else {
      DotsAfterDigits(a[1..], n - 1);
      assert a[1..][n - 1..] == a[n..];
    }
  }

  /** Reading goes the same way whether the missing components are left out or are stars. */
  lemma {:induction false} CutRest(a: string, k: nat, x: string, n: nat)
    requires NoSpace(a) && x != "" && IsSpace(x[0]) && n <= 4
    requires if n < 4 then Dots(a) + k <= n else a != "" && Dots(a) + 1 + k <= n
    ensures Bounds(a + StarText(k) + x, n) == Bounds(a + x, n)
    decreases n
  {
    hide Component, IsSpace;
    var y := StarText(k) + x;
    assert a + StarText(k) + x == a + y;
    if n > 0 {
      if a == "" {
        assert a + y == y && a + x == x;
        SpaceIsNoSign(x[0]);
        StarsAreRead(k, n, x);
        StarsAreRead(0, n, x);
      } else if n == 4 || a[0] == '.' {
        var c := if n < 4 then a[1..] else a;
        assert n < 4 ==> (a + y)[1..] == c + y && (a + x)[1..] == c + x;
        SpaceIsNoSign(x[0]);
        FrontOfStars(k, x);
        ComponentStop(c, y);
        ComponentStop(c, x);
        if Component(c).Some? {
          var rest := Component(c).value.1;
          ComponentLeaves(c);
          CutRest(rest, k, x, n - 1);
          assert rest + StarText(k) + x == rest + y;
        }
      }
    }
  }

  lemma SpaceIsNoSign(c: char)
    requires IsSpace(c)
    ensures !IsDigit(c) && c != '-' && c != '*' && c != '.'
  {
  }

  lemma FrontOfStars(k: nat, x: string)
    requires x != ""
    ensures StarText(k) + x != "" && (StarText(k) + x)[0] == if k == 0 then x[0] else '.'
  {
    if k == 0 {
      assert StarText(k) + x == x;
    }
  }

  /** An address that a space cuts short means the same as one filled up with stars. */
  lemma CutShortIsStars(a: string, x: string)
    requires a != "" && NoSpace(a) && Dots(a) <= 3 && x != "" && IsSpace(x[0])
    ensures Bounds(a + x, 4) == Bounds(a + StarText(3 - Dots(a)) + x, 4)
  {
    CutRest(a, 3 - Dots(a), x, 4);
  }

  function Pow10(n: nat): (p: nat)
    ensures 0 < p
  {
    if n == 0 then 1 else 10 * Pow10(n - 1)
  }

  /** The digits without zeros in front. */
  function Significant(ds: string): string {
    if ds != "" && ds[0] == '0' then Significant(ds[1..]) else ds
  }

  predicate AreDigits(ds: string) {
    forall k :: 0 <= k < |ds| ==> IsDigit(ds[k])
  }

  lemma {:induction false} ValueBelow(ds: string)
    requires AreDigits(ds)
    ensures Value(ds) < Pow10(|ds|)
  {
    if ds != "" {
      ValueBelow(ds[..|ds| - 1]);
    }
  }

  lemma {:induction false} ZeroInFront(ds: string)
    requires ds != "" && ds[0] == '0' && AreDigits(ds)
    ensures Value(ds) == Value(ds[1..])
  {
    if |ds| > 1 {
      var front := ds[..|ds| - 1];
      ZeroInFront(front);
      assert front[1..] == ds[1..][..|ds[1..]| - 1];
    }
  }

  lemma {:induction false} SignificantValue(ds: string)
    requires AreDigits(ds)
    ensures AreDigits(Significant(ds)) && Value(Significant(ds)) == Value(ds)
  {
    if ds != "" && ds[0] == '0' {
      ZeroInFront(ds);
      SignificantValue(ds[1..]);
    }
  }

  lemma {:induction false} Pow10Grows(m: nat, n: nat)
    requires m <= n
    ensures Pow10(m) <= Pow10(n)
  {
    if m < n {
      Pow10Grows(m, n - 1);
    }
  }

  lemma Pow10Step(n: nat)
    ensures Pow10(n + 5) == 100_000 * Pow10(n)
  {
    assert Pow10(n + 1) == 10 * Pow10(n);
    assert Pow10(n + 3) == 100 * Pow10(n + 1);
    assert Pow10(n + 5) == 100 * Pow10(n + 3);
  }

  /** Where a number of 64 bits ends. */
  lemma UlongDigits()
    ensures Pow10(19) < ULONG < Pow10(20)
  {
    Pow10Step(0);
    Pow10Step(5);
    Pow10Step(10);
    Pow10Step(15);
    assert Pow10(20) == 10 * Pow10(19);
  }

  lemma {:induction false} DecimalLength(n: nat, k: nat)
    requires 0 < k && n < Pow10(k)
    ensures |Decimal(n)| <= k
  {
    if n >= 10 {
      assert k > 1;
      DecimalLength(n / 10, k - 1);
    }
  }

  /** The number is taken when it is at most 255 and refused when it is more. */
  predicate Checked(ds: string)
    requires AreDigits(ds)
  {
    if ds != "" && Value(ds) <= 0xff then Num(ds) == Some((Value(ds), "")) else Num(ds).None?
  }

  /** A number of at most 19 digits, zeros in front not counted, is always checked rightly. */
  lemma ShortIsChecked(ds: string)
    requires AreDigits(ds) && |Significant(ds)| <= 19
    ensures Checked(ds)
  {
    SignificantValue(ds);
    ValueBelow(Significant(ds));
    Pow10Grows(|Significant(ds)|, 19);
    UlongDigits();
    hide Pow10, Significant, Value;
    AllDigits(ds);
    assert ds[..|ds|] == ds && ds[|ds|..] == "";
    Below(Value(ds));
  }

  /** The number 2^64 has 20 digits and is taken for zero. */
  lemma WrappedIsTaken()
    ensures AreDigits(Decimal(ULONG)) && |Decimal(ULONG)| <= 20
    ensures Num(Decimal(ULONG)) == Some((0, "")) && !Checked(Decimal(ULONG))
  {
    DecimalValue(ULONG);
    UlongDigits();
    DecimalLength(ULONG, 20);
    hide *;
    NumOfDigits(Decimal(ULONG), ULONG);
    LargeIsUnchecked(Decimal(ULONG));
  }

  lemma NumOfDigits(ds: string, v: nat)
    requires AreDigits(ds) && ds != "" && Value(ds) == v && v % ULONG <= 0xff
    ensures Num(ds) == Some((v % ULONG, ""))
  {
    hide Value;
    AllDigits(ds);
    assert ds[..|ds|] == ds && ds[|ds|..] == "";
  }

  lemma LargeIsUnchecked(ds: string)
    requires AreDigits(ds) && Num(ds).Some? && Value(ds) == ULONG
    ensures !Checked(ds)
  {
    hide Value, Num;
  }

  lemma {:induction false} SignificantShorter(ds: string)
    ensures |Significant(ds)| <= |ds|
  {
    if ds != "" && ds[0] == '0' {
      SignificantShorter(ds[1..]);
    }
  }

  ghost predicate AllChecked(n: nat) {
    forall ds :: AreDigits(ds) && |Significant(ds)| <= n ==> Checked(ds)
  }

  /** Numbers of up to `n` digits, zeros in front not counted, are all checked rightly, if and only if
    * `n` is at most 19: longer ones can wrap. */
  lemma NumberIsCheckedWhen(n: nat)
    ensures AllChecked(n) <==> n <= 19
  {
    if n <= 19 {
      forall ds | AreDigits(ds) && |Significant(ds)| <= n ensures Checked(ds) {
        ShortIsChecked(ds);
      }
    } else {
      WrappedIsTaken();
      SignificantShorter(Decimal(ULONG));
    }
  }

  lemma Below(v: nat)
    requires v < ULONG
    ensures v % ULONG == v
  {
  }

  // ------------------------------------------------------------------------------------------
  // The procedures
  // ------------------------------------------------------------------------------------------

  /** Wrapping at every digit is the same as wrapping once. */
  lemma WrapStep(v: nat, d: nat)
    ensures (10 * (v % ULONG) + d) % ULONG == (10 * v + d) % ULONG
  {
    var q, r := v / ULONG, v % ULONG;
    assert 10 * v + d == 10 * q * ULONG + (10 * r + d);
    WrapMany(10 * q, 10 * r + d);
  }

  lemma {:induction false} WrapMany(q: nat, x: nat)
    ensures (q * ULONG + x) % ULONG == x % ULONG
  {
    if q > 0 {
      WrapMany(q - 1, x);
      assert q * ULONG + x == ((q - 1) * ULONG + x) + ULONG;
      WrapOnce((q - 1) * ULONG + x);
    }
  }

  lemma WrapOnce(x: nat)
    ensures (x + ULONG) % ULONG == x % ULONG
  {
  }

  /** `parse_ipcomponentnum`: reads digits from `at` on. */
  method ParseIpComponentNum(text: string, at: nat) returns (r: Option<(Byte, nat)>)
    requires at <= |text|
    ensures r.None? <==> Num(text[at..]).None?
    ensures r.Some? ==> r.value.1 <= |text| && Num(text[at..]) == Some((r.value.0, text[r.value.1..]))
  {
    hide Value, Digits;
    if at == |text| || !IsDigit(text[at]) {
      NoNumber(text[at..]);
      return None;
    }
    var val: nat, k := 0, at;
    NoDigits();
    assert text[at..at] == "";
    while k < |text| && IsDigit(text[k])
      invariant at <= k <= |text|
      invariant forall i :: at <= i < k ==> IsDigit(text[i])
      invariant val == Value(text[at..k]) % ULONG
    {
      OneMoreDigit(text[at..k], text[k]);
      assert text[at..k] + [text[k]] == text[at..k + 1];
      WrapStep(Value(text[at..k]), (text[k] - '0') as nat);
      val := (10 * val + (text[k] - '0') as nat) % ULONG;
      k := k + 1;
    }
    DigitsAre(text[at..], k - at);
    assert text[at..][..k - at] == text[at..k] && text[at..][k - at..] == text[k..];
    if val > 0xff {
      return None;
    }
    r := Some((val, k));
  }

  lemma NoNumber(t: string)
    requires t == "" || !IsDigit(t[0])
    ensures Num(t).None?
  {
  }

  lemma NoDigits()
    ensures Value("") % ULONG == 0
  {
  }

  lemma OneMoreDigit(ds: string, d: char)
    requires (forall k :: 0 <= k < |ds| ==> IsDigit(ds[k])) && IsDigit(d)
    ensures Value(ds + [d]) == 10 * Value(ds) + (d - '0') as nat
  {
    assert (ds + [d])[..|ds|] == ds;
  }

  lemma {:induction false} DigitsAre(t: string, n: nat)
    requires n <= |t| && (forall k :: 0 <= k < n ==> IsDigit(t[k])) && (n < |t| ==> !IsDigit(t[n]))
    ensures Digits(t) == n
  {
    if n > 0 {
      DigitsAre(t[1..], n - 1);
    }
  }

  /** `parse_ipcomponent`. */
  method ParseIpComponent(text: string, at: nat) returns (r: Option<(Bound, nat)>)
    requires at <= |text|
    ensures r.None? <==> Component(text[at..]).None?
    ensures r.Some? ==> r.value.1 <= |text| && Component(text[at..]) == Some((r.value.0, text[r.value.1..]))
  {
    hide Num, IsDigit;
    if at < |text| && text[at] == '*' {
      assert text[at..][1..] == text[at + 1..];
      return Some((Bound(0, 0xff), at + 1));
    }
    var first := ParseIpComponentNum(text, at);
    if first.None? {
      return None;
    }
    var (lo, k) := first.value;
    if k < |text| && text[k] == '-' {
      assert text[k..][1..] == text[k + 1..];
      var second := ParseIpComponentNum(text, k + 1);
      if second.None? {
        return None;
      }
      var (hi, m) := second.value;
      return Some((Bound(lo, hi), m));
    }
    r := Some((Bound(lo, lo), k));
  }

  /** What is left to read after `bs`. */
  function Onto(bs: seq<Bound>, more: Option<seq<Bound>>): Option<seq<Bound>> {
    if more.None? then None else Some(bs + more.value)
  }

  /** One round of the loop of `parse_ipnumber`. */
  lemma OneComponent(t: string, n: nat, bs: seq<Bound>)
    requires 1 <= n <= 4 && (t == "" || !IsSpace(t[0]))
    ensures n < 4 && (t == "" || t[0] != '.') ==> Bounds(t, n).None?
    ensures (n < 4 ==> t != "" && t[0] == '.') ==>
              var c := Component(if n < 4 then t[1..] else t);
              Onto(bs, Bounds(t, n)) == if c.None? then None else Onto(bs + [c.value.0], Bounds(c.value.1, n - 1))
  {
    hide Component, IsSpace;
    var c := Component(if n < 4 && t != "" then t[1..] else t);
    if c.Some? && Bounds(c.value.1, n - 1).Some? {
      assert bs + ([c.value.0] + Bounds(c.value.1, n - 1).value) ==
             bs + [c.value.0] + Bounds(c.value.1, n - 1).value;
    }
  }

  lemma OneStar(bs: seq<Bound>, n: nat)
    requires n > 0
    ensures bs + Stars(n) == bs + [Bound(0, 0xff)] + Stars(n - 1)
  {
  }

  lemma EndOfBounds(t: string, n: nat, bs: seq<Bound>)
    requires n <= 4 && (n == 0 || (t != "" && IsSpace(t[0])))
    ensures Onto(bs, Bounds(t, n)) == Some(bs + Stars(n))
  {
  }

  /** `parse_ipnumber`: reads components up to a space and fills up what is missing. */
  method ParseIpNumber(text: string) returns (r: Option<seq<Bound>>)
    ensures r == Bounds(text, 4)
  {
    hide *;
    var bounds: seq<Bound>, k: nat, i: nat := [], 0, 4;
    assert text[0..] == text;
    OntoNothing(text);
    while i > 0 && !(k < |text| && IsSpace(text[k]))
      invariant 0 <= i <= 4 && k <= |text|
      invariant i < 4 || k == 0
      invariant Bounds(text, 4) == Onto(bounds, Bounds(text[k..], i))
      decreases i
    {
      OneComponent(text[k..], i, bounds);
      if i < 4 {
        if k == |text| || text[k] != '.' {
          OntoFailure(bounds);
          return None;
        }
        assert text[k..][1..] == text[k + 1..];
        k := k + 1;
      }
      var c := ParseIpComponent(text, k);
      if c.None? {
        return None;
      }
      bounds, k, i := bounds + [c.value.0], c.value.1, i - 1;
    }
    EndOfBounds(text[k..], i, bounds);
    while i > 0
      invariant 0 <= i <= 4
      invariant Bounds(text, 4) == Some(bounds + Stars(i))
    {
      OneStar(bounds, i);
      bounds, i := bounds + [Bound(0, 0xff)], i - 1;
    }
    NoStars();
    assert bounds + [] == bounds;
    r := Some(bounds);
  }

  lemma OntoNothing(text: string)
    ensures Bounds(text, 4) == Onto([], Bounds(text, 4))
  {
    hide Bounds;
    if Bounds(text, 4).Some? {
      assert [] + Bounds(text, 4).value == Bounds(text, 4).value;
    }
  }

  lemma OntoFailure(bs: seq<Bound>)
    ensures Onto(bs, None) == None
  {
  }

  lemma NoStars()
    ensures Stars(0) == []
  {
  }

  /** `skip_whitespace`. */
  method SkipWhitespace(text: string, at: nat) returns (k: nat)
    requires at <= |text|
    ensures at <= k <= |text| && text[k..] == SkipSpace(text[at..])
  {
    k := at;
    while k < |text| && IsSpace(text[k])
      invariant at <= k <= |text| && SkipSpace(text[at..]) == SkipSpace(text[k..])
    {
      assert text[k..][1..] == text[k + 1..];
      k := k + 1;
    }
  }

  /** `parse_ipline`. */
  method ParseIpLine(line: string) returns (r: Line)
    ensures r == Parse(line)
  {
    hide SkipSpace, TrimEnd, Word, Bounds;
    assert line[0..] == line;
    var text := SkipWhitespace(line, 0);
    if text == |line| || line[text] == '#' {
      return Nothing;
    }
    var message := EndOfWord(line, text);
    ghost var host := line[text..message];
    assert line[text..][message - text..] == line[message..] && line[text..][..message - text] == host;
    message := SkipWhitespace(line, message);
    if message == |line| || line[message] == '#' {
      return Nothing;
    }
    var kind := line[message];
    assert line[message..][1..] == line[message + 1..];
    message := SkipWhitespace(line, message + 1);
    var trimmed := RemoveTrailing(line[message..]);
    if line[text] == '*' || IsDigit(line[text]) {
      var bounds := ParseIpNumber(line[text..]);
      if bounds.None? {
        return Nothing;
      }
      return Entry(Range(bounds.value, kind, trimmed));
    }
    var end := EndOfWord(line, text);
    r := Lookup(line[text..end], kind, trimmed);
  }

  method EndOfWord(text: string, at: nat) returns (k: nat)
    requires at <= |text|
    ensures at <= k <= |text| && k - at == Word(text[at..])
  {
    k := at;
    while k < |text| && !IsSpace(text[k])
      invariant at <= k <= |text| && k - at + Word(text[k..]) == Word(text[at..])
    {
      assert text[k..][1..] == text[k + 1..];
      k := k + 1;
    }
  }

  method RemoveTrailing(message: string) returns (r: string)
    ensures r == TrimEnd(message)
  {
    var messlen := |message|;
    assert message[..messlen] == message;
    while messlen > 0 && IsSpace(message[messlen - 1])
      invariant messlen <= |message| && TrimEnd(message[..messlen]) == TrimEnd(message)
    {
      assert message[..messlen][..messlen - 1] == message[..messlen - 1];
      messlen := messlen - 1;
    }
    r := message[..messlen];
  }

  // ------------------------------------------------------------------------------------------
  // The lookup
  // ------------------------------------------------------------------------------------------

  type Address = a: nat | a <= 0xffff_ffff witness 0

  /** The bytes of an address, the first one in front. */
  function Octets(a: Address): (v: seq<Byte>)
    ensures |v| == 4
  {
    [a / 0x100_0000, a / 0x1_0000 % 0x100, a / 0x100 % 0x100, a % 0x100]
  }

  predicate Matches(r: Range, a: Address)
    requires |r.bounds| == 4
  {
    forall k :: 0 <= k < 4 ==> r.bounds[k].lo <= Octets(a)[k] <= r.bounds[k].hi
  }

  /** The bytes are the digits of the address to the base of 256. */
  lemma OctetsAre(a: Address, v: seq<Byte>)
    requires |v| == 4
    ensures v == Octets(a) <==> a == ((256 * (v[0] as int) + v[1]) * 256 + v[2]) * 256 + v[3]
  {
    var x := a / 256;
    var y := x / 256;
    assert y == a / 0x1_0000 && y / 256 == a / 0x100_0000;
    assert a == 256 * x + a % 256 && x == 256 * y + x % 256 && y == 256 * (y / 256) + y % 256;
    var p := 256 * (v[0] as int) + v[1];
    var q := p * 256 + v[2];
    LastDigit(a, q, v[3]);
    LastDigit(x, p, v[2]);
    LastDigit(y, v[0], v[1]);
  }

  lemma LastDigit(n: nat, q: nat, d: Byte)
    ensures n == q * 256 + d <==> q == n / 256 && d == n % 256
  {
  }

  /** `check_ip`: from the last byte of the address to the first. */
  method CheckIp(a: Address, r: Range) returns (found: bool)
    requires |r.bounds| == 4
    ensures found <==> Matches(r, a)
    ensures forall v: seq<Byte> ::
              |v| == 4 && a == ((256 * (v[0] as int) + v[1]) * 256 + v[2]) * 256 + v[3] ==>
                (found <==>
                 && r.bounds[0].lo <= v[0] <= r.bounds[0].hi && r.bounds[1].lo <= v[1] <= r.bounds[1].hi
                 && r.bounds[2].lo <= v[2] <= r.bounds[2].hi && r.bounds[3].lo <= v[3] <= r.bounds[3].hi)
  {
    forall v: seq<Byte> | |v| == 4 && a == ((256 * (v[0] as int) + v[1]) * 256 + v[2]) * 256 + v[3]
      ensures v == Octets(a)
    {
      OctetsAre(a, v);
    }
    hide Octets;
    var val := Octets(a);
    for j := 0 to 4
      invariant forall k :: 4 - j <= k < 4 ==> r.bounds[k].lo <= val[k] <= r.bounds[k].hi
    {
      if r.bounds[3 - j].lo > val[3 - j] || val[3 - j] > r.bounds[3 - j].hi {
        return false;
      }
    }
    found := true;
  }

  /** `check_ip_table`: the first entry for the address. */
  method CheckIpTable(a: Address, table: seq<Range>) returns (r: Option<Range>)
    requires forall i :: 0 <= i < |table| ==> |table[i].bounds| == 4
    ensures r.None? <==> forall i :: 0 <= i < |table| ==> !Matches(table[i], a)
    ensures r.Some? ==> exists i :: 0 <= i < |table| && r.value == table[i] && Matches(table[i], a) &&
                          forall j :: 0 <= j < i ==> !Matches(table[j], a)
  {
    hide Matches;
    for i := 0 to |table|
      invariant forall j :: 0 <= j < i ==> !Matches(table[j], a)
    {
      var found := CheckIp(a, table[i]);
      if found {
        return Some(table[i]);
      }
    }
    r := None;
  }
}
