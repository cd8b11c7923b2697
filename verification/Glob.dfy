/** The matcher for file name patterns with wildcards, character classes and braces. */
module Glob {
  import opened Options

  // ------------------------------------------------------------------------------------------
  // What the matcher answers, on what is left of the name and of the pattern
  // ------------------------------------------------------------------------------------------

  /** Larger than any character: no range can start before the first character of a class. */
  const NO_CHAR := 0x7fff

  /** Scans a class after its bracket for the character `scc`; `lc` is the last plain character.
    * The result is the pattern after the class, if it matched. */
  function ScanClass(q: string, scc: char, ok: bool, lc: int): (r: Option<string>)
    ensures r.Some? ==> |r.value| <= |q|
    decreases |q|
  {
    if q == "" then if ok then Some("") else None
    else if q[0] == ']' then if ok then Some(q[1..]) else None
    else if q[0] == '-' then
      if lc <= scc as int then
        if |q| == 1 then ScanClass("", scc, ok, lc) else ScanClass(q[2..], scc, ok || scc <= q[1], lc)
      else ScanClass(q[1..], scc, ok, lc)
    else ScanClass(q[1..], scc, ok || scc == q[0], q[0] as int)
  }

  /** The number of characters before the next `]`. */
  function ClassEnd(q: string): (n: nat)
    ensures n <= |q|
  {
    if q == "" || q[0] == ']' then 0 else 1 + ClassEnd(q[1..])
  }

  /** The number of characters, from a front bracket, that the brace scans pass over at once. */
  function Skip(q: string): (n: nat)
    requires q != ""
    ensures 1 <= n <= |q|
  {
    if q[0] != '[' then 1
    else
      var e := 1 + ClassEnd(q[1..]);
      if e == |q| then e else e + 1
  }

  function Deeper(c: char, level: nat): nat {
    if c == '{' then level + 1 else if c == '}' && level > 0 then level - 1 else level
  }

  /** The number of characters before the brace that closes. */
  function Close(q: string, level: nat): (n: nat)
    ensures n <= |q|
    decreases |q|
  {
    if q == "" || (q[0] == '}' && level == 0) then 0
    else Skip(q) + Close(q[Skip(q)..], Deeper(q[0], level))
  }

  /** Whether the rest of the name fits the rest of the pattern. */
  function Match(s: string, p: string): bool
    decreases |p|, 2, |s|
  {
    if p == "" then s == ""
    else if p[0] == '{' then
      var n := Close(p[1..], 0);
      n + 1 < |p| && TryAlternatives(s, "", p[1..n + 1], 0, p[n + 2..])
    else if p[0] == '[' then
      s != "" &&
      var rest := ScanClass(p[1..], s[0], false, NO_CHAR);
      rest.Some? && Match(s[1..], rest.value)
    else if p[0] == '*' then |p| == 1 || (p[1] != '/' && TryFrom(s, p[1..]))
    else s != "" && p[0] != '/' && (p[0] == '?' || s[0] == p[0]) && Match(s[1..], p[1..])
  }

  /** Whether some end of the rest of the name fits. */
  function TryFrom(s: string, p: string): bool
    decreases |p|, 3, |s|
  {
    Match(s, p) || (s != "" && TryFrom(s[1..], p))
  }

  /** Whether some alternative, followed by the rest of the pattern, fits.  `cur` is the part of
    * the current alternative before `q`. */
  function TryAlternatives(s: string, cur: string, q: string, level: nat, rest: string): bool
    decreases |cur| + |q| + |rest| + 1, 1, |q|
  {
    if q == "" then Match(s, cur + rest)
    else if q[0] == ',' && level == 0 then
      Match(s, cur + rest) || TryAlternatives(s, "", q[1..], 0, rest)
    else
      TryAlternatives(s, cur + q[..Skip(q)], q[Skip(q)..], Deeper(q[0], level), rest)
  }

  // ------------------------------------------------------------------------------------------
  // The two procedures that call each other
  // ------------------------------------------------------------------------------------------

  /** Moves the cursor over a class, or over one other character. */
  method PassOver(p: string, at: nat) returns (k: nat)
    requires at < |p|
    ensures k == at + Skip(p[at..])
  {
    k := at + 1;
    if p[at] == '[' {
      while k < |p| && p[k] != ']'
        invariant at < k <= |p|
        invariant k + ClassEnd(p[k..]) == at + 1 + ClassEnd(p[at + 1..])
      {
        assert p[k..][1..] == p[k + 1..];
        k := k + 1;
      }
      assert p[at..][1..] == p[at + 1..];
      if k < |p| {
        k := k + 1;
      }
    }
  }

  /** One step of the scan for the closing brace. */
  lemma CloseStep(p: string, at: nat, level: nat)
    requires at < |p| && !(p[at] == '}' && level == 0)
    ensures at + Skip(p[at..]) + Close(p[at + Skip(p[at..])..], Deeper(p[at], level)) ==
            at + Close(p[at..], level)
  {
    hide Skip, Deeper;
    assert p[at..][Skip(p[at..])..] == p[at + Skip(p[at..])..];
  }

  /** The first loop of `execbrc`: the place of the brace that closes the one in front. */
  method FindClose(p: string) returns (pe: nat)
    requires p != ""
    ensures pe == 1 + Close(p[1..], 0)
  {
    hide Skip, ClassEnd;
    pe := 1;
    var brclev: nat := 0;
    while pe < |p| && !(p[pe] == '}' && brclev == 0)
      invariant 1 <= pe <= |p|
      invariant pe + Close(p[pe..], brclev) == 1 + Close(p[1..], 0)
    {
      hide Close;
      CloseStep(p, pe, brclev);
      var next := PassOver(p, pe);
      if p[pe] == '{' {
        brclev := brclev + 1;
      } else if p[pe] == '}' {
        brclev := brclev - 1;
      }
      pe := next;
    }
  }

  lemma {:induction false} ClassEndPrefix(q: string, m: nat)
    requires ClassEnd(q) <= m <= |q|
    ensures ClassEnd(q[..m]) == ClassEnd(q)
  {
    if q != "" && q[0] != ']' {
      ClassEndPrefix(q[1..], m - 1);
      assert q[..m][1..] == q[1..][..m - 1];
    }
  }

  /** Cutting the pattern after what a scan passes over does not change how far it passes. */
  lemma SkipPrefix(q: string, m: nat)
    requires q != "" && Skip(q) <= m <= |q|
    ensures Skip(q[..m]) == Skip(q)
  {
    if q[0] == '[' {
      assert q[..m][1..] == q[1..][..m - 1];
      ClassEndPrefix(q[1..], m - 1);
      if 1 + ClassEnd(q[1..]) == |q| {
        assert q[..m] == q;
      }
    }
  }

  /** One step over characters that do not end an alternative. */
  lemma TryStep(s: string, cur: string, q: string, level: nat, rest: string)
    requires q != "" && (q[0] == ',' ==> level > 0)
    ensures TryAlternatives(s, cur, q, level, rest) ==
            TryAlternatives(s, cur + q[..Skip(q)], q[Skip(q)..], Deeper(q[0], level), rest)
  {
    hide Skip, Deeper, Match;
  }

  /** One round of the second loop that does not end an alternative. */
  lemma Pass(s: string, p: string, pl: nat, pm: nat, pe: nat, brclev: nat, next: nat)
    requires 1 <= pl <= pm < pe < |p|
    requires next == pm + Skip(p[pm..]) <= pe
    requires p[pm] == ',' ==> brclev > 0
    ensures TryAlternatives(s, p[pl..pm], p[pm..pe], brclev, p[pe + 1..]) ==
            TryAlternatives(s, p[pl..next], p[next..pe], Deeper(p[pm], brclev), p[pe + 1..])
  {
    hide *;
    assert p[pm..pe] == p[pm..][..pe - pm];
    SkipPrefix(p[pm..], pe - pm);
    TryStep(s, p[pl..pm], p[pm..pe], brclev, p[pe + 1..]);
    assert p[pl..pm] + p[pm..pe][..next - pm] == p[pl..next];
    assert p[pm..pe][next - pm..] == p[next..pe];
  }

  lemma FrontBrace(s: string, p: string, pe: nat)
    requires p != "" && p[0] == '{' && pe == 1 + Close(p[1..], 0)
    ensures Match(s, p) == (pe < |p| && TryAlternatives(s, "", p[1..pe], 0, p[pe + 1..]))
  {
    hide TryAlternatives, Close;
  }

  /** An alternative that ends at `pm` is tried; only at a comma there is another one to try. */
  lemma EndOfAlternative(s: string, p: string, pl: nat, pm: nat, pe: nat, brclev: nat)
    requires 1 <= pl <= pm <= pe < |p| && pm + Close(p[pm..], brclev) == pe
    requires pm == pe || (p[pm] == ',' && brclev == 0)
    ensures TryAlternatives(s, p[pl..pm], p[pm..pe], brclev, p[pe + 1..]) ==
            (Match(s, p[pl..pm] + p[pe + 1..]) ||
             (pm < pe && TryAlternatives(s, "", p[pm + 1..pe], 0, p[pe + 1..])))
    ensures pm < pe ==> pm + 1 + Close(p[pm + 1..], 0) == pe
  {
    hide Match, Close;
    if pm < pe {
      assert p[pm..pe][1..] == p[pm + 1..pe];
      CloseStep(p, pm, brclev);
    }
  }

  /** What `execbrc` has still to find out when the cursor is at `pm`. */
  ghost predicate Pending(s: string, p: string, pl: nat, pm: nat, pe: nat, brclev: nat)
    requires pe < |p|
  {
    1 <= pl <= pm <= pe && pm + Close(p[pm..], brclev) == pe &&
    Match(s, p) == TryAlternatives(s, p[pl..pm], p[pm..pe], brclev, p[pe + 1..])
  }

  lemma PendingStart(s: string, p: string, pe: nat)
    requires p != "" && p[0] == '{' && pe == 1 + Close(p[1..], 0) && pe < |p|
    ensures Pending(s, p, 1, 1, pe, 0)
  {
    hide Match, TryAlternatives, Close;
    FrontBrace(s, p, pe);
    assert p[1..1] == "";
  }

  lemma PendingStep(s: string, p: string, pl: nat, pm: nat, pe: nat, brclev: nat)
    requires pm < pe < |p| && Pending(s, p, pl, pm, pe, brclev) && (p[pm] == ',' ==> brclev > 0)
    ensures p[pm] == '}' ==> brclev > 0
    ensures pm + Skip(p[pm..]) <= pe
    ensures Pending(s, p, pl, pm + Skip(p[pm..]), pe, Deeper(p[pm], brclev))
  {
    hide Match, TryAlternatives, Skip, Deeper;
    CloseStep(p, pm, brclev);
    Pass(s, p, pl, pm, pe, brclev, pm + Skip(p[pm..]));
  }

  lemma PendingEnd(s: string, p: string, pl: nat, pm: nat, pe: nat, brclev: nat)
    requires pm <= pe < |p| && Pending(s, p, pl, pm, pe, brclev)
    requires pm == pe || (p[pm] == ',' && brclev == 0)
    ensures 1 <= pl <= pm
    ensures Match(s, p[pl..pm] + p[pe + 1..]) ==> Match(s, p)
    ensures !Match(s, p[pl..pm] + p[pe + 1..]) && pm == pe ==> !Match(s, p)
    ensures !Match(s, p[pl..pm] + p[pe + 1..]) && pm < pe ==> Pending(s, p, pm + 1, pm + 1, pe, 0)
  {
    hide Match, TryAlternatives, Close;
    EndOfAlternative(s, p, pl, pm, pe, brclev);
    if pm < pe {
      assert p[pm + 1..pm + 1] == "";
    }
  }

  /** `execbrc` with a name: puts each alternative before the rest of the pattern and tries it. */
  method ExecBrc(s: string, p: string) returns (r: bool)
    requires p != "" && p[0] == '{'
    ensures r == Match(s, p)
    decreases |p|, 0
  {
    hide Match, TryAlternatives, Close, Skip, ClassEnd, Pending;
    var pe := FindClose(p);
    if pe == |p| {
      FrontBrace(s, p, pe);
      return false;
    }
    var brclev: nat, pl: nat, pm: nat := 0, 1, 1;
    PendingStart(s, p, pe);
    while pm <= pe
      invariant 1 <= pl <= pm
      invariant pm <= pe ==> Pending(s, p, pl, pm, pe, brclev)
      invariant pm > pe ==> !Match(s, p)
    {
      if pm == pe || (p[pm] == ',' && brclev == 0) {
        PendingEnd(s, p, pl, pm, pe, brclev);
        r := AMatch(s, p[pl..pm] + p[pe + 1..]);
        if r {
          return;
        }
        pl := pm + 1;
        pm := pm + 1;
      } else {
        PendingStep(s, p, pl, pm, pe, brclev);
        var next := PassOver(p, pm);
        if p[pm] == '{' {
          brclev := brclev + 1;
        } else if p[pm] == '}' {
          brclev := brclev - 1;
        }
        pm := next;
      }
    }
    r := false;
  }

  /** The class loop of `amatch`: whether the class has the character, and what follows it. */
  method InClass(p: string, start: nat, scc: char) returns (ok: bool, at: nat)
    requires start <= |p|
    ensures start <= at <= |p|
    ensures ScanClass(p[start..], scc, false, NO_CHAR) == if ok then Some(p[at..]) else None
  {
    ok, at := false, start;
    var lc := NO_CHAR;
    while at < |p| && p[at] != ']'
      invariant start <= at <= |p|
      invariant ScanClass(p[start..], scc, false, NO_CHAR) == ScanClass(p[at..], scc, ok, lc)
    {
      if p[at] == '-' {
        at := at + 1;
        assert p[at - 1..][1..] == p[at..];
        if lc <= scc as int && at < |p| {
          ok := ok || scc <= p[at];
          at := at + 1;
          assert p[at - 2..][2..] == p[at..];
        }
      } else {
        lc := p[at] as int;
        ok := ok || scc == p[at];
        assert p[at..][1..] == p[at + 1..];
        at := at + 1;
      }
    }
    if at < |p| {
      assert p[at..][1..] == p[at + 1..];
      at := at + 1;
    }
  }

  /** `amatch`: one character of the name for one step of the pattern. */
  method AMatch(s: string, p: string) returns (r: bool)
    ensures r == Match(s, p)
    decreases |p|, 1
  {
    var i, j := 0, 0;
    while j < |p|
      invariant i <= |s| && j <= |p|
      invariant Match(s, p) == Match(s[i..], p[j..])
      decreases |p| - j
    {
      var c := p[j];
      assert p[j..][1..] == p[j + 1..];
      assert i < |s| ==> s[i..][1..] == s[i + 1..];
      if c == '{' {
        r := ExecBrc(s[i..], p[j..]);
        return;
      } else if c == '[' {
        if i == |s| {
          return false;
        }
        var ok, at := InClass(p, j + 1, s[i]);
        if !ok {
          return false;
        }
        i, j := i + 1, at;
      } else if c == '*' {
        r := MatchFrom(s, i, p, j);
        return;
      } else {
        if i == |s| || c == '/' || (c != '?' && c != s[i]) {
          return false;
        }
        i, j := i + 1, j + 1;
      }
    }
    r := i == |s|;
  }

  /** The loop of `amatch` for a star: tries what follows it at every place left in the name. */
  method MatchFrom(s: string, i: nat, p: string, j: nat) returns (r: bool)
    requires i <= |s| && j < |p| && p[j] == '*'
    ensures r == Match(s[i..], p[j..])
    decreases |p|, 0
  {
    assert p[j..][1..] == p[j + 1..];
    if j + 1 == |p| {
      return true;
    }
    if p[j + 1] == '/' {
      return false;
    }
    var k := i;
    r := AMatch(s[k..], p[j + 1..]);
    while !r && k < |s|
      invariant i <= k <= |s|
      invariant TryFrom(s[i..], p[j + 1..]) == (r || (k < |s| && TryFrom(s[k + 1..], p[j + 1..])))
    {
      k := k + 1;
      r := AMatch(s[k..], p[j + 1..]);
      assert k < |s| ==> s[k..][1..] == s[k + 1..];
    }
  }
}
