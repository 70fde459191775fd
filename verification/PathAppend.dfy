/** RedConfAppendExpandedPath and mixPaths: a list of paths is extended in place by the components of
    an expanded text that it does not hold yet. */
module PathAppend {
  import opened Expand
  import opened PathLists

  // ---- the search ----

  lemma PassColons(w: string, a: nat, b: nat)
    requires a <= b <= |w| && forall i | a <= i < b :: w[i] == ':'
    ensures Comps(w[..b]) == Comps(w[..a])
  {
    assert w[..b] == w[..a] + w[a..b];
    CompsCut(w[..a], w[a..b]);
    CompsOfColons(w[a..b]);
  }

  lemma PassComponent(w: string, a: nat, n: nat)
    requires a + n <= |w| && n > 0
    requires a == 0 || w[a - 1] == ':'
    requires (forall i | a <= i < a + n :: w[i] != ':') && (a + n < |w| ==> w[a + n] == ':')
    ensures Comps(w[..a + n]) == Comps(w[..a]) + [w[a..a + n]]
    ensures Comps(w) == Comps(w[..a + n]) + Comps(w[a + n..])
  {
    assert w[..a + n] == w[..a] + w[a..a + n];
    CompsCut(w[..a], w[a..a + n]);
    CompsOfOne(w[a..a + n]);
    assert w == w[..a + n] + w[a + n..];
    CompsCut(w[..a + n], w[a + n..]);
  }

  /** The comparison stopped after n equal characters: the first component of s is the one of w at a
      exactly when both end there. */
  lemma Compared(w: string, a: nat, n: nat, s: string, m: nat)
    requires a + n <= |w| && m <= n && m <= |s|
    requires (forall i | a <= i < a + n :: w[i] != ':')
    requires forall i | 0 <= i < m :: w[a + i] == s[i]
    requires m == n || m == |s| || w[a + m] != s[m]
    ensures w[a..a + n] == s[..CompLen(s)] <==> m == n && (m == |s| || s[m] == ':')
  {
    var c := w[a..a + n];
    if m == n && (m == |s| || s[m] == ':') {
      assert forall i | 0 <= i < m :: s[i] == c[i];
      CompLenIs(s, m);
    }
  }

  /** Skips what is not a colon. */
  method SkipComponent(output: array<char>, from: nat, to: nat, ghost w: string, ghost end: nat) returns (idx: nat)
    requires to <= output.Length && w == output[..to]
    requires from <= end < |w| && w[end] == ':' && forall i | from <= i < end :: w[i] != ':'
    ensures idx == end
  {
    idx := from;
    while idx < to && output[idx] != ':'
      invariant from <= idx <= end
    {
      idx := idx + 1;
    }
  }

  /** Skips colons. */
  method SkipColons(output: array<char>, from: nat, to: nat) returns (idx: nat)
    requires from <= to <= output.Length
    ensures from <= idx <= to && (idx < to ==> output[idx] != ':')
    ensures forall i | from <= i < idx :: output[i] == ':'
  {
    idx := from;
    while idx < to && output[idx] == ':'
      invariant from <= idx <= to
      invariant forall i | from <= i < idx :: output[i] == ':'
    {
      idx := idx + 1;
    }
  }

  /** Whether the component at idxse, of those written before idxwr, is the one at idxrd; idx is the
      number of characters compared. */
  method Compare(output: array<char>, idxse: nat, idxwr: nat, idxrd: nat, idxend: nat,
                 ghost w: string, ghost n: nat)
    returns (same: bool, idx: nat)
    requires idxse < idxwr <= idxrd <= idxend <= output.Length && w == output[..idxwr]
    requires idxse + n < |w| && w[idxse + n] == ':' && forall i | idxse <= i < idxse + n :: w[i] != ':'
    ensures idx <= n
    ensures var s := output[idxrd..idxend]; same <==> w[idxse..idxse + n] == s[..CompLen(s)]
  {
    ghost var s := output[idxrd..idxend];
    idx := 0;
    while idxse + idx < idxwr && output[idxse + idx] != ':' && idxrd + idx < idxend
          && output[idxse + idx] == output[idxrd + idx]
      invariant idx <= n && idxrd + idx <= idxend
      invariant forall i | 0 <= i < idx :: w[idxse + i] == s[i]
    {
      idx := idx + 1;
    }
    Compared(w, idxse, n, s, idx);
    same := idxse + idx < idxwr && output[idxse + idx] == ':' && (idxrd + idx == idxend || output[idxrd + idx] == ':');
  }

  /** A position of the search: at the start, at the end or at the colon that ends a component, the
      component searched not being before it. */
  ghost predicate Searched(w: string, idxse: nat, cur: string) {
    idxse <= |w| && (idxse == 0 || idxse == |w| || w[idxse] == ':') && cur !in Comps(w[..idxse])
  }

  /** Examines the next component of those written before idxwr. */
  method SearchOne(output: array<char>, idxse: nat, idxwr: nat, idxrd: nat, idxend: nat, ghost w: string,
                   ghost cur: string)
    returns (found: bool, next: nat)
    requires idxse < idxwr <= idxrd <= idxend <= output.Length && output[idxwr - 1] == ':'
    requires w == output[..idxwr] && cur == output[idxrd..idxend][..CompLen(output[idxrd..idxend])]
    requires Searched(w, idxse, cur)
    ensures if found then next < idxwr && cur in Comps(w) else idxse < next && Searched(w, next, cur)
  {
    next := SkipColons(output, idxse, idxwr);
    found := false;
    if next == idxwr {
      PassColons(w, idxse, next);
      return;
    }
    ghost var start, n := next, CompLen(w[next..]);
    Examined(w, idxse, start, n, cur);
    var idx;
    found, idx := Compare(output, next, idxwr, idxrd, idxend, w, n);
    if !found {
      next := SkipComponent(output, next + idx, idxwr, w, start + n);
    }
  }

  lemma Examined(w: string, was: nat, start: nat, n: nat, cur: string)
    requires Searched(w, was, cur) && was <= start < |w| && w[start] != ':' && w[|w| - 1] == ':'
    requires n == CompLen(w[start..]) && forall i | was <= i < start :: w[i] == ':'
    ensures n > 0 && start + n < |w| && w[start + n] == ':' && forall i | start <= i < start + n :: w[i] != ':'
    ensures if cur == w[start..start + n] then cur in Comps(w) else Searched(w, start + n, cur)
  {
    PassColons(w, was, start);
    AtComponent(w, start);
    assert start == 0 || w[start - 1] == ':';
    PassComponent(w, start, n);
  }

  /** The search of the component at idxrd among those written before idxwr: idxwr when absent. */
  method Search(output: array<char>, idxwr: nat, idxrd: nat, idxend: nat) returns (idxse: nat)
    requires idxwr <= idxrd <= idxend <= output.Length
    requires idxwr > 0 ==> output[idxwr - 1] == ':'
    ensures idxse <= idxwr
    ensures var s := output[idxrd..idxend]; idxse < idxwr <==> s[..CompLen(s)] in Comps(output[..idxwr])
  {
    ghost var w, s := output[..idxwr], output[idxrd..idxend];
    idxse := 0;
    while idxse < idxwr
      invariant Searched(w, idxse, s[..CompLen(s)])
      decreases idxwr - idxse
    {
      var found;
      found, idxse := SearchOne(output, idxse, idxwr, idxrd, idxend, w, s[..CompLen(s)]);
      if found {
        return;
      }
    }
    assert w[..idxwr] == w;
  }

  lemma AtComponent(w: string, a: nat)
    requires a < |w| && w[a] != ':' && w[|w| - 1] == ':'
    ensures var n := CompLen(w[a..]);
            n > 0 && a + n < |w| && w[a + n] == ':' && forall i | a <= i < a + n :: w[i] != ':'
  {
    var s := w[a..];
    var n := CompLen(s);
    assert forall i | a <= i < a + n :: w[i] == s[i - a];
    assert s[|s| - 1] == w[|w| - 1];
  }

  // ---- one component ----

  /** What the source consumes of a text for its first component: the component and its colon. */
  function Taken(s: string): (k: nat)
    ensures CompLen(s) <= k <= |s|
  {
    if CompLen(s) < |s| then CompLen(s) + 1 else CompLen(s)
  }

  /** Copies the component at idxrd, and its colon, to idxwr. */
  method CopyComponent(output: array<char>, idxwr: nat, idxrd: nat, idxend: nat) returns (wr: nat, rd: nat)
    requires idxwr <= idxrd <= idxend <= output.Length
    modifies output
    ensures var s := old(output[idxrd..idxend]);
            && wr == idxwr + Taken(s) && rd == idxrd + Taken(s)
            && wr <= rd <= idxend
            && output[..wr] == old(output[..idxwr]) + s[..Taken(s)]
            && output[rd..] == old(output[rd..])
  {
    ghost var w, all := output[..idxwr], output[..];
    ghost var s := all[idxrd..idxend];
    ghost var n: nat := 0;
    wr, rd := idxwr, idxrd;
    while rd < idxend
      invariant wr == idxwr + n && rd == idxrd + n && n <= CompLen(s)
      invariant output[..wr] == w + s[..n]
      invariant output[rd..] == all[rd..]
    {
      assert output[rd] == all[rd..][0] == s[n];
      Longer(output[..], w, s, n, idxrd, all);
      output[wr] := output[rd];
      wr, rd, n := wr + 1, rd + 1, n + 1;
      if output[wr - 1] == ':' {
        break;
      }
    }
    assert n == Taken(s);
  }

  lemma Longer(now: string, w: string, s: string, n: nat, idxrd: nat, all: string)
    requires n < |s| && |w| <= idxrd && idxrd + |s| <= |all| == |now| && s == all[idxrd..idxrd + |s|]
    requires now[..|w| + n] == w + s[..n] && now[idxrd + n..] == all[idxrd + n..]
    ensures var next := now[|w| + n := s[n]];
            next[..|w| + n + 1] == w + s[..n + 1] && next[idxrd + n + 1..] == all[idxrd + n + 1..]
  {
    var next := now[|w| + n := s[n]];
    assert next[..|w| + n + 1] == now[..|w| + n] + [s[n]];
    assert next[idxrd + n + 1..] == now[idxrd + n..][1..] == all[idxrd + n..][1..];
  }

  /** Skips the component at idxrd and its colon. */
  method DropComponent(output: array<char>, idxrd: nat, idxend: nat) returns (rd: nat)
    requires idxrd <= idxend <= output.Length
    ensures rd == idxrd + Taken(output[idxrd..idxend]) <= idxend
  {
    ghost var s := output[idxrd..idxend];
    rd := idxrd;
    while rd < idxend
      invariant idxrd <= rd <= idxrd + CompLen(s) && rd <= idxend
    {
      assert output[rd] == s[rd - idxrd];
      rd := rd + 1;
      if output[rd - 1] == ':' {
        break;
      }
    }
  }

  /** What is written is empty or ends with a colon. */
  predicate Closed(w: string) {
    w == "" || w[|w| - 1] == ':'
  }

  /** What is written has no empty component; its last colon may be missing at the end. */
  predicate Tidy(w: string, ended: bool) {
    w == Terminated(Comps(w)) || (ended && w + ":" == Terminated(Comps(w)))
  }

  lemma SkipLeading(s: string, skipped: nat)
    requires skipped <= |s| && (forall i | 0 <= i < skipped :: s[i] == ':')
    ensures Comps(s) == Comps(s[skipped..])
  {
    assert s == s[..skipped] + s[skipped..];
    CompsCut(s[..skipped], s[skipped..]);
    CompsOfColons(s[..skipped]);
  }

  lemma HeadTaken(t: string)
    requires t != "" && t[0] != ':'
    ensures var n := CompLen(t);
            && t[..n] != "" && ':' !in t[..n]
            && t[..Taken(t)] == (if n < |t| then t[..n] + ":" else t[..n])
            && Comps(t) == [t[..n]] + Comps(t[Taken(t)..])
  {
    CompsHead(t);
    var n := CompLen(t);
    assert |t[..n]| == n > 0 && forall i | 0 <= i < n :: t[..n][i] != ':';
    if n < |t| { assert t[..n + 1] == t[..n] + ":"; }
  }

  lemma TakeNew(w: string, cur: string, end: string)
    requires Closed(w) && cur != "" && ':' !in cur && (end == "" || end == ":")
    ensures Comps(w + (cur + end)) == Comps(w) + [cur]
    ensures w == Terminated(Comps(w)) ==> Tidy(w + (cur + end), end == "")
  {
    assert cur + "" == cur;
    CompsCut(w, cur + end);
    CompsOfOne(cur);
    TerminatedGrows(Comps(w), cur);
    assert w + cur + ":" == w + (cur + ":");
  }

  lemma TerminatedGrows(cs: seq<string>, cur: string)
    ensures Terminated(cs + [cur]) == Terminated(cs) + cur + ":"
  {
    assert (cs + [cur])[..|cs|] == cs;
  }

  lemma AppendStep(acc: seq<string>, cur: string, rest: seq<string>)
    ensures AppendNew(acc, [cur] + rest) == AppendNew(if cur in acc then acc else acc + [cur], rest)
  {
    assert ([cur] + rest)[1..] == rest;
  }

  /** The turn of the loop that reads the component at the start of t, unless it is in w. */
  lemma HeadComponent(w: string, t: string, found: bool)
    requires Closed(w) && t != "" && t[0] != ':'
    requires found <==> t[..CompLen(t)] in Comps(w)
    ensures var w' := if found then w else w + t[..Taken(t)];
            var rest := t[Taken(t)..];
            && AppendNew(Comps(w'), Comps(rest)) == AppendNew(Comps(w), Comps(t))
            && (rest != "" ==> Closed(w'))
            && (w == Terminated(Comps(w)) ==> Tidy(w', rest == ""))
  {
    HeadTaken(t);
    var cur, rest := t[..CompLen(t)], t[Taken(t)..];
    AppendStep(Comps(w), cur, Comps(rest));
    if !found {
      var end := if CompLen(t) < |t| then ":" else "";
      assert t[..Taken(t)] == cur + end;
      TakeNew(w, cur, end);
    }
  }

  /** The same, colons being skipped first. */
  lemma OneComponent(w: string, s: string, skipped: nat, found: bool)
    requires Closed(w) && skipped <= |s| && (forall i | 0 <= i < skipped :: s[i] == ':')
    requires skipped < |s| ==> s[skipped] != ':'
    requires var t := s[skipped..]; found <==> t[..CompLen(t)] in Comps(w)
    ensures var t := s[skipped..];
            var w' := if found then w else w + t[..Taken(t)];
            var rest := t[Taken(t)..];
            && AppendNew(Comps(w'), Comps(rest)) == AppendNew(Comps(w), Comps(s))
            && (rest != "" ==> Closed(w'))
            && (w == Terminated(Comps(w)) ==> Tidy(w', rest == ""))
  {
    var t := s[skipped..];
    SkipLeading(s, skipped);
    if t == "" {
      assert w + t[..0] == w;
    } else {
      HeadComponent(w, t, found);
    }
  }

  // ---- the loop ----

  /** Written part w and part s still to read: what the loop will have written in the end. */
  ghost predicate Merging(w: string, s: string, target: seq<string>, tidy: bool) {
    && AppendNew(Comps(w), Comps(s)) == target
    && (s != "" ==> Closed(w))
    && (tidy ==> Tidy(w, s == ""))
  }

  /** Copies or drops the component at idxrd. */
  method Move(output: array<char>, idxwr: nat, idxrd: nat, idxend: nat, found: bool, ghost t: string)
    returns (wr: nat, rd: nat)
    requires idxwr <= idxrd <= idxend <= output.Length && t == output[idxrd..idxend]
    modifies output
    ensures wr <= rd <= idxend && rd == idxrd + Taken(t)
    ensures output[..wr] == if found then old(output[..idxwr]) else old(output[..idxwr]) + t[..Taken(t)]
    ensures output[rd..idxend] == t[Taken(t)..]
  {
    if found {
      wr := idxwr;
      rd := DropComponent(output, idxrd, idxend);
    } else {
      ghost var all := output[..];
      wr, rd := CopyComponent(output, idxwr, idxrd, idxend);
      Remains(all, output[..], idxrd, rd, idxend);
    }
  }

  /** Reads one component and writes it if it is new. */
  method AppendOne(output: array<char>, idxwr: nat, idxrd: nat, idxend: nat, ghost target: seq<string>,
                   ghost tidy: bool)
    returns (wr: nat, rd: nat)
    requires idxwr <= idxrd < idxend <= output.Length
    requires Merging(output[..idxwr], output[idxrd..idxend], target, tidy)
    modifies output
    ensures wr <= rd <= idxend && idxrd < rd
    ensures Merging(output[..wr], output[rd..idxend], target, tidy)
  {
    ghost var w, s := output[..idxwr], output[idxrd..idxend];
    rd := SkipColons(output, idxrd, idxend);
    ghost var skipped := rd - idxrd;
    ghost var t := s[skipped..];
    Skipped(output[..], idxrd, rd, idxend, s);
    assert idxwr > 0 ==> w[idxwr - 1] == output[idxwr - 1];
    var idxse := Search(output, idxwr, rd, idxend);
    OneComponent(w, s, skipped, idxse < idxwr);
    assert rd < idxend ==> Taken(t) > 0;
    wr, rd := Move(output, idxwr, rd, idxend, idxse < idxwr, t);
  }

  lemma Skipped(all: string, a: nat, b: nat, c: nat, s: string)
    requires a <= b <= c <= |all| && s == all[a..c] && forall i | a <= i < b :: all[i] == ':'
    ensures s[b - a..] == all[b..c]
    ensures forall i | 0 <= i < b - a :: s[i] == ':'
    ensures b < c ==> s[b - a] == all[b]
  {
    assert forall i | 0 <= i < b - a :: s[i] == all[a + i];
  }

  /** What remains to read is unchanged. */
  lemma Remains(before: string, after: string, a: nat, b: nat, c: nat)
    requires a <= b <= c <= |before| == |after| && after[b..] == before[b..]
    ensures after[b..c] == before[a..c][b - a..]
  {
    assert after[b..c] == after[b..][..c - b];
    assert before[b..c] == before[b..][..c - b];
  }

  /** Removes the colons at the end. */
  method TrimColons(output: array<char>, idxwr: nat) returns (idx: nat)
    requires idxwr <= output.Length
    ensures idx <= idxwr && (idx > 0 ==> output[idx - 1] != ':')
    ensures forall i | idx <= i < idxwr :: output[i] == ':'
  {
    idx := idxwr;
    while idx > 0 && output[idx - 1] == ':'
      invariant idx <= idxwr
      invariant forall i | idx <= i < idxwr :: output[i] == ':'
    {
      idx := idx - 1;
    }
  }

  lemma Trimmed(w: string, idx: nat)
    requires idx <= |w| && (idx > 0 ==> w[idx - 1] != ':') && forall i | idx <= i < |w| :: w[i] == ':'
    ensures Comps(w[..idx]) == Comps(w)
  {
    PassColons(w, idx, |w|);
    assert w[..|w|] == w;
  }

  lemma TrimmedCanonical(w: string, idx: nat)
    requires idx <= |w| && (idx > 0 ==> w[idx - 1] != ':') && forall i | idx <= i < |w| :: w[i] == ':'
    requires Tidy(w, true)
    ensures Canonical(w[..idx])
  {
    Trimmed(w, idx);
    CompsProper(w);
    var cs := Comps(w);
    if cs == [] {
      assert w == "";
    } else {
      assert cs[|cs| - 1] in cs;
      TrimmedJoin(w, idx, cs);
    }
  }

  lemma TrimmedJoin(w: string, idx: nat, cs: seq<string>)
    requires idx <= |w| && (idx > 0 ==> w[idx - 1] != ':') && forall i | idx <= i < |w| :: w[i] == ':'
    requires cs != [] && cs[|cs| - 1] != "" && ':' !in cs[|cs| - 1]
    requires w == Terminated(cs) || w + ":" == Terminated(cs)
    ensures w[..idx] == Join(cs)
  {
    var last, j := cs[|cs| - 1], Join(cs);
    assert j[|j| - 1] == last[|last| - 1] != ':';
    assert w == j || w == j + ":" by {
      if w + ":" == j + ":" {
        assert w == (w + ":")[..|w|] && j == (j + ":")[..|j|];
      }
    }
    assert w[|j| - 1] == j[|j| - 1];
    assert idx == |j|;
  }

  /** The room needed to append a text to a list of that length. */
  function Needed(length: nat, text: string): nat {
    length + (if length > 0 then 1 else 0) + |text|
  }

  /** The text can be expanded and appended to a list of that length. */
  ghost predicate Appendable(ctx: Context, length: nat, maxlen: nat, input: string)
    requires Acyclic(ctx)
  {
    length < maxlen && Expansion(ctx, input).Some? && Needed(length, Expansion(ctx, input).value) <= maxlen
  }

  /** RedConfAppendExpandedPath. beyond tells that the final zero falls after the last cell of the
      buffer: it does exactly when the new list fills the whole buffer. */
  method RedConfAppendExpandedPath(ctx: Context, output: array<char>, idxOut: nat, maxlen: nat, input: string)
    returns (rc: int, idx: nat, beyond: bool)
    requires Acyclic(ctx) && idxOut <= maxlen <= output.Length
    modifies output
    ensures idx <= maxlen
    ensures rc == if Appendable(ctx, idxOut, maxlen, input) then 0 else 1
    ensures var e := Expansion(ctx, input);
            rc == 0 <==> idxOut < maxlen && e.Some? && (if idxOut == 0 then 0 else idxOut + 1) + |e.value| <= maxlen
    ensures rc == 0 ==>
              && Comps(output[..idx]) == AppendNew(Comps(old(output[..idxOut])), Comps(Expansion(ctx, input).value))
              && (Canonical(old(output[..idxOut])) ==> Canonical(output[..idx]))
    ensures beyond == (rc == 0 && idx == output.Length)
    ensures rc == 0 && !beyond ==> output[idx] == '\0'
  {
    if idxOut >= maxlen {
      return 1, idxOut, false;
    }
    ghost var prior := output[..idxOut];
    var idxbeg := Separate(output, idxOut);
    ghost var w := output[..idxbeg];
    Opening(prior, w);
    rc, idx := DefaultsExpand(ctx, ctx.top, input, output, idxbeg, maxlen);
    if rc != 0 {
      return 1, idx, false;
    }
    ghost var target := AppendNew(Comps(prior), Comps(Expansion(ctx, input).value));
    assert Merging(output[..idxbeg], output[idxbeg..idx], target, Canonical(prior));
    idx := MergeComponents(output, idxbeg, idx, target, Canonical(prior));
    beyond := Close(output, idx);
  }

  /** Adds the separator after a list that is not empty. */
  method Separate(output: array<char>, idxOut: nat) returns (idxbeg: nat)
    requires idxOut < output.Length
    modifies output
    ensures idxbeg == (if idxOut > 0 then idxOut + 1 else 0) <= output.Length
    ensures output[..idxbeg] == if idxOut > 0 then old(output[..idxOut]) + ":" else ""
  {
    idxbeg := idxOut;
    if idxbeg > 0 {
      output[idxbeg] := ':';
      idxbeg := idxbeg + 1;
    }
  }

  /** Adds the final zero, if it has a cell. */
  method Close(output: array<char>, idx: nat) returns (beyond: bool)
    requires idx <= output.Length
    modifies output
    ensures output[..idx] == old(output[..idx]) && beyond == (idx == output.Length)
    ensures !beyond ==> output[idx] == '\0'
  {
    beyond := idx == output.Length;
    if !beyond {
      output[idx] := '\0';
    }
  }

  /** Merges in place the components from idxbeg to idxend with those before idxbeg. */
  method MergeComponents(output: array<char>, idxbeg: nat, idxend: nat, ghost target: seq<string>, ghost tidy: bool)
    returns (idx: nat)
    requires idxbeg <= idxend <= output.Length
    requires Merging(output[..idxbeg], output[idxbeg..idxend], target, tidy)
    modifies output
    ensures idx <= idxend && (idx > 0 ==> output[idx - 1] != ':')
    ensures Comps(output[..idx]) == target && (tidy ==> Canonical(output[..idx]))
  {
    var idxrd: nat, idxwr: nat := idxbeg, idxbeg;
    while idxrd < idxend
      invariant idxwr <= idxrd <= idxend
      invariant Merging(output[..idxwr], output[idxrd..idxend], target, tidy)
      decreases idxend - idxrd
    {
      idxwr, idxrd := AppendOne(output, idxwr, idxrd, idxend, target, tidy);
    }
    ghost var w := output[..idxwr];
    idx := TrimColons(output, idxwr);
    assert forall i | 0 <= i < idxwr :: w[i] == output[i];
    Trimmed(w, idx);
    if tidy { TrimmedCanonical(w, idx); }
    assert w[..idx] == output[..idx];
  }

  /** The list and its added separator. */
  lemma Opening(prior: string, w: string)
    requires w == if prior != "" then prior + ":" else ""
    ensures Comps(w) == Comps(prior) && Closed(w)
    ensures Canonical(prior) ==> w == Terminated(Comps(w))
  {
    if prior != "" {
      CompsCut(prior, ":");
      CompsOfColons(":");
      assert Comps(prior) + [] == Comps(prior);
    }
  }
}
