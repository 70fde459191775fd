/** Colon separated lists of paths. */
module PathLists {

  /** Length of the component at the start of a text. */
  function CompLen(s: string): (n: nat)
    ensures n <= |s|
    ensures forall i | 0 <= i < n :: s[i] != ':'
    ensures n < |s| ==> s[n] == ':'
  {
    if s == "" || s[0] == ':' then 0 else 1 + CompLen(s[1..])
  }

  /** The components of a list: what lies between colons, and is not empty. */
  function Comps(s: string): seq<string>
    decreases |s|
  {
    if s == "" then []
    else if s[0] == ':' then Comps(s[1..])
    else [s[..CompLen(s)]] + Comps(s[CompLen(s)..])
  }

  /** Adds the components that are not there yet, in order. */
  function AppendNew(acc: seq<string>, cs: seq<string>): seq<string>
    decreases |cs|
  {
    if cs == [] then acc
    else AppendNew(if cs[0] in acc then acc else acc + [cs[0]], cs[1..])
  }

  /** The components, each followed by a colon. */
  function Terminated(cs: seq<string>): string {
    if cs == [] then "" else Terminated(cs[..|cs| - 1]) + cs[|cs| - 1] + ":"
  }

  /** The components, separated by single colons. */
  function Join(cs: seq<string>): (s: string)
    ensures cs != [] ==> Terminated(cs) == s + ":"
  {
    if cs == [] then "" else Terminated(cs[..|cs| - 1]) + cs[|cs| - 1]
  }

  /** No empty component. */
  predicate Canonical(s: string) {
    s == Join(Comps(s))
  }

  ghost predicate Distinct(cs: seq<string>) {
    forall i, j | 0 <= i < j < |cs| :: cs[i] != cs[j]
  }

  // ---- facts about lists ----

  lemma {:induction false} AppendNewFacts(acc: seq<string>, cs: seq<string>)
    ensures var r := AppendNew(acc, cs);
            && acc <= r
            && (Distinct(acc) ==> Distinct(r))
            && (forall c :: c in r <==> c in acc || c in cs)
    decreases |cs|
  {
    if cs == [] {
    } else {
      AppendNewFacts(if cs[0] in acc then acc else acc + [cs[0]], cs[1..]);
      assert cs == [cs[0]] + cs[1..];
    }
  }

  lemma {:induction false} AppendNewConcat(acc: seq<string>, a: seq<string>, b: seq<string>)
    ensures AppendNew(acc, a + b) == AppendNew(AppendNew(acc, a), b)
    decreases |a|
  {
    if a == [] {
      assert a + b == b;
    } else {
      assert (a + b)[1..] == a[1..] + b;
      AppendNewConcat(if a[0] in acc then acc else acc + [a[0]], a[1..], b);
    }
  }

  lemma {:induction false} CompsProper(s: string)
    ensures forall c | c in Comps(s) :: c != "" && ':' !in c
    decreases |s|
  {
    if s == "" {
    } else {
      if s[0] == ':' { CompsProper(s[1..]); } else { CompsProper(s[CompLen(s)..]); }
    }
  }

  lemma CompLenIs(s: string, n: nat)
    requires n <= |s| && (forall i | 0 <= i < n :: s[i] != ':') && (n < |s| ==> s[n] == ':')
    ensures CompLen(s) == n
  {
  }

  /** A cut next to a colon or at an end splits the components. */
  lemma {:induction false} CompsCut(a: string, b: string)
    requires a == "" || b == "" || a[|a| - 1] == ':' || b[0] == ':'
    ensures Comps(a + b) == Comps(a) + Comps(b)
    decreases |a|
  {
    if a == "" {
      assert a + b == b;
    } else if a[0] == ':' {
      assert (a + b)[1..] == a[1..] + b;
      CompsCut(a[1..], b);
    } else {
      var n := CompLen(a);
      var r := a[n..];
      HeadLen(a, b);
      assert (a + b)[n..] == r + b && (a + b)[..n] == a[..n];
      assert r == "" || r[|r| - 1] == a[|a| - 1];
      CompsCut(r, b);
    }
  }

  lemma HeadLen(a: string, b: string)
    requires CompLen(a) < |a| || b == "" || b[0] == ':'
    ensures CompLen(a + b) == CompLen(a)
  {
    CompLenIs(a + b, CompLen(a));
  }

  lemma {:induction false} CompsOfColons(s: string)
    requires forall i | 0 <= i < |s| :: s[i] == ':'
    ensures Comps(s) == []
  {
    if s == "" {
    } else {
      CompsOfColons(s[1..]);
    }
  }

  lemma CompsOfOne(c: string)
    requires c != "" && ':' !in c
    ensures Comps(c) == [c] && Comps(c + ":") == [c]
  {
    CompLenIs(c, |c|);
    assert c[|c|..] == "" && c[..|c|] == c;
    CompLenIs(c + ":", |c|);
    assert (c + ":")[|c|..] == ":" && (c + ":")[..|c|] == c;
    assert Comps(":") == Comps("") by { assert ":"[1..] == ""; }
  }

  /** The first component of a text, when it does not start with a colon, and what follows it. */
  lemma CompsHead(s: string)
    requires s != "" && s[0] != ':'
    ensures var n := CompLen(s);
            && n > 0
            && Comps(s) == [s[..n]] + Comps(s[n..])
            && (n < |s| ==> Comps(s[n..]) == Comps(s[n + 1..]))
  {
    var n := CompLen(s);
    if n < |s| { assert s[n..][1..] == s[n + 1..]; }
  }

  // ---- lists without repeats ----

  ghost predicate Proper(cs: seq<string>) {
    forall c | c in cs :: c != "" && ':' !in c
  }

  lemma {:induction false} CompsTerminated(cs: seq<string>)
    requires Proper(cs)
    ensures Comps(Terminated(cs)) == cs
  {
    if cs == [] {
    } else {
      var before, last := cs[..|cs| - 1], cs[|cs| - 1];
      assert forall c | c in before :: c in cs;
      CompsTerminated(before);
      assert Terminated(cs) == Terminated(before) + (last + ":");
      assert Terminated(before) == "" || Terminated(before)[|Terminated(before)| - 1] == ':';
      CompsCut(Terminated(before), last + ":");
      assert last in cs;
      CompsOfOne(last);
    }
  }

  lemma CompsAfter(t: string, last: string)
    requires t == "" || t[|t| - 1] == ':'
    requires last != "" && ':' !in last
    ensures Comps(t + last) == Comps(t) + [last]
  {
    CompsCut(t, last);
    CompsOfOne(last);
  }

  lemma TerminatedEnds(cs: seq<string>)
    ensures Terminated(cs) == "" || Terminated(cs)[|Terminated(cs)| - 1] == ':'
  {
  }

  /** Joining and splitting: a list of proper components is what its text is made of. */
  lemma CompsJoin(cs: seq<string>)
    requires Proper(cs)
    ensures Comps(Join(cs)) == cs && Canonical(Join(cs))
  {
    if cs != [] {
      var before, last := cs[..|cs| - 1], cs[|cs| - 1];
      assert forall c | c in before :: c in cs;
      assert last in cs && cs == before + [last];
      CompsTerminated(before);
      TerminatedEnds(before);
      CompsAfter(Terminated(before), last);
      assert Join(cs) == Terminated(before) + last;
    }
  }

  /** The list without its repeats: each component at its first place. */
  function Dedup(cs: seq<string>): seq<string> {
    AppendNew([], cs)
  }

  /** Index of the first occurrence. */
  function First(cs: seq<string>, c: string): (k: nat)
    ensures k <= |cs| && (k < |cs| <==> c in cs)
    ensures k < |cs| ==> cs[k] == c && c !in cs[..k]
  {
    if cs == [] || cs[0] == c then 0 else 1 + First(cs[1..], c)
  }

  /** Removing repeats keeps the components and the order of their first occurrences. */
  lemma {:induction false} DedupExact(cs: seq<string>)
    ensures var r := Dedup(cs);
            && Distinct(r)
            && (forall c :: c in r <==> c in cs)
            && (forall i, j | 0 <= i < j < |r| :: First(cs, r[i]) < First(cs, r[j]))
    decreases |cs|
  {
    AppendNewFacts([], cs);
    if cs != [] {
      var n := |cs| - 1;
      var most, last := cs[..n], cs[n];
      assert cs == most + [last];
      DedupExact(most);
      AppendNewConcat([], most, [last]);
      var d := Dedup(most);
      AppendNewFacts([], most);
      assert Dedup(cs) == if last in d then d else d + [last];
      forall c | c in most
        ensures First(cs, c) == First(most, c)
      {
        FirstConcat(most, [last], c);
      }
      FirstConcat(most, [last], last);
      var r := Dedup(cs);
      forall i, j | 0 <= i < j < |r|
        ensures First(cs, r[i]) < First(cs, r[j])
      {
        assert r[i] == d[i] && d[i] in d;
        if j < |d| { assert r[j] == d[j] && d[j] in d; }
      }
    }
  }

  lemma {:induction false} FirstConcat(a: seq<string>, b: seq<string>, c: string)
    ensures First(a + b, c) == if c in a then First(a, c) else |a| + First(b, c)
  {
    if a == [] {
      assert a + b == b;
    } else {
      assert (a + b)[1..] == a[1..] + b;
      assert a == [a[0]] + a[1..];
      FirstConcat(a[1..], b, c);
    }
  }
}
