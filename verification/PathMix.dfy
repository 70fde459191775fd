/** mixPaths: the list of paths of a chain. */
module PathMix {
  import opened Wrappers
  import opened Config
  import opened Chains
  import opened ScalarMix
  import opened Expand
  import opened PathLists
  import opened PathAppend

  const PATH_BUFFER := 1024

  /** The contexts in which the texts of each node are expanded. */
  ghost predicate Contexts(contexts: seq<Context>, chain: seq<Node>) {
    |contexts| == |chain| && forall c | c in contexts :: Acyclic(c)
  }

  /** Definitions of a walk belong to nodes that have a context. */
  ghost predicate InContext(contexts: seq<Context>, vs: seq<Visit<string>>) {
    && (forall c | c in contexts :: Acyclic(c))
    && forall v | v in vs :: v.depth < |contexts|
  }

  /** The components of all the expanded texts, in the order of the walk. */
  ghost function AllComps(contexts: seq<Context>, vs: seq<Visit<string>>): seq<string>
    requires InContext(contexts, vs)
  {
    if vs == [] then []
    else
      var n := |vs| - 1;
      var e := Expansion(contexts[vs[n].depth], vs[n].entry);
      AllComps(contexts, vs[..n]) + (if e.Some? then Comps(e.value) else [])
  }

  /** The text of the first n definitions. */
  ghost function ListOf(contexts: seq<Context>, vs: seq<Visit<string>>, n: nat): string
    requires InContext(contexts, vs) && n <= |vs|
  {
    Join(Dedup(AllComps(contexts, vs[..n])))
  }

  /** Definition n can be appended to what precedes it. */
  ghost predicate Room(contexts: seq<Context>, vs: seq<Visit<string>>, n: nat)
    requires InContext(contexts, vs) && n < |vs|
  {
    Appendable(contexts[vs[n].depth], |ListOf(contexts, vs, n)|, PATH_BUFFER, vs[n].entry)
  }

  lemma {:induction false} AllCompsProper(contexts: seq<Context>, vs: seq<Visit<string>>)
    requires InContext(contexts, vs)
    ensures Proper(AllComps(contexts, vs)) && Proper(Dedup(AllComps(contexts, vs)))
  {
    if vs != [] {
      var n := |vs| - 1;
      AllCompsProper(contexts, vs[..n]);
      var e := Expansion(contexts[vs[n].depth], vs[n].entry);
      if e.Some? { CompsProper(e.value); }
    }
    AppendNewFacts([], AllComps(contexts, vs));
  }

  /** One definition more, on the text and on the components. */
  lemma ListGrows(contexts: seq<Context>, vs: seq<Visit<string>>, n: nat)
    requires InContext(contexts, vs) && n < |vs|
    requires Expansion(contexts[vs[n].depth], vs[n].entry).Some?
    ensures var s := ListOf(contexts, vs, n);
            && Canonical(s)
            && AppendNew(Comps(s), Comps(Expansion(contexts[vs[n].depth], vs[n].entry).value))
               == Dedup(AllComps(contexts, vs[..n + 1]))
  {
    AllCompsProper(contexts, vs[..n]);
    CompsJoin(Dedup(AllComps(contexts, vs[..n])));
    assert vs[..n + 1][..n] == vs[..n];
    AppendNewConcat([], AllComps(contexts, vs[..n]), Comps(Expansion(contexts[vs[n].depth], vs[n].entry).value));
  }

  /** What remains of the walk from a level of a node. */
  ghost function Remaining(p: Policy<string>, chain: seq<Node>, depth: nat, admin: bool): seq<Visit<string>> {
    if depth >= |chain| then []
    else if admin then VisitsFrom(p, chain, depth)
    else LevelFrom(p, Entries(p, chain[depth], false), depth, false, 0) + VisitsFrom(p, chain, depth + 1)
  }

  /** The definition of a level, if any. */
  function Here(getpath: Config -> Option<string>, chain: seq<Node>, depth: nat, admin: bool): seq<Visit<string>>
    requires depth < |chain|
  {
    match ValueAt(getpath, Level(chain[depth], admin))
    case None => []
    case Some(x) => [Visit(depth, admin, x)]
  }

  lemma Remains(getpath: Config -> Option<string>, chain: seq<Node>, depth: nat, admin: bool)
    requires depth < |chain|
    ensures var p := OnePass(getpath);
            var next := if admin then Remaining(p, chain, depth, false) else Remaining(p, chain, depth + 1, true);
            Remaining(p, chain, depth, admin) == Here(getpath, chain, depth, admin) + next
  {
    var p := OnePass(getpath);
    LevelOfOne(getpath, chain[depth], depth, admin);
    var a := LevelFrom(p, Entries(p, chain[depth], true), depth, true, 0);
    var b := LevelFrom(p, Entries(p, chain[depth], false), depth, false, 0);
    var c := VisitsFrom(p, chain, depth + 1);
    assert VisitsFrom(p, chain, depth) == a + b + c == a + (b + c);
    assert Remaining(p, chain, depth + 1, true) == c && Remaining(p, chain, depth, false) == b + c;
  }

  /** The first n definitions are in the buffer, and the rest is still to come. */
  ghost predicate Filled(contexts: seq<Context>, vs: seq<Visit<string>>, n: nat, text: string,
                         rest: seq<Visit<string>>) {
    && InContext(contexts, vs) && n <= |vs| && vs == vs[..n] + rest
    && (forall i | 0 <= i < n :: Room(contexts, vs, i))
    && text == ListOf(contexts, vs, n)
  }

  /** Appending definition n succeeds and fills the whole buffer: no cell is left for the final zero. */
  ghost predicate Overruns(contexts: seq<Context>, vs: seq<Visit<string>>, n: nat)
    requires InContext(contexts, vs) && n < |vs|
  {
    (forall i | 0 <= i <= n :: Room(contexts, vs, i)) && |ListOf(contexts, vs, n + 1)| == PATH_BUFFER
  }

  ghost predicate SomeOverruns(contexts: seq<Context>, vs: seq<Visit<string>>, upto: nat)
    requires InContext(contexts, vs) && upto <= |vs|
  {
    exists n | 0 <= n < upto :: Overruns(contexts, vs, n)
  }

  /** What the walk has done: the text of the first n definitions, or a refusal of definition n. */
  ghost predicate Walked(contexts: seq<Context>, vs: seq<Visit<string>>, n: nat, rc: int, text: string,
                         rest: seq<Visit<string>>, beyond: bool)
  {
    && InContext(contexts, vs) && n <= |vs| && beyond == SomeOverruns(contexts, vs, n)
    && if rc == 0 then Filled(contexts, vs, n, text, rest) else rc == 1 && n < |vs| && !Room(contexts, vs, n)
  }

  /** Appends the text of one level, if any. */
  method MixLevel(contexts: seq<Context>, chain: seq<Node>, getpath: Config -> Option<string>, depth: nat, admin: bool,
                  buffer: array<char>, length: nat, was: bool, ghost vs: seq<Visit<string>>, ghost n: nat,
                  ghost rest: seq<Visit<string>>)
    returns (rc: int, length': nat, beyond: bool, ghost n': nat)
    requires Contexts(contexts, chain) && depth < |chain|
    requires length <= PATH_BUFFER == buffer.Length
    requires Walked(contexts, vs, n, 0, buffer[..length], Here(getpath, chain, depth, admin) + rest, was)
    modifies buffer
    ensures length' <= PATH_BUFFER
    ensures Walked(contexts, vs, n', rc, buffer[..length'], rest, beyond)
  {
    rc, length', beyond, n' := 0, length, was, n;
    var path := ValueAt(getpath, Level(chain[depth], admin));
    if path.Some? {
      assert vs[n] == Visit(depth, admin, path.value);
      assert vs == vs[..n + 1] + rest;
      var out;
      rc, length', out := RedConfAppendExpandedPath(contexts[depth], buffer, length, PATH_BUFFER, path.value);
      beyond := was || out;
      if rc == 0 {
        ListGrows(contexts, vs, n);
        n' := n + 1;
        assert out == Overruns(contexts, vs, n);
      }
    } else {
      assert [] + rest == rest;
    }
  }

  /** The loop of mixPaths. */
  method Fill(contexts: seq<Context>, chain: seq<Node>, getpath: Config -> Option<string>, buffer: array<char>,
              ghost vs: seq<Visit<string>>)
    returns (rc: int, length: nat, beyond: bool, ghost n: nat)
    requires Contexts(contexts, chain) && PATH_BUFFER == buffer.Length
    requires vs == Visits(OnePass(getpath), chain) && InContext(contexts, vs)
    modifies buffer
    ensures length <= PATH_BUFFER
    ensures Walked(contexts, vs, n, rc, buffer[..length], [], beyond)
  {
    ghost var p := OnePass(getpath);
    var depth: nat, admin := 0, true;
    n := 0;
    rc, length, beyond := 0, 0, false;
    assert vs[..0] + Remaining(p, chain, 0, true) == vs;
    assert Filled(contexts, vs, n, buffer[..length], Remaining(p, chain, depth, admin));
    while rc == 0 && depth < |chain|
      invariant depth <= |chain| && length <= PATH_BUFFER
      invariant Walked(contexts, vs, n, rc, buffer[..length], Remaining(p, chain, depth, admin), beyond)
      decreases |chain| - depth, admin
    {
      rc, length, depth, admin, beyond, n :=
        FillOne(contexts, chain, getpath, depth, admin, buffer, length, beyond, vs, n);
    }
  }

  /** One turn of the loop. */
  method FillOne(contexts: seq<Context>, chain: seq<Node>, getpath: Config -> Option<string>, depth: nat, admin: bool,
                 buffer: array<char>, length: nat, was: bool, ghost vs: seq<Visit<string>>, ghost n: nat)
    returns (rc: int, length': nat, depth': nat, admin': bool, beyond: bool, ghost n': nat)
    requires Contexts(contexts, chain) && depth < |chain|
    requires length <= PATH_BUFFER == buffer.Length
    requires Walked(contexts, vs, n, 0, buffer[..length], Remaining(OnePass(getpath), chain, depth, admin), was)
    modifies buffer
    ensures length' <= PATH_BUFFER
    ensures if admin then depth' == depth && !admin' else depth' == depth + 1 && admin'
    ensures Walked(contexts, vs, n', rc, buffer[..length'], Remaining(OnePass(getpath), chain, depth', admin'), beyond)
  {
    Remains(getpath, chain, depth, admin);
    depth', admin' := if admin then depth else depth + 1, !admin;
    ghost var rest := Remaining(OnePass(getpath), chain, depth', admin');
    rc, length', beyond, n' := MixLevel(contexts, chain, getpath, depth, admin, buffer, length, was, vs, n, rest);
  }

  /** At the end of the walk all has been appended, or the first definition without room was refused. */
  lemma WalkedAll(contexts: seq<Context>, vs: seq<Visit<string>>, n: nat, rc: int, text: string, beyond: bool)
    requires Walked(contexts, vs, n, rc, text, [], beyond)
    ensures if forall i | 0 <= i < |vs| :: Room(contexts, vs, i) then rc == 0 && text == ListOf(contexts, vs, |vs|)
            else rc == 1
    ensures beyond == SomeOverruns(contexts, vs, |vs|)
  {
    if rc == 0 {
      assert vs[..n] + [] == vs[..n];
      assert n == |vs|;
    } else {
      assert forall m | n <= m < |vs| :: !Overruns(contexts, vs, m);
    }
  }

  /** mixPaths. The callback, when it is called, gets the text and returns answer; beyond tells that a
      final zero has been written after the buffer. */
  method MixPaths(contexts: seq<Context>, chain: seq<Node>, getpath: Config -> Option<string>, answer: int)
    returns (rc: int, call: Option<string>, beyond: bool)
    requires Contexts(contexts, chain)
    ensures InContext(contexts, Visits(OnePass(getpath), chain))
    ensures var vs := Visits(OnePass(getpath), chain);
            var list := Join(Dedup(AllComps(contexts, vs)));
            if (forall n | 0 <= n < |vs| :: Room(contexts, vs, n)) then
              if list != "" then rc == answer && call == Some(list) else rc == 0 && call == None
            else rc == 1 && call == None
    ensures beyond == SomeOverruns(contexts, Visits(OnePass(getpath), chain), |Visits(OnePass(getpath), chain)|)
  {
    VisitsFromInOrder(OnePass(getpath), chain, 0);
    ghost var vs := Visits(OnePass(getpath), chain);
    var buffer := new char[PATH_BUFFER];
    var length;
    ghost var n;
    rc, length, beyond, n := Fill(contexts, chain, getpath, buffer, vs);
    WalkedAll(contexts, vs, n, rc, buffer[..length], beyond);
    call := None;
    assert vs[..|vs|] == vs;
    if rc == 0 && length > 0 {
      call := Some(buffer[..length]);
      rc := answer;
    }
  }

  /** A single path that fills the buffer and expands to itself is accepted, and overruns. */
  lemma FullPathOverruns(contexts: seq<Context>, vs: seq<Visit<string>>, s: string)
    requires InContext(contexts, vs) && |vs| == 1 && vs[0].entry == s
    requires |s| == 1024 && '$' !in s && ':' !in s
    ensures Room(contexts, vs, 0) && SomeOverruns(contexts, vs, |vs|)
  {
    var ctx := contexts[vs[0].depth];
    NothingToEscape(s);
    EscapeRoundTrip(ctx, s);
    CompsOfOne(s);
    assert vs[..0] == [] && vs[..1] == vs;
    assert AllComps(contexts, vs) == AllComps(contexts, []) + Comps(s) == [s];
    assert AppendNew([s], []) == [s] && [s][1..] == [];
    assert Dedup([s]) == AppendNew([] + [s], [s][1..]) == [s];
    assert Join([s]) == s;
    assert Overruns(contexts, vs, 0);
  }

  lemma {:induction false} NothingToEscape(s: string)
    requires '$' !in s
    ensures Escape(s) == s
  {
    if s == "" {
    } else {
      assert s[0] in s && forall c | c in s[1..] :: c in s;
      NothingToEscape(s[1..]);
      assert s == [s[0]] + s[1..];
    }
  }

  /** The merged list holds the components of all the texts once each, in the order in which they are
      first met: those of a child before those of its parents, those of admin before normal ones. */
  lemma MergedPaths(contexts: seq<Context>, vs: seq<Visit<string>>)
    requires InContext(contexts, vs)
    ensures var all := AllComps(contexts, vs);
            var r := Comps(Join(Dedup(all)));
            && Distinct(r)
            && (forall c :: c in r <==> c in all)
            && (forall i, j | 0 <= i < j < |r| :: First(all, r[i]) < First(all, r[j]))
  {
    AllCompsProper(contexts, vs);
    CompsJoin(Dedup(AllComps(contexts, vs)));
    DedupExact(AllComps(contexts, vs));
  }
}
