/** The order in which the mixers meet definitions, and what the merge of a chain is. */
module Chains {
  import opened Strings
  import opened Config

  /** One definition met on the way from the leaf to the root. */
  datatype Visit<+E> = Visit(depth: nat, admin: bool, entry: E)

  /** What distinguishes the merge of variables, of capabilities and of exports. */
  datatype Policy<!E> = Policy(
    entries: Config -> seq<E>,
    name: (nat, E) -> string,
    skip: (nat, E) -> bool,
    /** the second of two definitions of a single configuration is refused */
    twice: (E, E) -> bool,
    /** a definition already overwritten at its own level by a descendant is refused */
    badly: (E, E) -> bool)

  /** A merged definition: the spelling met first, and the definition that won. */
  datatype Def<+E> = Def(name: string, entry: E, depth: nat, admin: bool)

  function Entries<E>(p: Policy<E>, node: Node, admin: bool): seq<E> {
    match Level(node, admin)
    case None => []
    case Some(config) => p.entries(config)
  }

  function LevelFrom<E>(p: Policy<E>, es: seq<E>, depth: nat, admin: bool, index: nat): seq<Visit<E>>
    decreases |es| - index
  {
    if index >= |es| then []
    else (if p.skip(depth, es[index]) then [] else [Visit(depth, admin, es[index])])
         + LevelFrom(p, es, depth, admin, index + 1)
  }

  /** Leaf to root, the admin configuration of a node before its normal one. */
  function VisitsFrom<E>(p: Policy<E>, chain: seq<Node>, depth: nat): seq<Visit<E>>
    decreases |chain| - depth
  {
    if depth >= |chain| then []
    else LevelFrom(p, Entries(p, chain[depth], true), depth, true, 0)
         + LevelFrom(p, Entries(p, chain[depth], false), depth, false, 0)
         + VisitsFrom(p, chain, depth + 1)
  }

  function Visits<E>(p: Policy<E>, chain: seq<Node>): seq<Visit<E>> {
    VisitsFrom(p, chain, 0)
  }

  predicate Named<E>(p: Policy<E>, v: Visit<E>, name: string) {
    EqNoCase(p.name(v.depth, v.entry), name)
  }

  function VisitName<E>(p: Policy<E>, v: Visit<E>): string {
    p.name(v.depth, v.entry)
  }

  /** Index of the first definition of a name at a level, |vs| when there is none. */
  function FirstAt<E>(p: Policy<E>, vs: seq<Visit<E>>, name: string, admin: bool): (r: nat)
    ensures r <= |vs|
    ensures r < |vs| ==> Named(p, vs[r], name) && vs[r].admin == admin
    ensures forall i | 0 <= i < r :: !(Named(p, vs[i], name) && vs[i].admin == admin)
  {
    if vs == [] || (Named(p, vs[0], name) && vs[0].admin == admin) then 0
    else 1 + FirstAt(p, vs[1..], name, admin)
  }

  lemma FirstAtConcat<E>(p: Policy<E>, a: seq<Visit<E>>, b: seq<Visit<E>>, name: string, admin: bool)
    ensures FirstAt(p, a + b, name, admin) ==
            if FirstAt(p, a, name, admin) < |a| then FirstAt(p, a, name, admin)
            else |a| + FirstAt(p, b, name, admin)
  {
    var f, g, h := FirstAt(p, a, name, admin), FirstAt(p, b, name, admin), FirstAt(p, a + b, name, admin);
    assert forall i | 0 <= i < |a| :: (a + b)[i] == a[i];
    assert forall i | 0 <= i < |b| :: (a + b)[|a| + i] == b[i];
    if f == |a| && |a| <= h < |a + b| {
      assert (a + b)[h] == b[h - |a|];
    }
  }

  /** The rule of every merge: the first admin definition, else the first normal one. */
  function Winner<E>(p: Policy<E>, vs: seq<Visit<E>>, name: string): (r: nat)
    ensures r <= |vs|
    ensures r < |vs| ==> Named(p, vs[r], name)
    ensures r == |vs| ==> forall i | 0 <= i < |vs| :: !Named(p, vs[i], name)
  {
    var a := FirstAt(p, vs, name, true);
    if a < |vs| then a else FirstAt(p, vs, name, false)
  }

  /** Definition j meets a winner-so-far of its own level and is refused by the policy. */
  predicate Clash<E>(p: Policy<E>, vs: seq<Visit<E>>, j: nat)
    requires j < |vs|
  {
    var w := Winner(p, vs[..j], VisitName(p, vs[j]));
    && w < j
    && vs[w].admin == vs[j].admin
    && if vs[w].depth == vs[j].depth then p.twice(vs[w].entry, vs[j].entry)
       else p.badly(vs[w].entry, vs[j].entry)
  }

  ghost predicate NoClash<E>(p: Policy<E>, vs: seq<Visit<E>>) {
    forall j | 0 <= j < |vs| :: !Clash(p, vs, j)
  }

  /** Indexes of the definitions bringing a new name, the most recent first. */
  function Discovered<E>(p: Policy<E>, vs: seq<Visit<E>>): (ds: seq<nat>)
    ensures forall t | 0 <= t < |ds| :: ds[t] < |vs|
  {
    if vs == [] then []
    else
      var n := |vs| - 1;
      if Winner(p, vs[..n], VisitName(p, vs[n])) < n then Discovered(p, vs[..n])
      else [n] + Discovered(p, vs[..n])
  }

  function Won<E>(p: Policy<E>, vs: seq<Visit<E>>, i: nat): (d: Def<E>)
    requires i < |vs|
    ensures d.name == VisitName(p, vs[i])
  {
    var name := VisitName(p, vs[i]);
    var w := Winner(p, vs, name);
    assert w < |vs| by { assert Named(p, vs[i], name); }
    Def(name, vs[w].entry, vs[w].depth, vs[w].admin)
  }

  /** The merge: one winner for each name, most recently discovered name first. */
  function Merged<E>(p: Policy<E>, vs: seq<Visit<E>>): (ds: seq<Def<E>>) {
    var found := Discovered(p, vs);
    seq(|found|, t requires 0 <= t < |found| => Won(p, vs, found[t]))
  }

  // ---- facts about the order of the walk ----

  predicate Before<E>(a: Visit<E>, b: Visit<E>) {
    a.depth < b.depth || (a.depth == b.depth && (b.admin ==> a.admin))
  }

  /** Depths never decrease, and within a node admin definitions come first. */
  ghost predicate InOrder<E>(vs: seq<Visit<E>>) {
    forall i, j | 0 <= i < j < |vs| :: Before(vs[i], vs[j])
  }

  lemma InOrderConcat<E>(a: seq<Visit<E>>, b: seq<Visit<E>>)
    requires InOrder(a) && InOrder(b)
    requires forall x, y | x in a && y in b :: Before(x, y)
    ensures InOrder(a + b)
  {
    var vs := a + b;
    forall i, j | 0 <= i < j < |vs|
      ensures Before(vs[i], vs[j])
    {
      if i < |a| <= j {
        assert vs[i] in a && vs[j] in b;
      }
    }
  }

  lemma {:induction false} LevelFromFacts<E>(p: Policy<E>, es: seq<E>, depth: nat, admin: bool, index: nat)
    ensures forall v | v in LevelFrom(p, es, depth, admin, index) ::
              v.depth == depth && v.admin == admin && v.entry in es && !p.skip(depth, v.entry)
    ensures forall i | index <= i < |es| && !p.skip(depth, es[i]) ::
              Visit(depth, admin, es[i]) in LevelFrom(p, es, depth, admin, index)
    decreases |es| - index
  {
    if index >= |es| {
    } else {
      LevelFromFacts(p, es, depth, admin, index + 1);
    }
  }

  lemma {:induction false} VisitsFromInOrder<E>(p: Policy<E>, chain: seq<Node>, depth: nat)
    ensures InOrder(VisitsFrom(p, chain, depth))
    ensures forall v | v in VisitsFrom(p, chain, depth) :: depth <= v.depth < |chain|
    decreases |chain| - depth
  {
    if depth >= |chain| {
    } else {
      VisitsFromInOrder(p, chain, depth + 1);
      LevelFromFacts(p, Entries(p, chain[depth], true), depth, true, 0);
      LevelFromFacts(p, Entries(p, chain[depth], false), depth, false, 0);
      var a := LevelFrom(p, Entries(p, chain[depth], true), depth, true, 0);
      var b := LevelFrom(p, Entries(p, chain[depth], false), depth, false, 0);
      InOrderConcat(a, b);
      InOrderConcat(a + b, VisitsFrom(p, chain, depth + 1));
    }
  }

  lemma LevelExact<E>(p: Policy<E>, es: seq<E>, depth: nat, admin: bool, v: Visit<E>)
    ensures v in LevelFrom(p, es, depth, admin, 0) <==>
            v.depth == depth && v.admin == admin && v.entry in es && !p.skip(depth, v.entry)
  {
    LevelFromFacts(p, es, depth, admin, 0);
    if v.depth == depth && v.admin == admin && v.entry in es && !p.skip(depth, v.entry) {
      var i :| 0 <= i < |es| && es[i] == v.entry;
      assert Visit(depth, admin, es[i]) == v;
    }
  }

  /** The walk meets exactly the definitions that are not skipped. */
  lemma {:induction false} VisitsExact<E>(p: Policy<E>, chain: seq<Node>, from: nat, v: Visit<E>)
    ensures v in VisitsFrom(p, chain, from)
       <==> from <= v.depth < |chain| && v.entry in Entries(p, chain[v.depth], v.admin)
            && !p.skip(v.depth, v.entry)
    decreases |chain| - from
  {
    if from >= |chain| {
    } else {
      VisitsExact(p, chain, from + 1, v);
      var ea, en := Entries(p, chain[from], true), Entries(p, chain[from], false);
      LevelExact(p, ea, from, true, v);
      LevelExact(p, en, from, false, v);
      var a := LevelFrom(p, ea, from, true, 0);
      var b := LevelFrom(p, en, from, false, 0);
      var c := VisitsFrom(p, chain, from + 1);
      assert v in VisitsFrom(p, chain, from) <==> v in a || v in b || v in c;
    }
  }

  // ---- facts about merges ----

  ghost predicate DistinctNames<E>(p: Policy<E>, vs: seq<Visit<E>>, ds: seq<nat>)
    requires forall t | 0 <= t < |ds| :: ds[t] < |vs|
  {
    forall s, t | 0 <= s < t < |ds| :: !Named(p, vs[ds[s]], VisitName(p, vs[ds[t]]))
  }

  /** Distinct names are still distinct when there is one more definition, and with its name if it is new. */
  lemma DistinctMore<E>(p: Policy<E>, vs: seq<Visit<E>>, prior: seq<nat>)
    requires vs != [] && forall t | 0 <= t < |prior| :: prior[t] < |vs| - 1
    requires DistinctNames(p, vs[..|vs| - 1], prior)
    ensures DistinctNames(p, vs, prior)
    ensures (forall t | 0 <= t < |prior| :: !Named(p, vs[prior[t]], VisitName(p, vs[|vs| - 1]))) ==>
              DistinctNames(p, vs, [|vs| - 1] + prior)
  {
    var n, all := |vs| - 1, [|vs| - 1] + prior;
    forall s, t | 0 <= s < t < |prior| ensures !Named(p, vs[prior[s]], VisitName(p, vs[prior[t]])) {
      assert vs[prior[s]] == vs[..n][prior[s]] && vs[prior[t]] == vs[..n][prior[t]];
    }
    if forall t | 0 <= t < |prior| :: !Named(p, vs[prior[t]], VisitName(p, vs[n])) {
      forall s, t | 0 <= s < t < |all| ensures !Named(p, vs[all[s]], VisitName(p, vs[all[t]])) {
        assert all[t] == prior[t - 1];
        assert s > 0 ==> all[s] == prior[s - 1];
      }
    }
  }

  lemma {:induction false} DiscoveredDescends<E>(p: Policy<E>, vs: seq<Visit<E>>)
    ensures forall s, t | 0 <= s < t < |Discovered(p, vs)| :: Discovered(p, vs)[t] < Discovered(p, vs)[s]
  {
    if vs == [] {
    } else {
      DiscoveredDescends(p, vs[..|vs| - 1]);
    }
  }

  lemma {:induction false} DiscoveredNames<E>(p: Policy<E>, vs: seq<Visit<E>>)
    ensures DistinctNames(p, vs, Discovered(p, vs))
  {
    if vs == [] {
    } else {
      var n := |vs| - 1;
      var ws := vs[..n];
      var prior := Discovered(p, ws);
      DiscoveredNames(p, ws);
      DistinctMore(p, vs, prior);
      if Winner(p, ws, VisitName(p, vs[n])) == n {
        assert forall t | 0 <= t < |prior| :: vs[prior[t]] == ws[prior[t]];
      }
    }
  }

  /** Names discovered are pairwise distinct, the latest first. */
  lemma DiscoveredDistinct<E>(p: Policy<E>, vs: seq<Visit<E>>)
    ensures forall s, t | 0 <= s < t < |Discovered(p, vs)| :: Discovered(p, vs)[t] < Discovered(p, vs)[s]
    ensures DistinctNames(p, vs, Discovered(p, vs))
  {
    DiscoveredDescends(p, vs);
    DiscoveredNames(p, vs);
  }

  /** Every definition's name is among the discovered ones. */
  lemma {:induction false} DiscoveredCovers<E>(p: Policy<E>, vs: seq<Visit<E>>, i: nat) returns (t: nat)
    requires i < |vs|
    ensures t < |Discovered(p, vs)| && Named(p, vs[Discovered(p, vs)[t]], VisitName(p, vs[i]))
    decreases |vs|
  {
    var n := |vs| - 1;
    var ws := vs[..n];
    var w := Winner(p, ws, VisitName(p, vs[n]));
    if i == n && w == n {
      t := 0;
    } else {
      var j := if i < n then i else w;
      var u := DiscoveredCovers(p, ws, j);
      t := CoversMore(p, vs, Discovered(p, ws), Discovered(p, vs), u, j, i);
    }
  }

  /** A name that is covered is still covered when there is one more. */
  lemma CoversMore<E>(p: Policy<E>, vs: seq<Visit<E>>, prior: seq<nat>, all: seq<nat>, u: nat, j: nat, i: nat)
    returns (t: nat)
    requires vs != [] && u < |prior| && prior[u] < |vs| - 1 && j < |vs| - 1 && i < |vs|
    requires all == prior || all == [|vs| - 1] + prior
    requires Named(p, vs[..|vs| - 1][prior[u]], VisitName(p, vs[..|vs| - 1][j]))
    requires j == i || Named(p, vs[..|vs| - 1][j], VisitName(p, vs[i]))
    ensures t < |all| && all[t] < |vs| && Named(p, vs[all[t]], VisitName(p, vs[i]))
  {
    t := if all == prior then u else u + 1;
    assert all[t] == prior[u];
  }

  /** One definition more changes the winner only of its own name, and only when an admin
      definition meets a normal winner. */
  lemma WinnerGrows<E>(p: Policy<E>, vs: seq<Visit<E>>, v: Visit<E>, name: string)
    ensures var w, w' := Winner(p, vs, name), Winner(p, vs + [v], name);
            w' == if !Named(p, v, name) then (if w < |vs| then w else |vs| + 1)
                  else if w == |vs| || (v.admin && !vs[w].admin) then |vs|
                  else w
  {
    var xs := vs + [v];
    forall a: bool
      ensures FirstAt(p, xs, name, a) ==
              if FirstAt(p, vs, name, a) < |vs| then FirstAt(p, vs, name, a)
              else if Named(p, v, name) && v.admin == a then |vs| else |vs| + 1
    {
      var f, g := FirstAt(p, vs, name, a), FirstAt(p, xs, name, a);
      assert forall i | 0 <= i < |vs| :: xs[i] == vs[i];
      assert xs[|vs|] == v;
    }
  }
}
