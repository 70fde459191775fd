/** One step of the merge on the list of merged definitions, and why it computes the merge. */
module MergeStep {
  import opened Wrappers
  import opened Strings
  import opened Chains

  /** Index of the definition of that name, |ds| when there is none. */
  function Find<E>(ds: seq<Def<E>>, name: string): (r: nat)
    ensures r <= |ds|
    ensures r < |ds| ==> EqNoCase(ds[r].name, name)
    ensures forall i | 0 <= i < r :: !EqNoCase(ds[i].name, name)
  {
    if ds == [] || EqNoCase(ds[0].name, name) then 0 else 1 + Find(ds[1..], name)
  }

  lemma FindAt<E>(ds: seq<Def<E>>, name: string, t: nat)
    requires t <= |ds|
    requires forall i | 0 <= i < t :: !EqNoCase(ds[i].name, name)
    requires t < |ds| ==> EqNoCase(ds[t].name, name)
    ensures Find(ds, name) == t
  {
  }

  /** What meeting v does to the list: None when it is refused. */
  function Step<E>(p: Policy<E>, ds: seq<Def<E>>, v: Visit<E>): Option<seq<Def<E>>> {
    var name := VisitName(p, v);
    var t := Find(ds, name);
    if t == |ds| then Some([Def(name, v.entry, v.depth, v.admin)] + ds)
    else if ds[t].depth == v.depth then
      if ds[t].admin == v.admin && p.twice(ds[t].entry, v.entry) then None else Some(ds)
    else if v.admin && !ds[t].admin then
      Some(ds[t := Def(ds[t].name, v.entry, v.depth, v.admin)])
    else if v.admin == ds[t].admin && p.badly(ds[t].entry, v.entry) then None
    else Some(ds)
  }

  /** The merge list holds, at t, the winner of the name of the t-th discovered definition. */
  lemma MergedAt<E>(p: Policy<E>, vs: seq<Visit<E>>, t: nat)
    requires t < |Merged(p, vs)|
    ensures Merged(p, vs)[t] == Won(p, vs, Discovered(p, vs)[t])
  {
  }

  /** Where a name already met is found in the merge list, and the winner it stands for. */
  lemma FindMet<E>(p: Policy<E>, vs: seq<Visit<E>>, name: string)
    ensures var w, t := Winner(p, vs, name), Find(Merged(p, vs), name);
            && (w == |vs| <==> t == |Merged(p, vs)|)
            && (w < |vs| ==> Merged(p, vs)[t].entry == vs[w].entry && Merged(p, vs)[t].depth == vs[w].depth
                             && Merged(p, vs)[t].admin == vs[w].admin)
  {
    var w, ds, found := Winner(p, vs, name), Merged(p, vs), Discovered(p, vs);
    var t := Find(ds, name);
    if w < |vs| {
      var u := DiscoveredCovers(p, vs, w);
      assert ds[u] == Won(p, vs, found[u]);
      assert EqNoCase(ds[u].name, name);
    }
    if t < |ds| {
      var i := found[t];
      assert ds[t] == Won(p, vs, i);
      assert Named(p, vs[i], name);
      WinnerOfSame(p, vs, VisitName(p, vs[i]), name);
    }
  }

  lemma {:induction false} FirstAtOfSame<E>(p: Policy<E>, vs: seq<Visit<E>>, a: string, b: string, admin: bool)
    requires EqNoCase(a, b)
    ensures FirstAt(p, vs, a, admin) == FirstAt(p, vs, b, admin)
  {
    if vs == [] {
    } else {
      FirstAtOfSame(p, vs[1..], a, b, admin);
    }
  }

  /** The winner does not depend on the case of the name. */
  lemma WinnerOfSame<E>(p: Policy<E>, vs: seq<Visit<E>>, a: string, b: string)
    requires EqNoCase(a, b)
    ensures Winner(p, vs, a) == Winner(p, vs, b)
  {
    FirstAtOfSame(p, vs, a, b, true);
    FirstAtOfSame(p, vs, a, b, false);
  }

  /** Two positions of the merge list never have the same name. */
  lemma MergedDistinct<E>(p: Policy<E>, vs: seq<Visit<E>>)
    ensures forall s, t | 0 <= s < t < |Merged(p, vs)| ::
              !EqNoCase(Merged(p, vs)[s].name, Merged(p, vs)[t].name)
  {
    DiscoveredDistinct(p, vs);
    var found := Discovered(p, vs);
    forall s, t | 0 <= s < t < |found|
      ensures !EqNoCase(Merged(p, vs)[s].name, Merged(p, vs)[t].name)
    {
      assert !Named(p, vs[found[s]], VisitName(p, vs[found[t]]));
      MergedAt(p, vs, s);
      MergedAt(p, vs, t);
    }
  }

  /** One definition more changes what is won only under its own name, and only when an admin
      definition meets a normal winner. */
  lemma WonGrows<E>(p: Policy<E>, vs: seq<Visit<E>>, v: Visit<E>, i: nat)
    requires i < |vs|
    ensures var d := Won(p, vs, i);
            Won(p, vs + [v], i) == if Named(p, v, d.name) && v.admin && !d.admin
                                   then Def(d.name, v.entry, v.depth, v.admin) else d
  {
    var xs := vs + [v];
    assert xs[i] == vs[i];
    var name := VisitName(p, vs[i]);
    WinnerGrows(p, vs, v, name);
    assert Named(p, vs[i], name);
    var w := Winner(p, vs, name);
    assert xs[w] == vs[w];
  }

  /** Item u, when the name is already there. */
  lemma SeenAt<E>(p: Policy<E>, vs: seq<Visit<E>>, v: Visit<E>, t: nat, u: nat)
    requires Discovered(p, vs + [v]) == Discovered(p, vs) && u < |Discovered(p, vs)|
    requires t == Find(Merged(p, vs), VisitName(p, v)) < |Discovered(p, vs)|
    ensures var ds := Merged(p, vs);
            Merged(p, vs + [v])[u] ==
            if u == t && v.admin && !ds[t].admin then Def(ds[t].name, v.entry, v.depth, v.admin) else ds[u]
  {
    MergedAt(p, vs, u);
    MergedAt(p, vs + [v], u);
    WonGrows(p, vs, v, Discovered(p, vs)[u]);
    if u != t {
      MergedDistinct(p, vs);
      assert !EqNoCase(Merged(p, vs)[u].name, Merged(p, vs)[t].name);
    }
  }

  /** What the step does for a name that is already there. */
  lemma MergedGrowsSeen<E>(p: Policy<E>, vs: seq<Visit<E>>, v: Visit<E>)
    requires Winner(p, vs, VisitName(p, v)) < |vs|
    ensures var ds := Merged(p, vs);
            var t := Find(ds, VisitName(p, v));
            && t < |ds|
            && Merged(p, vs + [v]) ==
               if v.admin && !ds[t].admin then ds[t := Def(ds[t].name, v.entry, v.depth, v.admin)] else ds
  {
    var xs, name := vs + [v], VisitName(p, v);
    var ds, es := Merged(p, vs), Merged(p, xs);
    FindMet(p, vs, name);
    var t := Find(ds, name);
    assert xs[..|vs|] == vs;
    var found := Discovered(p, vs);
    assert Discovered(p, xs) == found;
    var fs := if v.admin && !ds[t].admin then ds[t := Def(ds[t].name, v.entry, v.depth, v.admin)] else ds;
    forall u | 0 <= u < |fs|
      ensures es[u] == fs[u]
    {
      SeenAt(p, vs, v, t, u);
    }
    assert es == fs;
  }

  /** The first item, when the name is new. */
  lemma NewFirst<E>(p: Policy<E>, vs: seq<Visit<E>>, v: Visit<E>)
    requires Winner(p, vs, VisitName(p, v)) == |vs| && Discovered(p, vs + [v]) == [|vs|] + Discovered(p, vs)
    ensures Merged(p, vs + [v])[0] == Def(VisitName(p, v), v.entry, v.depth, v.admin)
  {
    WinnerGrows(p, vs, v, VisitName(p, v));
    MergedAt(p, vs + [v], 0);
  }

  /** Item u, when the name is new. */
  lemma NewAt<E>(p: Policy<E>, vs: seq<Visit<E>>, v: Visit<E>, u: nat)
    requires Winner(p, vs, VisitName(p, v)) == |vs| && u < |Discovered(p, vs)|
    requires Discovered(p, vs + [v]) == [|vs|] + Discovered(p, vs)
    ensures Merged(p, vs + [v])[u + 1] == Merged(p, vs)[u]
  {
    var i := Discovered(p, vs)[u];
    assert Discovered(p, vs + [v])[u + 1] == i;
    MergedAt(p, vs, u);
    MergedAt(p, vs + [v], u + 1);
    WonGrows(p, vs, v, i);
    assert !Named(p, vs[i], VisitName(p, v));
  }

  /** What the step does for a new name. */
  lemma MergedGrowsNew<E>(p: Policy<E>, vs: seq<Visit<E>>, v: Visit<E>)
    requires Winner(p, vs, VisitName(p, v)) == |vs|
    ensures Merged(p, vs + [v]) == [Def(VisitName(p, v), v.entry, v.depth, v.admin)] + Merged(p, vs)
  {
    var xs, d := vs + [v], Def(VisitName(p, v), v.entry, v.depth, v.admin);
    assert xs[..|vs|] == vs && xs[|vs|] == v;
    var found := Discovered(p, vs);
    assert Discovered(p, xs) == [|vs|] + found;
    NewFirst(p, vs, v);
    var es, fs := Merged(p, xs), [d] + Merged(p, vs);
    forall u | 0 <= u < |fs|
      ensures es[u] == fs[u]
    {
      if u > 0 { NewAt(p, vs, v, u - 1); }
    }
    assert es == fs;
  }

  /** The winner-of-prefix invariant is kept by every step of the walk: a definition is refused
      exactly when it clashes, and otherwise the list becomes the merge of one definition more. */
  lemma StepKeepsMerge<E>(p: Policy<E>, vs: seq<Visit<E>>, v: Visit<E>)
    requires InOrder(vs + [v])
    ensures Step(p, Merged(p, vs), v) ==
            if Clash(p, vs + [v], |vs|) then None else Some(Merged(p, vs + [v]))
  {
    var name := VisitName(p, v);
    var xs := vs + [v];
    assert xs[..|vs|] == vs && xs[|vs|] == v;
    FindMet(p, vs, name);
    var w := Winner(p, vs, name);
    if w == |vs| {
      MergedGrowsNew(p, vs, v);
    } else {
      MergedGrowsSeen(p, vs, v);
      assert xs[w] == vs[w];
      assert vs[w].depth == v.depth && v.admin ==> vs[w].admin;
    }
  }

  lemma NoClashGrows<E>(p: Policy<E>, vs: seq<Visit<E>>, v: Visit<E>)
    ensures NoClash(p, vs + [v]) <==> NoClash(p, vs) && !Clash(p, vs + [v], |vs|)
  {
    var xs := vs + [v];
    forall j | 0 <= j < |vs|
      ensures Clash(p, xs, j) == Clash(p, vs, j)
    {
      assert xs[..j] == vs[..j];
    }
  }

  // ---- what a merge means ----

  /** The definition that a merge keeps for a name. */
  function MergedEntry<E>(p: Policy<E>, vs: seq<Visit<E>>, name: string): Option<Visit<E>> {
    var w := Winner(p, vs, name);
    if w < |vs| then Some(vs[w]) else None
  }

  /** The list holds each name met exactly once, with the definition that the rule selects, and
      the names are in the reverse order of their first meeting. */
  lemma MergedExactly<E>(p: Policy<E>, vs: seq<Visit<E>>)
    ensures forall d | d in Merged(p, vs) ::
              MergedEntry(p, vs, d.name) == Some(Visit(d.depth, d.admin, d.entry))
    ensures forall i | 0 <= i < |vs| :: exists t :: 0 <= t < |Merged(p, vs)| && Named(p, vs[i], Merged(p, vs)[t].name)
    ensures forall s, t | 0 <= s < t < |Merged(p, vs)| :: !EqNoCase(Merged(p, vs)[s].name, Merged(p, vs)[t].name)
    ensures forall s, t, i, j | 0 <= s < t < |Merged(p, vs)| && 0 <= i < |vs| && 0 <= j < |vs|
              && FirstMeeting(p, vs, Merged(p, vs)[s].name, i) && FirstMeeting(p, vs, Merged(p, vs)[t].name, j) :: j < i
  {
    var ds, found := Merged(p, vs), Discovered(p, vs);
    MergedDistinct(p, vs);
    forall i | 0 <= i < |vs|
      ensures exists t :: 0 <= t < |ds| && Named(p, vs[i], ds[t].name)
    {
      var t := DiscoveredCovers(p, vs, i);
      MergedAt(p, vs, t);
      assert Named(p, vs[i], ds[t].name);
    }
    DiscoveredDistinct(p, vs);
    forall s, t, i, j | 0 <= s < t < |ds| && 0 <= i < |vs| && 0 <= j < |vs|
      && FirstMeeting(p, vs, ds[s].name, i) && FirstMeeting(p, vs, ds[t].name, j)
      ensures j < i
    {
      DiscoveredFirst(p, vs, s);
      DiscoveredFirst(p, vs, t);
      assert i == found[s] && j == found[t];
    }
  }

  /** The name is met at index i and not before. */
  ghost predicate FirstMeeting<E>(p: Policy<E>, vs: seq<Visit<E>>, name: string, i: nat)
    requires i < |vs|
  {
    Named(p, vs[i], name) && forall j | 0 <= j < i :: !Named(p, vs[j], name)
  }

  lemma {:induction false} DiscoveredFirst<E>(p: Policy<E>, vs: seq<Visit<E>>, t: nat)
    requires t < |Discovered(p, vs)|
    ensures FirstMeeting(p, vs, VisitName(p, vs[Discovered(p, vs)[t]]), Discovered(p, vs)[t])
  {
    var n := |vs| - 1;
    var ws := vs[..n];
    if Winner(p, ws, VisitName(p, vs[n])) < n {
      DiscoveredFirst(p, ws, t);
    } else if t > 0 {
      DiscoveredFirst(p, ws, t - 1);
    }
    assert forall j | 0 <= j < n :: ws[j] == vs[j];
  }

  /** The guarantee of Russian dolls: when the policy refuses that a low definition meets a winner
      of its own level that is not low, a low definition of an ancestor survives every successful
      merge, except that normal definitions give way to admin ones. */
  lemma RussianDolls<E>(p: Policy<E>, vs: seq<Visit<E>>, low: E -> bool, i: nat)
    requires NoClash(p, vs) && i < |vs| && low(vs[i].entry)
    requires forall a, b | low(b) && !low(a) :: p.twice(a, b) && p.badly(a, b)
    requires vs[i].admin || forall j | 0 <= j < |vs| && vs[j].admin :: !Named(p, vs[j], VisitName(p, vs[i]))
    ensures var w := Winner(p, vs, VisitName(p, vs[i]));
            w < |vs| && low(vs[w].entry) && vs[w].admin == vs[i].admin
  {
    var name, ws := VisitName(p, vs[i]), vs[..i];
    var f := FirstAt(p, vs, name, vs[i].admin);
    assert Named(p, vs[i], name);
    if f < i {
      assert ws[f] == vs[f];
      assert FirstAt(p, ws, name, vs[i].admin) == f;
      if !vs[i].admin {
        assert FirstAt(p, ws, name, true) == i;
      }
      assert Winner(p, ws, name) == f;
      assert !Clash(p, vs, i);
    }
  }
}
