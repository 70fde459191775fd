/** When a chain is refused, in terms of its configurations. */
module Refusals {
  import opened Wrappers
  import opened Strings
  import opened Config
  import opened Chains

  /** The first definition of a name in a configuration, from an index. */
  function FirstIn<E>(p: Policy<E>, es: seq<E>, depth: nat, name: string, index: nat): Option<E>
    decreases |es| - index
  {
    if index >= |es| then None
    else if !p.skip(depth, es[index]) && EqNoCase(p.name(depth, es[index]), name) then Some(es[index])
    else FirstIn(p, es, depth, name, index + 1)
  }

  /** The first definition of a name in the nearest configuration of a level that defines it. */
  function Nearest<E>(p: Policy<E>, chain: seq<Node>, from: nat, name: string, admin: bool): Option<Visit<E>>
    decreases |chain| - from
  {
    if from >= |chain| then None
    else
      match FirstIn(p, Entries(p, chain[from], admin), from, name, 0)
      case Some(e) => Some(Visit(from, admin, e))
      case None => Nearest(p, chain, from + 1, name, admin)
  }

  /** A definition of a configuration that no admin configuration at least as near hides, and that the
      policy refuses after the nearest one of its level: the first one of the same configuration, or one
      of a nearer configuration. */
  ghost predicate Refused<E>(p: Policy<E>, chain: seq<Node>, depth: nat, admin: bool, e: E) {
    && depth < |chain| && e in Entries(p, chain[depth], admin) && !p.skip(depth, e)
    && var name := p.name(depth, e);
       var first, hides := Nearest(p, chain, 0, name, admin), Nearest(p, chain, 0, name, true);
       && (admin || hides.None? || depth < hides.value.depth)
       && first.Some?
       && if first.value.depth == depth then p.twice(first.value.entry, e) else p.badly(first.value.entry, e)
  }

  /** The first definition of a name at index f of a part of the walk is that one, if any. */
  ghost predicate FoundAt<E>(vs: seq<Visit<E>>, f: nat, found: Option<Visit<E>>) {
    match found
    case None => f == |vs|
    case Some(v) => f < |vs| && vs[f] == v
  }

  /** The first definition of a name at a level in a configuration of a level, from an index. */
  function Here<E>(p: Policy<E>, es: seq<E>, depth: nat, level: bool, index: nat, name: string, admin: bool)
    : Option<Visit<E>>
  {
    match FirstIn(p, es, depth, name, index)
    case Some(e) => if level == admin then Some(Visit(depth, level, e)) else None
    case None => None
  }

  lemma {:induction false} LevelFirst<E>(p: Policy<E>, es: seq<E>, depth: nat, level: bool, index: nat, name: string,
                                         admin: bool)
    ensures var vs := LevelFrom(p, es, depth, level, index);
            FoundAt(vs, FirstAt(p, vs, name, admin), Here(p, es, depth, level, index, name, admin))
    decreases |es| - index
  {
    if index >= |es| {
    } else {
      LevelFirst(p, es, depth, level, index + 1, name, admin);
      var head := if p.skip(depth, es[index]) then [] else [Visit(depth, level, es[index])];
      var met := head != [] && level == admin && EqNoCase(p.name(depth, es[index]), name);
      FoundConcat(p, head, LevelFrom(p, es, depth, level, index + 1), name, admin,
                  if met then Some(head[0]) else None, Here(p, es, depth, level, index + 1, name, admin));
    }
  }

  /** Two parts of the walk. */
  lemma FoundConcat<E>(p: Policy<E>, a: seq<Visit<E>>, b: seq<Visit<E>>, name: string, admin: bool,
                       x: Option<Visit<E>>, y: Option<Visit<E>>)
    requires FoundAt(a, FirstAt(p, a, name, admin), x) && FoundAt(b, FirstAt(p, b, name, admin), y)
    ensures FoundAt(a + b, FirstAt(p, a + b, name, admin), if x.Some? then x else y)
  {
    FirstAtConcat(p, a, b, name, admin);
  }

  /** The nearest definition of a level is the first one met. */
  lemma {:induction false} NearestIsFirst<E>(p: Policy<E>, chain: seq<Node>, from: nat, name: string, admin: bool)
    ensures var vs := VisitsFrom(p, chain, from);
            FoundAt(vs, FirstAt(p, vs, name, admin), Nearest(p, chain, from, name, admin))
    decreases |chain| - from
  {
    if from >= |chain| {
    } else {
      NearestIsFirst(p, chain, from + 1, name, admin);
      var ea, en := Entries(p, chain[from], true), Entries(p, chain[from], false);
      LevelFirst(p, ea, from, true, 0, name, admin);
      LevelFirst(p, en, from, false, 0, name, admin);
      var a, b := LevelFrom(p, ea, from, true, 0), LevelFrom(p, en, from, false, 0);
      var x, y := Here(p, ea, from, true, 0, name, admin), Here(p, en, from, false, 0, name, admin);
      FoundConcat(p, a, b, name, admin, x, y);
      FoundConcat(p, a + b, VisitsFrom(p, chain, from + 1), name, admin, if x.Some? then x else y,
                  Nearest(p, chain, from + 1, name, admin));
    }
  }

  /** The first definition at a level of the beginning of a walk. */
  lemma FirstAtBeginning<E>(p: Policy<E>, vs: seq<Visit<E>>, n: nat, name: string, admin: bool)
    requires n <= |vs|
    ensures var f := FirstAt(p, vs, name, admin); FirstAt(p, vs[..n], name, admin) == if f < n then f else n
  {
    assert vs[..n] + vs[n..] == vs;
    FirstAtConcat(p, vs[..n], vs[n..], name, admin);
  }

  /** A definition that clashes, in the walk of a chain. */
  lemma ClashIsRefused<E>(p: Policy<E>, chain: seq<Node>, j: nat)
    requires j < |Visits(p, chain)| && Clash(p, Visits(p, chain), j)
    ensures var v := Visits(p, chain)[j]; Refused(p, chain, v.depth, v.admin, v.entry)
  {
    var vs := Visits(p, chain);
    var v, name := vs[j], VisitName(p, vs[j]);
    VisitsExact(p, chain, 0, v);
    VisitsFromInOrder(p, chain, 0);
    FirstAtBeginning(p, vs, j, name, true);
    FirstAtBeginning(p, vs, j, name, false);
    NearestIsFirst(p, chain, 0, name, true);
    NearestIsFirst(p, chain, 0, name, false);
    var w := Winner(p, vs[..j], name);
    assert vs[..j][w] == vs[w];
    var a := FirstAt(p, vs, name, true);
    assert !v.admin && a < |vs| ==> j < a && Before(vs[j], vs[a]);
  }

  /** A definition that is refused. */
  lemma RefusedIsClash<E>(p: Policy<E>, chain: seq<Node>, j: nat)
    requires j < |Visits(p, chain)|
    requires var v := Visits(p, chain)[j]; Refused(p, chain, v.depth, v.admin, v.entry) && !p.twice(v.entry, v.entry)
    ensures Clash(p, Visits(p, chain), j)
  {
    var vs := Visits(p, chain);
    var v, name := vs[j], VisitName(p, vs[j]);
    VisitsFromInOrder(p, chain, 0);
    FirstAtBeginning(p, vs, j, name, true);
    FirstAtBeginning(p, vs, j, name, false);
    NearestIsFirst(p, chain, 0, name, true);
    NearestIsFirst(p, chain, 0, name, false);
    assert Named(p, v, name);
    var f, a := FirstAt(p, vs, name, v.admin), FirstAt(p, vs, name, true);
    assert f <= j && f != j;
    var k := if a < j then a else j;
    assert k < j ==> Before(vs[k], vs[j]);
    assert vs[..j][f] == vs[f];
  }

  /** A chain is merged if and only if none of the definitions of its configurations is refused. */
  lemma RefusedExactly<E(!new)>(p: Policy<E>, chain: seq<Node>)
    requires forall e :: !p.twice(e, e)
    ensures NoClash(p, Visits(p, chain)) <==> forall depth, admin, e :: !Refused(p, chain, depth, admin, e)
  {
    var vs := Visits(p, chain);
    forall j | 0 <= j < |vs| && Clash(p, vs, j) ensures Refused(p, chain, vs[j].depth, vs[j].admin, vs[j].entry) {
      ClashIsRefused(p, chain, j);
    }
    forall depth, admin, e | Refused(p, chain, depth, admin, e) ensures exists j | 0 <= j < |vs| :: Clash(p, vs, j) {
      VisitsExact(p, chain, 0, Visit(depth, admin, e));
      var j :| 0 <= j < |vs| && vs[j] == Visit(depth, admin, e);
      RefusedIsClash(p, chain, j);
    }
  }
}
