/** What a merge settles and refuses, said on the places of the configurations of a chain. */
module Layers {
  import opened Wrappers
  import opened Strings
  import opened Config
  import opened Chains
  import opened MergeStep
  import opened Refusals

  /** The definitions of a chain: those of a configuration, their names, and whether one counts at a depth. */
  datatype Layers<!E> = Layers(chain: seq<Node>, list: Config -> seq<E>, name: (nat, E) -> string,
                               counts: (nat, E) -> bool)

  /** Where a definition is: the configuration of a level of the node of a depth, and its index there. */
  datatype Place = Place(admin: bool, depth: nat, index: nat)

  function ListAt<E>(l: Layers<E>, depth: nat, admin: bool): seq<E>
    requires depth < |l.chain|
  {
    var config := if admin then l.chain[depth].confadmin else l.chain[depth].config;
    if config.Some? then l.list(config.value) else []
  }

  predicate IsAt<E>(l: Layers<E>, at: Place) {
    && at.depth < |l.chain| && at.index < |ListAt(l, at.depth, at.admin)|
    && l.counts(at.depth, ListAt(l, at.depth, at.admin)[at.index])
  }

  function Get<E>(l: Layers<E>, at: Place): E
    requires IsAt(l, at)
  {
    ListAt(l, at.depth, at.admin)[at.index]
  }

  predicate HasName<E>(l: Layers<E>, at: Place, key: string) {
    IsAt(l, at) && EqNoCase(l.name(at.depth, Get(l, at)), key)
  }

  /** The nearest definition of a name at its level, the first one of its configuration. */
  ghost predicate IsNearest<E>(l: Layers<E>, at: Place, key: string) {
    && HasName(l, at, key)
    && forall other | HasName(l, other, key) && other.admin == at.admin ::
      at.depth < other.depth || (at.depth == other.depth && at.index <= other.index)
  }

  /** The definition at x meets the one at w: the nearest of its name and level, not hidden from it by an
      admin definition at least as near as x. */
  ghost predicate Meets<E>(l: Layers<E>, x: Place, w: Place) {
    && IsAt(l, x) && w.admin == x.admin
    && var key := l.name(x.depth, Get(l, x));
       && IsNearest(l, w, key)
       && (x.admin || forall other | HasName(l, other, key) && other.admin :: x.depth < other.depth)
  }

  /** A definition of the merge is at that place: the nearest admin one of its name, else the nearest normal one. */
  ghost predicate SettledBy<E>(l: Layers<E>, d: Def<E>, at: Place) {
    && IsNearest(l, at, d.name) && d == Def(d.name, Get(l, at), at.depth, at.admin)
    && (at.admin || forall other | HasName(l, other, d.name) :: !other.admin)
  }

  ghost predicate Settled<E>(l: Layers<E>, d: Def<E>) {
    exists at :: SettledBy(l, d, at)
  }

  ghost predicate IsNamed<E>(l: Layers<E>, ds: seq<Def<E>>, at: Place) {
    exists t | 0 <= t < |ds| :: HasName(l, at, ds[t].name)
  }

  /** A list holds every name of the chain once, each with the definition that settles it. */
  ghost predicate Settles<E>(l: Layers<E>, ds: seq<Def<E>>) {
    && (forall t | 0 <= t < |ds| :: Settled(l, ds[t]))
    && (forall at | IsAt(l, at) :: IsNamed(l, ds, at))
    && (forall s, t | 0 <= s < t < |ds| :: !EqNoCase(ds[s].name, ds[t].name))
  }

  /** The definitions of one optional value: they have no name. */
  function ValueLayers<T>(chain: seq<Node>, get: Config -> Option<T>): Layers<T> {
    Layers(chain, (c: Config) => if get(c).Some? then [get(c).value] else [], (d: nat, x: T) => "",
           (d: nat, x: T) => true)
  }

  ghost predicate Given<T>(chain: seq<Node>, get: Config -> Option<T>) {
    exists at :: IsAt(ValueLayers(chain, get), at)
  }

  /** The value of the nearest admin configuration that sets it, else of the nearest normal one. */
  ghost predicate SettledValue<T>(chain: seq<Node>, get: Config -> Option<T>, value: Option<T>) {
    match value
    case None => !Given(chain, get)
    case Some(x) => exists at: Place :: SettledBy(ValueLayers(chain, get), Def("", x, at.depth, at.admin), at)
  }

  // ---- the places of the definitions of a policy ----

  ghost predicate LayersOf<E(!new)>(p: Policy<E>, l: Layers<E>) {
    && (forall c: Config :: p.entries(c) == l.list(c))
    && (forall d: nat, e: E :: p.name(d, e) == l.name(d, e))
    && (forall d: nat, e: E :: p.skip(d, e) != l.counts(d, e))
  }

  lemma SameLists<E(!new)>(p: Policy<E>, l: Layers<E>, depth: nat, admin: bool)
    requires LayersOf(p, l) && depth < |l.chain|
    ensures ListAt(l, depth, admin) == Entries(p, l.chain[depth], admin)
  {
    var config := Level(l.chain[depth], admin);
    if config.Some? {
      assert p.entries(config.value) == l.list(config.value);
    }
  }

  /** The first definition of a name in a configuration is at the smallest index. */
  lemma {:induction false} FirstIndex<E>(p: Policy<E>, es: seq<E>, depth: nat, key: string, index: nat)
    returns (i: nat)
    requires index <= |es|
    ensures index <= i <= |es|
    ensures i < |es| ==> !p.skip(depth, es[i]) && EqNoCase(p.name(depth, es[i]), key)
    ensures forall j | index <= j < i :: p.skip(depth, es[j]) || !EqNoCase(p.name(depth, es[j]), key)
    ensures FirstIn(p, es, depth, key, index) == if i < |es| then Some(es[i]) else None
    decreases |es| - index
  {
    if index >= |es| || (!p.skip(depth, es[index]) && EqNoCase(p.name(depth, es[index]), key)) {
      i := index;
    } else {
      i := FirstIndex(p, es, depth, key, index + 1);
    }
  }

  /** What the nearest definition from a depth is, in places. */
  ghost predicate NearestIs<E>(l: Layers<E>, key: string, admin: bool, found: Option<Visit<E>>) {
    match found
    case Some(v) => exists at :: IsNearest(l, at, key) && at.admin == admin && v == Visit(at.depth, admin, Get(l, at))
    case None => forall other | HasName(l, other, key) :: other.admin != admin
  }

  lemma {:induction false} NearestPlace<E(!new)>(p: Policy<E>, l: Layers<E>, from: nat, key: string, admin: bool)
    requires LayersOf(p, l) && from <= |l.chain|
    requires forall other | HasName(l, other, key) && other.admin == admin :: from <= other.depth
    ensures NearestIs(l, key, admin, Nearest(p, l.chain, from, key, admin))
    decreases |l.chain| - from
  {
    if from >= |l.chain| {
    } else {
      var es := Entries(p, l.chain[from], admin);
      SameLists(p, l, from, admin);
      var i := FirstIndex(p, es, from, key, 0);
      if i < |es| {
        assert IsNearest(l, Place(admin, from, i), key);
      } else {
        NearestPlace(p, l, from + 1, key, admin);
      }
    }
  }

  lemma NearestOnce<E>(l: Layers<E>, a: Place, b: Place, key: string)
    requires IsNearest(l, a, key) && IsNearest(l, b, key) && a.admin == b.admin
    ensures a == b
  {
  }

  /** One value is settled. */
  lemma SettledOnce<T>(chain: seq<Node>, get: Config -> Option<T>, a: Option<T>, b: Option<T>)
    requires SettledValue(chain, get, a) && SettledValue(chain, get, b)
    ensures a == b
  {
    var l := ValueLayers(chain, get);
    if a.Some? && b.Some? {
      var i: Place :| SettledBy(l, Def("", a.value, i.depth, i.admin), i);
      var j: Place :| SettledBy(l, Def("", b.value, j.depth, j.admin), j);
      assert HasName(l, i, "") && HasName(l, j, "");
      NearestOnce(l, i, j, "");
    }
  }

  // ---- what is refused ----

  predicate Compatible<E>(p: Policy<E>, l: Layers<E>, x: Place, w: Place)
    requires IsAt(l, x) && IsAt(l, w)
  {
    if w.depth == x.depth then !p.twice(Get(l, w), Get(l, x)) else !p.badly(Get(l, w), Get(l, x))
  }

  ghost predicate AllCompatible<E>(p: Policy<E>, l: Layers<E>) {
    forall x, w | Meets(l, x, w) :: Compatible(p, l, x, w)
  }

  lemma RefusedMeets<E(!new)>(p: Policy<E>, l: Layers<E>, depth: nat, admin: bool, e: E) returns (x: Place, w: Place)
    requires LayersOf(p, l) && Refused(p, l.chain, depth, admin, e)
    ensures Meets(l, x, w) && !Compatible(p, l, x, w)
  {
    var key := p.name(depth, e);
    SameLists(p, l, depth, admin);
    NearestPlace(p, l, 0, key, admin);
    NearestPlace(p, l, 0, key, true);
    var i :| 0 <= i < |ListAt(l, depth, admin)| && ListAt(l, depth, admin)[i] == e;
    x := Place(admin, depth, i);
    w :| IsNearest(l, w, key) && w.admin == admin
         && Nearest(p, l.chain, 0, key, admin) == Some(Visit(w.depth, admin, Get(l, w)));
  }

  lemma MeetsRefused<E(!new)>(p: Policy<E>, l: Layers<E>, x: Place, w: Place)
    requires LayersOf(p, l) && Meets(l, x, w) && !Compatible(p, l, x, w)
    ensures Refused(p, l.chain, x.depth, x.admin, Get(l, x))
  {
    var key := p.name(x.depth, Get(l, x));
    SameLists(p, l, x.depth, x.admin);
    NearestPlace(p, l, 0, key, x.admin);
    NearestPlace(p, l, 0, key, true);
    assert HasName(l, w, key);
    var v := Nearest(p, l.chain, 0, key, x.admin).value;
    var at :| IsNearest(l, at, key) && at.admin == x.admin && v == Visit(at.depth, x.admin, Get(l, at));
    NearestOnce(l, at, w, key);
  }

  /** A chain is refused exactly when a definition meets one that it is not compatible with. */
  lemma RefusedPlaces<E(!new)>(p: Policy<E>, l: Layers<E>)
    requires LayersOf(p, l) && forall e :: !p.twice(e, e)
    ensures NoClash(p, Visits(p, l.chain)) <==> AllCompatible(p, l)
  {
    RefusedExactly(p, l.chain);
    forall depth: nat, admin: bool, e | Refused(p, l.chain, depth, admin, e)
      ensures exists x, w | Meets(l, x, w) :: !Compatible(p, l, x, w)
    {
      var x, w := RefusedMeets(p, l, depth, admin, e);
    }
    forall x, w | Meets(l, x, w) && !Compatible(p, l, x, w)
      ensures exists depth: nat, admin: bool, e :: Refused(p, l.chain, depth, admin, e)
    {
      MeetsRefused(p, l, x, w);
    }
  }

  // ---- what is settled ----

  lemma SettledAt<E(!new)>(p: Policy<E>, l: Layers<E>, d: Def<E>) returns (at: Place)
    requires LayersOf(p, l)
    requires MergedEntry(p, Visits(p, l.chain), d.name) == Some(Visit(d.depth, d.admin, d.entry))
    ensures SettledBy(l, d, at)
  {
    NearestIsFirst(p, l.chain, 0, d.name, true);
    NearestIsFirst(p, l.chain, 0, d.name, false);
    NearestPlace(p, l, 0, d.name, true);
    NearestPlace(p, l, 0, d.name, false);
    at :| IsNearest(l, at, d.name) && at.admin == d.admin
          && Nearest(p, l.chain, 0, d.name, d.admin) == Some(Visit(at.depth, d.admin, Get(l, at)));
  }

  lemma NameIsThere<E(!new)>(p: Policy<E>, l: Layers<E>, at: Place) returns (t: nat)
    requires LayersOf(p, l) && IsAt(l, at)
    ensures t < |Merged(p, Visits(p, l.chain))| && HasName(l, at, Merged(p, Visits(p, l.chain))[t].name)
  {
    var vs, v := Visits(p, l.chain), Visit(at.depth, at.admin, Get(l, at));
    SameLists(p, l, at.depth, at.admin);
    VisitsExact(p, l.chain, 0, v);
    var i :| 0 <= i < |vs| && vs[i] == v;
    MergedExactly(p, vs);
    t :| t < |Merged(p, vs)| && Named(p, vs[i], Merged(p, vs)[t].name);
  }

  lemma AllSettled<E(!new)>(p: Policy<E>, l: Layers<E>, ds: seq<Def<E>>)
    requires LayersOf(p, l)
    requires forall d | d in ds :: MergedEntry(p, Visits(p, l.chain), d.name) == Some(Visit(d.depth, d.admin, d.entry))
    ensures forall t | 0 <= t < |ds| :: Settled(l, ds[t])
  {
    forall t | 0 <= t < |ds| ensures Settled(l, ds[t]) {
      var at := SettledAt(p, l, ds[t]);
    }
  }

  lemma AllThere<E(!new)>(p: Policy<E>, l: Layers<E>, ds: seq<Def<E>>)
    requires LayersOf(p, l) && ds == Merged(p, Visits(p, l.chain))
    ensures forall at | IsAt(l, at) :: IsNamed(l, ds, at)
  {
    forall at | IsAt(l, at) ensures IsNamed(l, ds, at) {
      var t := NameIsThere(p, l, at);
    }
  }

  /** The merge of a chain settles its definitions. */
  lemma MergedSettles<E(!new)>(p: Policy<E>, l: Layers<E>)
    requires LayersOf(p, l)
    ensures Settles(l, Merged(p, Visits(p, l.chain)))
  {
    var vs := Visits(p, l.chain);
    MergedExactly(p, vs);
    AllSettled(p, l, Merged(p, vs));
    AllThere(p, l, Merged(p, vs));
  }

  /** What a merge without names selects. */
  lemma ValueSettled<T(!new)>(p: Policy<T>, chain: seq<Node>, get: Config -> Option<T>)
    requires LayersOf(p, ValueLayers(chain, get))
    ensures SettledValue(chain, get, match MergedEntry(p, Visits(p, chain), "")
                                     case None => None
                                     case Some(v) => Some(v.entry))
  {
    var l := ValueLayers(chain, get);
    match MergedEntry(p, Visits(p, chain), "")
    case Some(v) =>
      var at := SettledAt(p, l, Def("", v.entry, v.depth, v.admin));
    case None =>
      forall at ensures !IsAt(l, at) {
        if IsAt(l, at) {
          SameLists(p, l, at.depth, at.admin);
          VisitsExact(p, chain, 0, Visit(at.depth, at.admin, Get(l, at)));
        }
      }
  }
}
