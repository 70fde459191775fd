/** mixConfTags and get_merged_node: the node that stands for a whole chain. */
module MergedNode {
  import opened Wrappers
  import opened Strings
  import opened Config
  import opened Chains
  import opened MergeStep
  import Places = Layers
  import opened Sorting
  import opened Merger
  import opened ListMix
  import opened SharingMix
  import opened ScalarMix
  import opened Expand
  import opened PathLists
  import opened PathMix

  // ---- the callbacks that build arrays ----

  /** What the callbacks store for a definition: the name is the one met first for capabilities, the
      one of the winner for variables and exports. */
  function CapOf(d: Def<Cap>): Cap { Cap(d.name, d.entry.add) }

  function EntryOf<E>(d: Def<E>): E { d.entry }

  function Stored<X, S>(store: X -> S, xs: seq<X>): seq<S> {
    seq(|xs|, i requires 0 <= i < |xs| => store(xs[i]))
  }

  /** mix_conftag_capa, mixvar_cb and mixexp_cb: the array is allocated by the first call, with the
      constant count, and each call stores at its index. */
  method StoreAll<E(!new), S(0)>(store: Def<E> -> S, ghost ds: seq<Def<E>>, calls: seq<Delivery<E>>)
    returns (items: seq<S>)
    requires Delivered(ds, i => 0, calls, 0)
    ensures items == Stored(store, ds)
  {
    var table := new S[0];
    for i := 0 to |calls|
      invariant fresh(table)
      invariant i > 0 ==> table.Length == |ds|
      invariant i == 0 ==> table.Length == 0
      invariant forall k | 0 <= k < i :: table[k] == store(ds[k])
    {
      if calls[i].index == 0 {
        table := new S[calls[i].count];
      }
      table[calls[i].index] := store(calls[i].def);
    }
    items := table[..];
  }

  // ---- mixConfTags ----

  ghost predicate TagsMix(chain: seq<Node>) {
    Mixable(chain) && NoClash(CapPolicy(), Visits(CapPolicy(), chain))
  }

  function MergedTag(expand: string -> Option<string>, chain: seq<Node>): Tag {
    Tag(BasicPasses(expand, chain), None, None, MergedShare(chain),
        Stored(CapOf, Merged(CapPolicy(), Visits(CapPolicy(), chain))))
  }

  method MixConfTags(expand: string -> Option<string>, chain: seq<Node>) returns (r: Option<Tag>)
    requires chain != []
    ensures r == if TagsMix(chain) then Some(MergedTag(expand, chain)) else None
  {
    var scalars := MixBasicTags(expand, chain);
    var share := MixShares(chain);
    if share.None? {
      return None;
    }
    var rc, calls := MixCapabilities(chain, i => 0);
    if rc < 0 {
      return None;
    }
    AllCalled(Merged(CapPolicy(), Visits(CapPolicy(), chain)), calls, rc);
    var caps := StoreAll(CapOf, Merged(CapPolicy(), Visits(CapPolicy(), chain)), calls);
    r := Some(Tag(scalars, None, None, share.value, caps));
  }

  lemma AllCalled<E(!new)>(ds: seq<Def<E>>, calls: seq<Delivery<E>>, rc: int)
    requires Delivered(ds, i => 0, calls, rc)
    ensures rc == 0 && |calls| == |ds|
  {
  }

  // ---- get_merged_node ----

  /** Everything the expansion of a chain depends on: texts of the leaf, mount points and paths of
      each node. */
  datatype Env = Env(leaf: string -> Option<string>, mount: (nat, string) -> string, contexts: seq<Context>)

  const PATH := (c: Config) => c.tag.path
  const LDPATH := (c: Config) => c.tag.ldpath

  ghost predicate PathsMix(env: Env, chain: seq<Node>, get: Config -> Option<string>)
    requires InContext(env.contexts, Visits(OnePass(get), chain))
  {
    forall n | 0 <= n < |Visits(OnePass(get), chain)| :: Room(env.contexts, Visits(OnePass(get), chain), n)
  }

  ghost function MergedPath(env: Env, chain: seq<Node>, get: Config -> Option<string>): Option<string>
    requires InContext(env.contexts, Visits(OnePass(get), chain))
  {
    var list := PathLists.Join(Dedup(AllComps(env.contexts, Visits(OnePass(get), chain))));
    if list == "" then None else Some(list)
  }

  ghost predicate ChainMixes(env: Env, chain: seq<Node>)
    requires Contexts(env.contexts, chain)
  {
    PathContexts(env, chain);
    && TagsMix(chain)
    && NoClash(ExportPolicy(env.mount), Visits(ExportPolicy(env.mount), chain))
    && NoClash(VarPolicy(), Visits(VarPolicy(), chain))
    && PathsMix(env, chain, PATH)
    && PathsMix(env, chain, LDPATH)
  }

  ghost function Merge(env: Env, chain: seq<Node>): Node
    requires chain != [] && Contexts(env.contexts, chain)
  {
    PathContexts(env, chain);
    var tag := MergedTag(env.leaf, chain).(
                 path := MergedPath(env, chain, PATH), ldpath := MergedPath(env, chain, LDPATH));
    Node(chain[0].redpath, None,
         Some(Config(tag, Stored(EntryOf, Merged(VarPolicy(), Visits(VarPolicy(), chain))),
                     Stored(EntryOf, Sort(Merged(ExportPolicy(env.mount), Visits(ExportPolicy(env.mount), chain)))))))
  }

  /** No part of the configurations is refused, and both lists of paths have room. */
  ghost predicate Agrees(env: Env, chain: seq<Node>)
    requires Contexts(env.contexts, chain)
  {
    PathContexts(env, chain);
    && SharingsAgree(chain) && CapabilitiesAgree(chain) && VariablesAgree(chain) && ExportsAgree(env.mount, chain)
    && PathsMix(env, chain, PATH) && PathsMix(env, chain, LDPATH)
  }

  lemma AgreesExactly(env: Env, chain: seq<Node>)
    requires Contexts(env.contexts, chain)
    ensures ChainMixes(env, chain) <==> Agrees(env, chain)
  {
    SharingsExactly(chain);
    CapabilitiesExactly(CapPolicy(), chain);
    VariablesExactly(VarPolicy(), chain);
    ExportsExactly(ExportPolicy(env.mount), env.mount, chain);
  }

  // ---- the merged node, part by part ----

  /** The capabilities of a list: the names are those met first. */
  ghost predicate CapsFrom(chain: seq<Node>, ds: seq<Def<Cap>>, caps: seq<Cap>) {
    && Places.Settles(CapLayers(chain), ds) && |caps| == |ds|
    && forall i | 0 <= i < |ds| :: caps[i].cap == ds[i].name && caps[i].add == ds[i].entry.add
  }

  ghost predicate VarsFrom(chain: seq<Node>, ds: seq<Def<Var>>, vars: seq<Var>) {
    && Places.Settles(VarLayers(chain), ds) && |vars| == |ds|
    && forall i | 0 <= i < |ds| :: vars[i] == ds[i].entry
  }

  ghost predicate ExportsFrom(mount: (nat, string) -> string, chain: seq<Node>, ds: seq<Def<Export>>,
                              exports: seq<Export>)
  {
    && Places.Settles(ExportLayers(mount, chain), ds) && |exports| == |Sort(ds)|
    && forall i | 0 <= i < |exports| :: exports[i] == Sort(ds)[i].entry
  }

  /** The components of the expanded texts of the walk, each once, in the order of first occurrences. */
  ghost predicate PathFrom(contexts: seq<Context>, vs: seq<Visit<string>>, path: Option<string>) {
    && InContext(contexts, vs)
    && var all := AllComps(contexts, vs);
       if path.None? then all == []
       else
         && path.value != "" && PathLists.Distinct(Comps(path.value))
         && (forall c :: c in Comps(path.value) <==> c in all)
         && forall i, j | 0 <= i < j < |Comps(path.value)| ::
           First(all, Comps(path.value)[i]) < First(all, Comps(path.value)[j])
  }

  /** Each part of the merged node comes from that part of the configurations. */
  ghost predicate IsMerged(env: Env, chain: seq<Node>, node: Node)
    requires chain != []
  {
    && node.redpath == chain[0].redpath && node.confadmin == None && node.config.Some?
    && var c := node.config.value;
       && NumbersSettled(chain, c.tag.scalars)
       && (TextsSettled(env.leaf, chain, c.tag.scalars) <==> AllExpand(env.leaf, chain))
       && IsMerge(chain, c.tag.share)
       && (exists ds :: CapsFrom(chain, ds, c.tag.capabilities))
       && (exists ds :: VarsFrom(chain, ds, c.vars))
       && (exists ds :: ExportsFrom(env.mount, chain, ds, c.exports))
       && PathFrom(env.contexts, Visits(OnePass((x: Config) => x.tag.path), chain), c.tag.path)
       && PathFrom(env.contexts, Visits(OnePass((x: Config) => x.tag.ldpath), chain), c.tag.ldpath)
  }

  lemma CapsAreFrom(chain: seq<Node>, ds: seq<Def<Cap>>)
    requires Places.Settles(CapLayers(chain), ds)
    ensures CapsFrom(chain, ds, Stored(CapOf, ds))
  {
    assert forall i | 0 <= i < |ds| :: Stored(CapOf, ds)[i] == CapOf(ds[i]);
  }

  lemma VarsAreFrom(chain: seq<Node>, ds: seq<Def<Var>>)
    requires Places.Settles(VarLayers(chain), ds)
    ensures VarsFrom(chain, ds, Stored(EntryOf, ds))
  {
    assert forall i | 0 <= i < |ds| :: Stored(EntryOf, ds)[i] == EntryOf(ds[i]);
  }

  lemma ExportsAreFrom(mount: (nat, string) -> string, chain: seq<Node>, ds: seq<Def<Export>>)
    requires Places.Settles(ExportLayers(mount, chain), ds)
    ensures ExportsFrom(mount, chain, ds, Stored(EntryOf, Sort(ds)))
  {
    assert forall i | 0 <= i < |Sort(ds)| :: Stored(EntryOf, Sort(ds))[i] == EntryOf(Sort(ds)[i]);
  }

  lemma PathIsFrom(env: Env, chain: seq<Node>, get: Config -> Option<string>, vs: seq<Visit<string>>)
    requires vs == Visits(OnePass(get), chain) && InContext(env.contexts, vs)
    ensures PathFrom(env.contexts, vs, MergedPath(env, chain, get))
  {
    var all := AllComps(env.contexts, vs);
    MergedPaths(env.contexts, vs);
    if all != [] {
      assert all[0] in Comps(PathLists.Join(Dedup(all)));
    }
  }

  lemma ListsAreFrom(mount: (nat, string) -> string, chain: seq<Node>)
    ensures var ds := Merged(CapPolicy(), Visits(CapPolicy(), chain)); CapsFrom(chain, ds, Stored(CapOf, ds))
    ensures var ds := Merged(VarPolicy(), Visits(VarPolicy(), chain)); VarsFrom(chain, ds, Stored(EntryOf, ds))
    ensures var ds := Merged(ExportPolicy(mount), Visits(ExportPolicy(mount), chain));
            ExportsFrom(mount, chain, ds, Stored(EntryOf, Sort(ds)))
  {
    CapabilitiesExactly(CapPolicy(), chain);
    VariablesExactly(VarPolicy(), chain);
    ExportsExactly(ExportPolicy(mount), mount, chain);
    CapsAreFrom(chain, Merged(CapPolicy(), Visits(CapPolicy(), chain)));
    VarsAreFrom(chain, Merged(VarPolicy(), Visits(VarPolicy(), chain)));
    ExportsAreFrom(mount, chain, Merged(ExportPolicy(mount), Visits(ExportPolicy(mount), chain)));
  }

  /** The merged node is made of those parts. */
  lemma MergeIsMerged(env: Env, chain: seq<Node>)
    requires chain != [] && Contexts(env.contexts, chain)
    ensures IsMerged(env, chain, Merge(env, chain))
  {
    PathContexts(env, chain);
    BasicNumbers(env.leaf, chain);
    BasicTexts(env.leaf, chain, BasicPasses(env.leaf, chain));
    MergeIsMerge(chain);
    ListsAreFrom(env.mount, chain);
    PathIsFrom(env, chain, PATH, Visits(OnePass(PATH), chain));
    PathIsFrom(env, chain, LDPATH, Visits(OnePass(LDPATH), chain));
  }

  lemma PathContexts(env: Env, chain: seq<Node>)
    requires Contexts(env.contexts, chain)
    ensures InContext(env.contexts, Visits(OnePass(PATH), chain))
    ensures InContext(env.contexts, Visits(OnePass(LDPATH), chain))
  {
    VisitsFromInOrder(OnePass(PATH), chain, 0);
    VisitsFromInOrder(OnePass(LDPATH), chain, 0);
  }

  method MergeExports(env: Env, chain: seq<Node>) returns (r: Option<seq<Export>>)
    requires chain != []
    ensures var p := ExportPolicy(env.mount);
            r == if NoClash(p, Visits(p, chain)) then Some(Stored(EntryOf, Sort(Merged(p, Visits(p, chain))))) else None
  {
    var rc, calls := MixExports(env.mount, chain, i => 0);
    if rc != 0 {
      return None;
    }
    var exports := StoreAll(EntryOf, Sort(Merged(ExportPolicy(env.mount), Visits(ExportPolicy(env.mount), chain))),
                            calls);
    r := Some(exports);
  }

  method MergeVars(chain: seq<Node>) returns (r: Option<seq<Var>>)
    requires chain != []
    ensures var p := VarPolicy();
            r == if NoClash(p, Visits(p, chain)) then Some(Stored(EntryOf, Merged(p, Visits(p, chain)))) else None
  {
    var rc, calls := MixVariables(chain, i => 0);
    if rc != 0 {
      return None;
    }
    var vars := StoreAll(EntryOf, Merged(VarPolicy(), Visits(VarPolicy(), chain)), calls);
    r := Some(vars);
  }

  method MergePath(env: Env, chain: seq<Node>, get: Config -> Option<string>) returns (rc: int, path: Option<string>)
    requires Contexts(env.contexts, chain)
    ensures InContext(env.contexts, Visits(OnePass(get), chain))
    ensures rc == 0 <==> PathsMix(env, chain, get)
    ensures rc == 0 ==> path == MergedPath(env, chain, get)
  {
    var beyond;
    rc, path, beyond := MixPaths(env.contexts, chain, get, 0);
  }

  /** get_merged_node: None when some merge is refused or a path list is too long. */
  method GetMergedNode(env: Env, chain: seq<Node>) returns (r: Option<Node>)
    requires chain != [] && Contexts(env.contexts, chain)
    ensures if ChainMixes(env, chain) then r == Some(Merge(env, chain)) else r == None
    ensures r.Some? <==> Agrees(env, chain)
    ensures r.Some? ==> IsMerged(env, chain, r.value)
  {
    AgreesExactly(env, chain);
    MergeIsMerged(env, chain);
    var tag := MixConfTags(env.leaf, chain);
    if tag.None? {
      return None;
    }
    var exports := MergeExports(env, chain);
    if exports.None? {
      return None;
    }
    var vars := MergeVars(chain);
    if vars.None? {
      return None;
    }
    var rc, path := MergePath(env, chain, PATH);
    if rc != 0 {
      return None;
    }
    var ldpath;
    rc, ldpath := MergePath(env, chain, LDPATH);
    if rc != 0 {
      return None;
    }
    r := Some(Node(chain[0].redpath, None,
                   Some(Config(tag.value.(path := path, ldpath := ldpath), vars.value, exports.value))));
  }

  // ---- merging again ----

  function Reverse<T>(s: seq<T>): seq<T> {
    seq(|s|, i requires 0 <= i < |s| => s[|s| - 1 - i])
  }

  /** Entries of one normal configuration, as definitions of the leaf. */
  function Alone<E>(p: Policy<E>, es: seq<E>): seq<Visit<E>> {
    seq(|es|, i requires 0 <= i < |es| => Visit(0, false, es[i]))
  }

  function DefAlone<E>(p: Policy<E>): E -> Def<E> {
    e => Def(p.name(0, e), e, 0, false)
  }

  ghost predicate DistinctNames<E>(p: Policy<E>, es: seq<E>) {
    forall i, j | 0 <= i < j < |es| :: !EqNoCase(p.name(0, es[i]), p.name(0, es[j]))
  }

  lemma {:induction false} LevelAlone<E>(p: Policy<E>, es: seq<E>, index: nat)
    requires index <= |es| && forall e | e in es :: !p.skip(0, e)
    ensures LevelFrom(p, es, 0, false, index) == Alone(p, es)[index..]
    decreases |es| - index
  {
    if index >= |es| {
    } else {
      LevelAlone(p, es, index + 1);
    }
  }

  lemma VisitsAlone<E>(p: Policy<E>, node: Node)
    requires node.confadmin == None && node.config.Some?
    requires forall e | e in p.entries(node.config.value) :: !p.skip(0, e)
    ensures Visits(p, [node]) == Alone(p, p.entries(node.config.value))
  {
    LevelAlone(p, p.entries(node.config.value), 0);
    assert VisitsFrom(p, [node], 1) == [];
    assert LevelFrom(p, Entries(p, node, true), 0, true, 0) == [];
  }

  /** The last name is new. */
  lemma AloneNew<E>(p: Policy<E>, es: seq<E>)
    requires DistinctNames(p, es) && es != []
    ensures var n := |es| - 1;
            Winner(p, Alone(p, es[..n]), VisitName(p, Visit(0, false, es[n]))) == n
  {
    var n := |es| - 1;
    var vs, v := Alone(p, es[..n]), Visit(0, false, es[n]);
    assert forall i | 0 <= i < n :: vs[i].entry == es[i] && !Named(p, vs[i], VisitName(p, v));
  }

  lemma AloneMerges<E>(p: Policy<E>, es: seq<E>)
    requires DistinctNames(p, es) && es != []
    ensures var most, v := es[..|es| - 1], Visit(0, false, es[|es| - 1]);
            && Merged(p, Alone(p, es)) == [Def(VisitName(p, v), v.entry, 0, false)] + Merged(p, Alone(p, most))
            && (NoClash(p, Alone(p, most)) ==> NoClash(p, Alone(p, es)))
  {
    var n := |es| - 1;
    var v, vs := Visit(0, false, es[n]), Alone(p, es[..n]);
    assert Alone(p, es) == vs + [v];
    AloneNew(p, es);
    MergedGrowsNew(p, vs, v);
    NoClashGrows(p, vs, v);
    assert (vs + [v])[..n] == vs;
  }

  lemma AloneStored<E>(p: Policy<E>, es: seq<E>)
    requires es != []
    ensures var n := |es| - 1;
            Stored(DefAlone(p), Reverse(es)) == [DefAlone(p)(es[n])] + Stored(DefAlone(p), Reverse(es[..n]))
  {
  }

  /** A single configuration without repeated names merges into itself, in reverse order. */
  lemma {:induction false} MergeAlone<E>(p: Policy<E>, es: seq<E>)
    requires DistinctNames(p, es)
    ensures NoClash(p, Alone(p, es))
    ensures Merged(p, Alone(p, es)) == Stored(DefAlone(p), Reverse(es))
  {
    if es == [] {
      assert Merged(p, Alone(p, es)) == [];
    } else {
      MergeAlone(p, es[..|es| - 1]);
      AloneMerges(p, es);
      AloneStored(p, es);
    }
  }

  lemma OwnName<E>(p: Policy<E>, vs: seq<Visit<E>>, t: nat)
    requires t < |Merged(p, vs)|
    ensures EqNoCase(p.name(Merged(p, vs)[t].depth, Merged(p, vs)[t].entry), Merged(p, vs)[t].name)
  {
    MergedAt(p, vs, t);
    var name := VisitName(p, vs[Discovered(p, vs)[t]]);
    assert Named(p, vs[Discovered(p, vs)[t]], name);
    assert Named(p, vs[Winner(p, vs, name)], name);
  }

  lemma CapsDistinct(chain: seq<Node>)
    ensures DistinctNames(CapPolicy(), Stored(CapOf, Merged(CapPolicy(), Visits(CapPolicy(), chain))))
  {
    var vs := Visits(CapPolicy(), chain);
    var ms := Merged(CapPolicy(), vs);
    var caps := Stored(CapOf, ms);
    MergedDistinct(CapPolicy(), vs);
    forall i, j | 0 <= i < j < |caps|
      ensures !EqNoCase(caps[i].cap, caps[j].cap)
    {
      assert !EqNoCase(ms[i].name, ms[j].name);
    }
  }

  lemma VarsDistinct(chain: seq<Node>)
    ensures DistinctNames(VarPolicy(), Stored(EntryOf, Merged(VarPolicy(), Visits(VarPolicy(), chain))))
  {
    var vs := Visits(VarPolicy(), chain);
    var ms := Merged(VarPolicy(), vs);
    var vars: seq<Var> := Stored(EntryOf, ms);
    MergedDistinct(VarPolicy(), vs);
    forall i, j | 0 <= i < j < |vars|
      ensures !EqNoCase(vars[i].key, vars[j].key)
    {
      assert !EqNoCase(ms[i].name, ms[j].name);
      OwnName(VarPolicy(), vs, i);
      OwnName(VarPolicy(), vs, j);
      assert vars[i] == ms[i].entry && vars[j] == ms[j].entry;
    }
  }

  /** A node that has only a normal configuration merges into the same list, in reverse order. */
  lemma MergeOfOne<E>(p: Policy<E>, node: Node, store: Def<E> -> E)
    requires node.confadmin == None && node.config.Some?
    requires DistinctNames(p, p.entries(node.config.value))
    requires forall e | e in p.entries(node.config.value) :: store(DefAlone(p)(e)) == e && !p.skip(0, e)
    ensures NoClash(p, Visits(p, [node]))
    ensures Stored(store, Merged(p, Visits(p, [node]))) == Reverse(p.entries(node.config.value))
  {
    var es := p.entries(node.config.value);
    VisitsAlone(p, node);
    MergeAlone(p, es);
    forall i | 0 <= i < |es|
      ensures store(Stored(DefAlone(p), Reverse(es))[i]) == Reverse(es)[i]
    {
      assert Reverse(es)[i] in es;
    }
  }

  /** Merging the merged node alone never fails, and gives back the capabilities in reverse order. */
  lemma CapabilitiesMergeAgain(env: Env, chain: seq<Node>)
    requires chain != [] && Contexts(env.contexts, chain)
    ensures var m := Merge(env, chain);
            && NoClash(CapPolicy(), Visits(CapPolicy(), [m]))
            && Stored(CapOf, Merged(CapPolicy(), Visits(CapPolicy(), [m]))) == Reverse(m.config.value.tag.capabilities)
  {
    CapsDistinct(chain);
    MergeOfOne(CapPolicy(), Merge(env, chain), CapOf);
  }

  /** The same for variables. */
  lemma VariablesMergeAgain(env: Env, chain: seq<Node>)
    requires chain != [] && Contexts(env.contexts, chain)
    ensures var m := Merge(env, chain);
            && NoClash(VarPolicy(), Visits(VarPolicy(), [m]))
            && Stored(EntryOf, Merged(VarPolicy(), Visits(VarPolicy(), [m]))) == Reverse(m.config.value.vars)
  {
    VarsDistinct(chain);
    MergeOfOne(VarPolicy(), Merge(env, chain), EntryOf);
  }

  /** The definition i is the first one with the name of j, in one configuration. */
  ghost predicate FirstSame<E>(p: Policy<E>, es: seq<E>, i: nat, j: nat)
    requires i < |es| && j < |es|
  {
    && EqNoCase(p.name(0, es[i]), p.name(0, es[j]))
    && forall k | 0 <= k < i :: !EqNoCase(p.name(0, es[k]), p.name(0, es[j]))
  }

  lemma AloneClash<E>(p: Policy<E>, es: seq<E>, j: nat)
    requires j < |es|
    ensures Clash(p, Alone(p, es), j) <==> exists i: nat :: i < j && FirstSame(p, es, i, j) && p.twice(es[i], es[j])
  {
    var vs := Alone(p, es);
    var name := VisitName(p, vs[j]);
    var w := Winner(p, vs[..j], name);
    assert forall k | 0 <= k < j :: vs[..j][k] == Visit(0, false, es[k]);
    assert FirstAt(p, vs[..j], name, true) == j;
    if w < j {
      assert FirstSame(p, es, w, j);
      forall i: nat | i < j && FirstSame(p, es, i, j) ensures i == w {
        assert Named(p, vs[..j][i], name);
      }
    } else {
      forall i: nat | i < j ensures !FirstSame(p, es, i, j) {
        assert !Named(p, vs[..j][i], name);
      }
    }
  }

  ghost predicate NoneTwice<E>(p: Policy<E>, es: seq<E>) {
    forall i: nat, j: nat | i < j < |es| && FirstSame(p, es, i, j) :: !p.twice(es[i], es[j])
  }

  /** A single configuration is refused exactly when it defines a name twice differently from the first time. */
  lemma AloneExactly<E>(p: Policy<E>, es: seq<E>)
    ensures NoClash(p, Alone(p, es)) <==> NoneTwice(p, es)
  {
    forall j: nat | j < |es|
      ensures Clash(p, Alone(p, es), j) <==> exists i: nat :: i < j && FirstSame(p, es, i, j) && p.twice(es[i], es[j])
    {
      AloneClash(p, es, j);
    }
  }

  /** Merging the exports of the merged node again, in the context of that node, is refused exactly when two
      of its mount points then expand alike and the definitions differ. */
  lemma ExportsMergeAgain(env: Env, chain: seq<Node>, expand: (nat, string) -> string)
    requires chain != [] && Contexts(env.contexts, chain)
    ensures var m, p := Merge(env, chain), ExportPolicy(expand);
            NoClash(p, Visits(p, [m])) <==> NoneTwice(p, m.config.value.exports)
  {
    var m, p := Merge(env, chain), ExportPolicy(expand);
    VisitsAlone(p, m);
    AloneExactly(p, m.config.value.exports);
  }

  /** Merging the merged node alone gives back the same sharings. */
  lemma SharingsMergeAgain(env: Env, chain: seq<Node>)
    requires chain != [] && Contexts(env.contexts, chain)
    ensures Mixable([Merge(env, chain)])
    ensures MergedShare([Merge(env, chain)]) == MergedShare(chain)
  {
    var m := Merge(env, chain);
    assert m.confadmin == None && m.config.Some? && m.config.value.tag.share == MergedShare(chain);
    SharesOfOne(m, chain);
  }

  lemma SharesOfOne(node: Node, chain: seq<Node>)
    requires node.confadmin == None && node.config.Some? && node.config.value.tag.share == MergedShare(chain)
    ensures Mixable([node])
    ensures MergedShare([node]) == MergedShare(chain)
  {
    forall f: Field
      ensures NoClash(SharePolicy(f), ShareVisits([node], f))
      ensures FieldValue([node], f) == Get(MergedShare(chain), f)
    {
      UnsetOnlyIfAllUnset(chain, f);
      ShareAlone(f, node);
    }
    FallbackOnce(f => FieldValue(chain, f), f => FieldValue([node], f));
  }

  /** What has fallen back to `all` does not change when it falls back again. */
  lemma FallbackOnce(a: Field -> Option<string>, b: Field -> Option<string>)
    requires forall f :: b(f) == Get(Fallback(a), f)
    ensures Fallback(b) == Fallback(a)
  {
  }

  lemma ShareAlone(f: Field, node: Node)
    requires node.confadmin == None && node.config.Some?
    requires var value := Get(node.config.value.tag.share, f); SharingType(value) == Unset <==> value == None
    ensures NoClash(SharePolicy(f), ShareVisits([node], f))
    ensures FieldValue([node], f) == Get(node.config.value.tag.share, f)
  {
    var p, value := SharePolicy(f), Get(node.config.value.tag.share, f);
    VisitsAlone(p, node);
    var vs := Visits(p, [node]);
    assert |vs| <= 1;
    if value.Some? {
      assert vs == [Visit(0, false, value.value)];
      assert Named(p, vs[0], "");
      assert Winner(p, vs, "") == 0;
    }
  }
}
