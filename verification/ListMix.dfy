/** mixVariables, mixCapabilities and mixExports. */
module ListMix {
  import opened Wrappers
  import opened Strings
  import opened Config
  import opened Chains
  import opened MergeStep
  import opened Layers
  import opened Sorting
  import opened Merger

  // ---- variables ----

  predicate VarTwice(a: Var, b: Var) {
    a.mode != b.mode || (a.value.Some? && b.value.Some? && a.value != b.value)
  }

  function VarPolicy(): Policy<Var> {
    Policy((c: Config) => c.vars, (d, v: Var) => v.key, (d, v) => false, VarTwice, (a, b) => false)
  }

  // ---- capabilities ----

  predicate CapTwice(a: Cap, b: Cap) { a.add != b.add }

  predicate CapBadly(a: Cap, b: Cap) { a.add != 0 && b.add == 0 }

  function CapPolicy(): Policy<Cap> {
    Policy((c: Config) => c.tag.capabilities, (d, c: Cap) => c.cap, (d, c) => false, CapTwice, CapBadly)
  }

  // ---- exports ----

  const RED_EXPORT_PRIVATE: bv32 := 0x1
  const RED_EXPORT_PRIVATE_FILE: bv32 := 0x10
  const RED_EXPORT_PRIVATES: bv32 := RED_EXPORT_PRIVATE | RED_EXPORT_PRIVATE_FILE

  predicate Private(e: Export) { e.mode & RED_EXPORT_PRIVATES != 0 }

  predicate ExportTwice(a: Export, b: Export) {
    a.mode != b.mode || (a.path.Some? && b.path.Some? && a.path != b.path)
  }

  /** expand(d, s) is the expansion of s in the context of the node of depth d. */
  function ExportPolicy(expand: (nat, string) -> string): Policy<Export> {
    Policy((c: Config) => c.exports, (d, e: Export) => expand(d, e.mount),
           (d: nat, e) => d > 0 && Private(e), ExportTwice, (a, b) => false)
  }

  // ---- the mixers ----

  method Mix<E(!new)>(policy: Policy<E>, chain: seq<Node>, sorted: bool, answer: nat -> int)
    returns (rc: int, calls: seq<Delivery<E>>)
    requires chain != []
    ensures var vs := Visits(policy, chain);
            var ds := if sorted then Sort(Merged(policy, vs)) else Merged(policy, vs);
            if NoClash(policy, vs) then Delivered(ds, answer, calls, rc) else rc == -1 && calls == []
  {
    var merger := new Merger(policy, chain, sorted, answer);
    assert [] + Rest(policy, chain, 0, true, 0) == Visits(policy, chain);
    rc := merger.Merge(0, true, 0, []);
    calls := merger.calls;
  }

  function VarLayers(chain: seq<Node>): Layers<Var> {
    Layers(chain, (c: Config) => c.vars, (d: nat, v: Var) => v.key, (d: nat, v: Var) => true)
  }

  function CapLayers(chain: seq<Node>): Layers<Cap> {
    Layers(chain, (c: Config) => c.tag.capabilities, (d: nat, c: Cap) => c.cap, (d: nat, c: Cap) => true)
  }

  /** The exports of the leaf, and those of its ancestors whose mode has neither bit 0 nor bit 4. */
  function ExportLayers(expand: (nat, string) -> string, chain: seq<Node>): Layers<Export> {
    Layers(chain, (c: Config) => c.exports, (d: nat, e: Export) => expand(d, e.mount),
           (d: nat, e: Export) => d == 0 || (e.mode & 0x01 == 0 && e.mode & 0x10 == 0))
  }

  /** A variable given twice by a configuration must have the same mode, and the same value if both have one. */
  ghost predicate VariablesAgree(chain: seq<Node>) {
    var l := VarLayers(chain);
    forall x, w | Meets(l, x, w) && w.depth == x.depth ::
      var a, b := Get(l, w), Get(l, x);
      a.mode == b.mode && (a.value.None? || b.value.None? || a.value == b.value)
  }

  /** A capability given twice by a configuration must have the same value, and one that a nearer
      configuration of the same level adds must not be dropped. */
  ghost predicate CapabilitiesAgree(chain: seq<Node>) {
    var l := CapLayers(chain);
    forall x, w | Meets(l, x, w) ::
      if w.depth == x.depth then Get(l, w).add == Get(l, x).add
      else Get(l, w).add == 0 || Get(l, x).add != 0
  }

  /** An export given twice by a configuration must have the same mode, and the same path if both have one. */
  ghost predicate ExportsAgree(expand: (nat, string) -> string, chain: seq<Node>) {
    var l := ExportLayers(expand, chain);
    forall x, w | Meets(l, x, w) && w.depth == x.depth ::
      var a, b := Get(l, w), Get(l, x);
      a.mode == b.mode && (a.path.None? || b.path.None? || a.path == b.path)
  }

  lemma VariablesCompatible(p: Policy<Var>, l: Layers<Var>, chain: seq<Node>)
    requires p == VarPolicy() && l == VarLayers(chain)
    ensures LayersOf(p, l)
    ensures VariablesAgree(chain) <==> AllCompatible(p, l)
  {
    assert forall a: Var, b: Var ::
        p.twice(a, b) <==> !(a.mode == b.mode && (a.value.None? || b.value.None? || a.value == b.value));
  }

  lemma VariablesExactly(p: Policy<Var>, chain: seq<Node>)
    requires p == VarPolicy()
    ensures NoClash(p, Visits(p, chain)) <==> VariablesAgree(chain)
    ensures Settles(VarLayers(chain), Merged(p, Visits(p, chain)))
  {
    var l := VarLayers(chain);
    VariablesCompatible(p, l, chain);
    RefusedPlaces(p, l);
    MergedSettles(p, l);
  }

  lemma CapabilitiesCompatible(p: Policy<Cap>, l: Layers<Cap>, chain: seq<Node>)
    requires p == CapPolicy() && l == CapLayers(chain)
    ensures LayersOf(p, l)
    ensures CapabilitiesAgree(chain) <==> AllCompatible(p, l)
  {
    assert forall a: Cap, b: Cap :: p.twice(a, b) <==> a.add != b.add;
    assert forall a: Cap, b: Cap :: p.badly(a, b) <==> a.add != 0 && b.add == 0;
  }

  lemma CapabilitiesExactly(p: Policy<Cap>, chain: seq<Node>)
    requires p == CapPolicy()
    ensures NoClash(p, Visits(p, chain)) <==> CapabilitiesAgree(chain)
    ensures Settles(CapLayers(chain), Merged(p, Visits(p, chain)))
  {
    var l := CapLayers(chain);
    CapabilitiesCompatible(p, l, chain);
    RefusedPlaces(p, l);
    MergedSettles(p, l);
  }

  lemma PrivateExactly(e: Export)
    ensures Private(e) <==> e.mode & 0x01 != 0 || e.mode & 0x10 != 0
  {
  }

  lemma ExportLayersAre(p: Policy<Export>, l: Layers<Export>, expand: (nat, string) -> string, chain: seq<Node>)
    requires p == ExportPolicy(expand) && l == ExportLayers(expand, chain)
    ensures LayersOf(p, l)
  {
    forall d: nat, e: Export ensures p.skip(d, e) != l.counts(d, e) {
      PrivateExactly(e);
      assert p.skip(d, e) == (d > 0 && Private(e));
      assert l.counts(d, e) == (d == 0 || (e.mode & 0x01 == 0 && e.mode & 0x10 == 0));
    }
  }

  lemma ExportsCompatible(p: Policy<Export>, l: Layers<Export>, expand: (nat, string) -> string, chain: seq<Node>)
    requires p == ExportPolicy(expand) && l == ExportLayers(expand, chain)
    ensures ExportsAgree(expand, chain) <==> AllCompatible(p, l)
  {
    assert forall a: Export, b: Export ::
        p.twice(a, b) <==> !(a.mode == b.mode && (a.path.None? || b.path.None? || a.path == b.path));
  }

  lemma ExportsExactly(p: Policy<Export>, expand: (nat, string) -> string, chain: seq<Node>)
    requires p == ExportPolicy(expand)
    ensures NoClash(p, Visits(p, chain)) <==> ExportsAgree(expand, chain)
    ensures Settles(ExportLayers(expand, chain), Merged(p, Visits(p, chain)))
  {
    var l := ExportLayers(expand, chain);
    ExportLayersAre(p, l, expand, chain);
    ExportsCompatible(p, l, expand, chain);
    RefusedPlaces(p, l);
    MergedSettles(p, l);
  }

  method MixVariables(chain: seq<Node>, answer: nat -> int) returns (rc: int, calls: seq<Delivery<Var>>)
    requires chain != []
    ensures var vs := Visits(VarPolicy(), chain);
            if NoClash(VarPolicy(), vs) then Delivered(Merged(VarPolicy(), vs), answer, calls, rc)
            else rc == -1 && calls == []
    ensures if VariablesAgree(chain) then exists ds :: Settles(VarLayers(chain), ds) && Delivered(ds, answer, calls, rc)
            else rc == -1 && calls == []
  {
    VariablesExactly(VarPolicy(), chain);
    rc, calls := Mix(VarPolicy(), chain, false, answer);
  }

  method MixCapabilities(chain: seq<Node>, answer: nat -> int) returns (rc: int, calls: seq<Delivery<Cap>>)
    requires chain != []
    ensures var vs := Visits(CapPolicy(), chain);
            if NoClash(CapPolicy(), vs) then Delivered(Merged(CapPolicy(), vs), answer, calls, rc)
            else rc == -1 && calls == []
    ensures if CapabilitiesAgree(chain)
            then exists ds :: Settles(CapLayers(chain), ds) && Delivered(ds, answer, calls, rc)
            else rc == -1 && calls == []
  {
    CapabilitiesExactly(CapPolicy(), chain);
    rc, calls := Mix(CapPolicy(), chain, false, answer);
  }

  method MixExports(expand: (nat, string) -> string, chain: seq<Node>, answer: nat -> int)
    returns (rc: int, calls: seq<Delivery<Export>>)
    requires chain != []
    ensures var p := ExportPolicy(expand);
            var vs := Visits(p, chain);
            if NoClash(p, vs) then Delivered(Sort(Merged(p, vs)), answer, calls, rc)
            else rc == -1 && calls == []
    ensures if ExportsAgree(expand, chain)
            then exists ds :: Settles(ExportLayers(expand, chain), ds) && Delivered(Sort(ds), answer, calls, rc)
            else rc == -1 && calls == []
  {
    ExportsExactly(ExportPolicy(expand), expand, chain);
    rc, calls := Mix(ExportPolicy(expand), chain, true, answer);
  }

  // ---- capabilities: what the merge guarantees ----

  /** The value settled for a capability over a chain, None when no node defines it. */
  function CapValue(chain: seq<Node>, cap: string): Option<int> {
    match MergedEntry(CapPolicy(), Visits(CapPolicy(), chain), cap)
    case None => None
    case Some(v) => Some(v.entry.add)
  }

  /** A node of the chain defines the capability at that level. */
  ghost predicate Defines(chain: seq<Node>, depth: nat, admin: bool, cap: Cap) {
    depth < |chain| && cap in Entries(CapPolicy(), chain[depth], admin)
  }

  /** An admin configuration that drops a capability is obeyed by every chain that merges; so is a
      normal one for a capability that no admin configuration mentions. */
  lemma DroppedStaysDropped(chain: seq<Node>, depth: nat, admin: bool, cap: Cap)
    requires NoClash(CapPolicy(), Visits(CapPolicy(), chain))
    requires Defines(chain, depth, admin, cap) && cap.add == 0
    requires admin || forall d, c | Defines(chain, d, true, c) :: !EqNoCase(c.cap, cap.cap)
    ensures CapValue(chain, cap.cap) == Some(0)
  {
    var p, vs := CapPolicy(), Visits(CapPolicy(), chain);
    VisitsExact(p, chain, 0, Visit(depth, admin, cap));
    var i :| 0 <= i < |vs| && vs[i] == Visit(depth, admin, cap);
    forall j | 0 <= j < |vs| && vs[j].admin && !admin
      ensures !Named(p, vs[j], cap.cap)
    {
      VisitsExact(p, chain, 0, vs[j]);
      assert Defines(chain, vs[j].depth, true, vs[j].entry);
    }
    RussianDolls(p, vs, (c: Cap) => c.add == 0, i);
  }

  /** An admin configuration settles a capability whatever normal configurations say. */
  lemma AdminSettles(chain: seq<Node>, depth: nat, cap: Cap)
    requires Defines(chain, depth, true, cap)
    ensures exists d: nat, c :: Defines(chain, d, true, c) && EqNoCase(c.cap, cap.cap) && d <= depth
                           && CapValue(chain, cap.cap) == Some(c.add)
  {
    var p, vs := CapPolicy(), Visits(CapPolicy(), chain);
    VisitsExact(p, chain, 0, Visit(depth, true, cap));
    var i :| 0 <= i < |vs| && vs[i] == Visit(depth, true, cap);
    assert Named(p, vs[i], cap.cap);
    var w := FirstAt(p, vs, cap.cap, true);
    assert w <= i;
    VisitsFromInOrder(p, chain, 0);
    assert w < i ==> Before(vs[w], vs[i]);
    VisitsExact(p, chain, 0, vs[w]);
    assert Defines(chain, vs[w].depth, true, vs[w].entry);
  }

  /** A configuration that has only these capabilities. */
  function OnlyCaps(caps: seq<Cap>): Option<Config> {
    Some(Config(Tag(NoScalars(), None, None, Share(None, None, None, None, None, None, None), caps), [], []))
  }

  /** The leaf adds a capability that its parent drops, and the admin of the root adds it. */
  function LateAdmin(cap: string): seq<Node> {
    [Node("/a/b", None, OnlyCaps([Cap(cap, 1)])), Node("/a", None, OnlyCaps([Cap(cap, 0)])),
     Node("/", OnlyCaps([Cap(cap, 1)]), None)]
  }

  lemma LateAdminVisits(cap: string)
    ensures Visits(CapPolicy(), LateAdmin(cap)) ==
            [Visit(0, false, Cap(cap, 1)), Visit(1, false, Cap(cap, 0)), Visit(2, true, Cap(cap, 1))]
  {
    var p, chain := CapPolicy(), LateAdmin(cap);
    assert LevelFrom(p, [Cap(cap, 1)], 0, false, 1) == [] && LevelFrom(p, [Cap(cap, 1)], 2, true, 1) == [];
    assert LevelFrom(p, [Cap(cap, 0)], 1, false, 1) == [];
    assert VisitsFrom(p, chain, 3) == [];
    assert VisitsFrom(p, chain, 2) == [Visit(2, true, Cap(cap, 1))];
    assert VisitsFrom(p, chain, 1) == [Visit(1, false, Cap(cap, 0)), Visit(2, true, Cap(cap, 1))];
  }

  /** A refusal is decided against the winner so far: it is not lifted by a farther admin configuration,
      which would have settled the value that the leaf asks for. */
  lemma LateAdminRefused(cap: string)
    ensures !NoClash(CapPolicy(), Visits(CapPolicy(), LateAdmin(cap)))
    ensures CapValue(LateAdmin(cap), cap) == Some(1)
  {
    var p, vs := CapPolicy(), Visits(CapPolicy(), LateAdmin(cap));
    LateAdminVisits(cap);
    var first := vs[..1];
    assert first == [vs[0]] && Named(p, first[0], cap);
    assert FirstAt(p, first, cap, true) == 1;
    assert Clash(p, vs, 1);
    assert Named(p, vs[2], cap) && vs[2].admin;
  }

  // ---- exports: what the merge guarantees ----

  /** No private export of an ancestor is delivered: the test that red-wrap makes again on each
      delivered export (private mode and not defined by the leaf) never holds. */
  lemma NoInheritedPrivate(expand: (nat, string) -> string, chain: seq<Node>, d: Def<Export>)
    requires d in Sort(Merged(ExportPolicy(expand), Visits(ExportPolicy(expand), chain)))
    ensures !(Private(d.entry) && d.depth != 0)
    ensures d.depth < |chain| && d.entry in Entries(ExportPolicy(expand), chain[d.depth], d.admin)
  {
    var p := ExportPolicy(expand);
    var vs := Visits(p, chain);
    SortFacts(Merged(p, vs));
    assert d in multiset(Sort(Merged(p, vs)));
    MergedExactly(p, vs);
    VisitsExact(p, chain, 0, Visit(d.depth, d.admin, d.entry));
  }

  /** The chain without the private exports of the ancestors. */
  function WithoutInheritedPrivates(chain: seq<Node>): (r: seq<Node>)
    ensures |r| == |chain|
  {
    seq(|chain|, i requires 0 <= i < |chain| => if i == 0 then chain[i] else Publics(chain[i]))
  }

  function Publics(node: Node): Node {
    node.(confadmin := PublicsOf(node.confadmin), config := PublicsOf(node.config))
  }

  function PublicsOf(config: Option<Config>): Option<Config> {
    match config
    case None => None
    case Some(c) => Some(c.(exports := Keep(c.exports, 0)))
  }

  function Keep(es: seq<Export>, index: nat): seq<Export>
    decreases |es| - index
  {
    if index >= |es| then []
    else (if Private(es[index]) then [] else [es[index]]) + Keep(es, index + 1)
  }

  lemma {:induction false} KeepPublic(es: seq<Export>, index: nat)
    ensures forall e | e in Keep(es, index) :: !Private(e)
    decreases |es| - index
  {
    if index >= |es| {
    } else {
      KeepPublic(es, index + 1);
    }
  }

  lemma {:induction false} LevelFromShift(p: Policy<Export>, e: Export, es: seq<Export>, depth: nat, admin: bool,
                                          index: nat)
    ensures LevelFrom(p, [e] + es, depth, admin, index + 1) == LevelFrom(p, es, depth, admin, index)
    decreases |es| - index
  {
    if index >= |es| {
    } else {
      LevelFromShift(p, e, es, depth, admin, index + 1);
    }
  }

  lemma {:induction false} KeepSkips(expand: (nat, string) -> string, es: seq<Export>, depth: nat, admin: bool,
                                     index: nat)
    requires depth > 0
    ensures LevelFrom(ExportPolicy(expand), es, depth, admin, index)
         == LevelFrom(ExportPolicy(expand), Keep(es, index), depth, admin, 0)
    decreases |es| - index
  {
    if index >= |es| {
    } else {
      KeepSkips(expand, es, depth, admin, index + 1);
      if !Private(es[index]) {
        assert Keep(es, index) == [es[index]] + Keep(es, index + 1);
        LevelFromShift(ExportPolicy(expand), es[index], Keep(es, index + 1), depth, admin, 0);
      } else {
        assert Keep(es, index) == Keep(es, index + 1);
      }
    }
  }

  /** An inherited private export neither appears nor shadows anything: exports merge as if the
      ancestors had none. */
  lemma {:induction false} PrivatesNeverShadow(expand: (nat, string) -> string, chain: seq<Node>, depth: nat)
    ensures VisitsFrom(ExportPolicy(expand), WithoutInheritedPrivates(chain), depth)
         == VisitsFrom(ExportPolicy(expand), chain, depth)
    decreases |chain| - depth
  {
    if depth >= |chain| {
    } else {
      PrivatesNeverShadow(expand, chain, depth + 1);
      var p, r := ExportPolicy(expand), WithoutInheritedPrivates(chain);
      forall admin: bool
        ensures LevelFrom(p, Entries(p, r[depth], admin), depth, admin, 0)
             == LevelFrom(p, Entries(p, chain[depth], admin), depth, admin, 0)
      {
        if depth > 0 {
          KeepSkips(expand, Entries(p, chain[depth], admin), depth, admin, 0);
        }
      }
    }
  }
}
