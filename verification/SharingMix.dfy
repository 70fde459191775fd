/** mixShares: the sharing of each namespace. */
module SharingMix {
  import opened Wrappers
  import opened Strings
  import opened Config
  import opened Chains
  import opened MergeStep
  import Places = Layers

  datatype Sharing = Unset | Disabled | Enabled | Join

  function SharingType(value: Option<string>): Sharing {
    if value.None? then Unset
    else if EqNoCase(value.value, "enabled") then Enabled
    else if EqNoCase(value.value, "disabled") then Disabled
    else if EqNoCase(value.value, "unset") then Unset
    else Join
  }

  datatype Field = All | User | Cgroup | Ipc | Pid | Net | Time

  const COUNT: nat := 7

  /** The fields, in the order in which they are merged. */
  function FieldAt(k: nat): Field
    requires k < COUNT
  {
    if k == 0 then All
    else if k == 1 then User
    else if k == 2 then Cgroup
    else if k == 3 then Ipc
    else if k == 4 then Pid
    else if k == 5 then Net
    else Time
  }

  function IndexOf(f: Field): (k: nat)
    ensures k < COUNT && FieldAt(k) == f
  {
    match f
    case All => 0
    case User => 1
    case Cgroup => 2
    case Ipc => 3
    case Pid => 4
    case Net => 5
    case Time => 6
  }

  function Get(share: Share, f: Field): Option<string> {
    match f
    case All => share.all
    case User => share.user
    case Cgroup => share.cgroup
    case Ipc => share.ipc
    case Pid => share.pid
    case Net => share.net
    case Time => share.time
  }

  /** Sharing what is forbidden by an ancestor. */
  predicate Forbidden(a: string, b: string) {
    SharingType(Some(b)) == Disabled && SharingType(Some(a)) != Disabled
  }

  function SetValue(value: Option<string>): seq<string> {
    if SharingType(value) == Unset then [] else [value.value]
  }

  /** The merge of one field: its definitions have no name. */
  function SharePolicy(f: Field): Policy<string> {
    Policy((c: Config) => SetValue(Get(c.tag.share, f)), (d, s) => "", (d, s) => false, Forbidden, Forbidden)
  }

  function ShareVisits(chain: seq<Node>, f: Field): seq<Visit<string>> {
    Visits(SharePolicy(f), chain)
  }

  /** The value settled for a field by the chain. */
  function FieldValue(chain: seq<Node>, f: Field): Option<string> {
    match MergedEntry(SharePolicy(f), ShareVisits(chain, f), "")
    case None => None
    case Some(v) => Some(v.entry)
  }

  ghost predicate Mixable(chain: seq<Node>) {
    forall f: Field :: NoClash(SharePolicy(f), ShareVisits(chain, f))
  }

  /** A field that is not set follows `all`, but for time. */
  function Fallback(values: Field -> Option<string>): Share {
    var all := values(All);
    Share(all, Or(values(User), all), Or(values(Cgroup), all), Or(values(Ipc), all),
          Or(values(Pid), all), Or(values(Net), all), values(Time))
  }

  function FieldValues(chain: seq<Node>): Field -> Option<string> {
    f => FieldValue(chain, f)
  }

  /** The sharings given to the callback. */
  function MergedShare(chain: seq<Node>): Share {
    Fallback(FieldValues(chain))
  }

  function Or(value: Option<string>, other: Option<string>): Option<string> {
    if value.Some? then value else other
  }

  // ---- the accumulators ----

  predicate Disables(value: string) {
    SharingType(Some(value)) == Disabled
  }

  datatype Item = Item(value: Option<string>, kind: Sharing, admin: bool, depth: nat)

  function Defs(item: Item): seq<Def<string>> {
    if item.kind == Unset || item.value.None? then [] else [Def("", item.value.value, item.depth, item.admin)]
  }

  /** The accumulator of a field has seen these definitions, and refused none. */
  ghost predicate Seen(f: Field, item: Item, vs: seq<Visit<string>>) {
    && item.kind == SharingType(item.value) && (item.kind == Unset ==> item.value == None)
    && Defs(item) == Merged(SharePolicy(f), vs)
    && NoClash(SharePolicy(f), vs)
  }

  function LevelVisits(f: Field, value: Option<string>, depth: nat, admin: bool): seq<Visit<string>> {
    if SharingType(value) == Unset then [] else [Visit(depth, admin, value.value)]
  }

  lemma LevelVisitsExact(f: Field, node: Node, depth: nat, admin: bool)
    ensures LevelFrom(SharePolicy(f), Entries(SharePolicy(f), node, admin), depth, admin, 0)
         == match Level(node, admin)
            case None => []
            case Some(c) => LevelVisits(f, Get(c.tag.share, f), depth, admin)
  {
    var p := SharePolicy(f);
    var es := Entries(p, node, admin);
    assert LevelFrom(p, es, depth, admin, 1) == [];
  }

  lemma NoClashShorter<E>(p: Policy<E>, a: seq<Visit<E>>, b: seq<Visit<E>>)
    requires NoClash(p, a + b)
    ensures NoClash(p, a)
  {
    forall j | 0 <= j < |a|
      ensures !Clash(p, a, j)
    {
      assert (a + b)[..j] == a[..j];
      assert !Clash(p, a + b, j);
    }
  }

  datatype Decision = Set | Keep | Refuse

  /** The cases of mix_share. */
  function Decide(share: Item, value: Option<string>, admin: bool): Decision {
    var kind := SharingType(value);
    if kind == Unset then Keep
    else if share.kind == Unset || (admin && !share.admin) then Set
    else if !admin && share.admin then Keep
    else if share.kind == kind && (kind != Join || (share.value.Some? && EqNoCase(value.value, share.value.value)))
    then Keep
    else if kind != Disabled then Keep
    else Refuse
  }

  /** The cases of mix_share are those of the step. */
  lemma DecideStep(f: Field, item: Item, v: Visit<string>)
    requires item.kind == SharingType(item.value) && (item.kind == Unset ==> item.value == None)
    requires SharingType(Some(v.entry)) != Unset
             && (item.kind == Unset || item.depth < v.depth || item.admin || !v.admin)
    ensures var after := Step(SharePolicy(f), Defs(item), v);
            match Decide(item, Some(v.entry), v.admin)
            case Set => after == Some(Defs(Item(Some(v.entry), SharingType(Some(v.entry)), v.admin, v.depth)))
            case Keep => after == Some(Defs(item))
            case Refuse => after == None
  {
    var ds, d := Defs(item), Def("", v.entry, v.depth, v.admin);
    if item.kind == Unset {
      assert [d] + ds == [d];
    } else {
      assert Find(ds, "") == 0 && ds[0 := d] == [d];
    }
  }

  /** mix_share makes the step of the merge on the accumulator of a field. */
  lemma DecideIsStep(f: Field, item: Item, vs: seq<Visit<string>>, value: Option<string>, depth: nat, admin: bool)
    requires Seen(f, item, vs)
    requires InOrder(vs + LevelVisits(f, value, depth, admin))
    requires item.kind == Unset || item.depth < depth || item.admin || !admin
    ensures var after := vs + LevelVisits(f, value, depth, admin);
            match Decide(item, value, admin)
            case Set => Seen(f, Item(value, SharingType(value), admin, depth), after)
            case Keep => Seen(f, item, after)
            case Refuse => !NoClash(SharePolicy(f), after)
  {
    if SharingType(value) == Unset {
      assert vs + [] == vs;
    } else {
      var p, v := SharePolicy(f), Visit(depth, admin, value.value);
      StepKeepsMerge(p, vs, v);
      NoClashGrows(p, vs, v);
      DecideStep(f, item, v);
      assert value == Some(v.entry) && LevelVisits(f, value, depth, admin) == [v];
    }
  }

  /** mix_share: the accumulator of field f after a value. */
  method MixShare(f: Field, share: Item, value: Option<string>, depth: nat, admin: bool, ghost vs: seq<Visit<string>>)
    returns (rc: int, after: Item)
    requires Seen(f, share, vs)
    requires InOrder(vs + LevelVisits(f, value, depth, admin))
    requires share.kind == Unset || share.depth < depth || share.admin || !admin
    ensures after == share || after.depth == depth
    ensures if rc == 0 then Seen(f, after, vs + LevelVisits(f, value, depth, admin))
            else rc == -1 && !NoClash(SharePolicy(f), vs + LevelVisits(f, value, depth, admin))
  {
    DecideIsStep(f, share, vs, value, depth, admin);
    rc, after := 0, share;
    match Decide(share, value, admin)
    case Set => after := Item(value, SharingType(value), admin, depth);
    case Keep =>
    case Refuse => rc := -1;
  }

  class Sharings {
    var items: seq<Item>

    constructor ()
      ensures |items| == COUNT
      ensures forall k | 0 <= k < COUNT :: items[k] == Item(None, Unset, false, 0)
    {
      items := seq(COUNT, k => Item(None, Unset, false, 0));
    }

    /** mix_sharings: every field of one configuration, until one is refused. */
    method MixSharings(share: Share, depth: nat, admin: bool, ghost seen: seq<seq<Visit<string>>>)
      returns (rc: int)
      requires |items| == COUNT == |seen|
      requires forall k | 0 <= k < COUNT :: Seen(FieldAt(k), items[k], seen[k])
      requires forall k | 0 <= k < COUNT ::
                 InOrder(seen[k] + LevelVisits(FieldAt(k), Get(share, FieldAt(k)), depth, admin))
      requires forall k | 0 <= k < COUNT :: items[k].kind == Unset || items[k].depth < depth || !admin
      modifies this
      ensures |items| == COUNT
      ensures forall k | 0 <= k < COUNT :: items[k] == old(items[k]) || items[k].depth == depth
      ensures if rc == 0 then
                forall k | 0 <= k < COUNT ::
                  Seen(FieldAt(k), items[k], seen[k] + LevelVisits(FieldAt(k), Get(share, FieldAt(k)), depth, admin))
              else rc == -1 && exists k | 0 <= k < COUNT ::
                !NoClash(SharePolicy(FieldAt(k)),
                         seen[k] + LevelVisits(FieldAt(k), Get(share, FieldAt(k)), depth, admin))
    {
      rc := 0;
      var k := 0;
      ghost var next := seq(COUNT, i requires 0 <= i < COUNT =>
                              seen[i] + LevelVisits(FieldAt(i), Get(share, FieldAt(i)), depth, admin));
      while k < COUNT
        invariant k <= COUNT && |items| == COUNT
        invariant forall i | 0 <= i < k :: Seen(FieldAt(i), items[i], next[i])
        invariant forall i | k <= i < COUNT :: items[i] == old(items[i])
        invariant forall i | 0 <= i < COUNT :: items[i] == old(items[i]) || items[i].depth == depth
      {
        var item;
        rc, item := MixShare(FieldAt(k), items[k], Get(share, FieldAt(k)), depth, admin, seen[k]);
        items := items[k := item];
        if rc != 0 {
          assert !NoClash(SharePolicy(FieldAt(k)), next[k]);
          return;
        }
        k := k + 1;
      }
      rc := 0;
    }
  }

  /** mix_sharings_get */
  function SharingsGet(items: seq<Item>): Share
    requires |items| == COUNT
  {
    Fallback(f => items[IndexOf(f)].value)
  }

  function LevelOf(f: Field, node: Node, depth: nat, admin: bool): seq<Visit<string>> {
    LevelFrom(SharePolicy(f), Entries(SharePolicy(f), node, admin), depth, admin, 0)
  }

  /** seen, with the definitions of one level of the node of that depth. */
  ghost function Further(seen: seq<seq<Visit<string>>>, node: Node, depth: nat, admin: bool)
    : (r: seq<seq<Visit<string>>>)
    requires |seen| == COUNT
    ensures |r| == COUNT
  {
    seq(COUNT, k requires 0 <= k < COUNT => seen[k] + LevelOf(FieldAt(k), node, depth, admin))
  }

  /** The definitions seen and those that remain make the whole walk of each field. */
  ghost predicate Split(chain: seq<Node>, seen: seq<seq<Visit<string>>>, rest: Field -> seq<Visit<string>>)
    requires |seen| == COUNT
  {
    forall k | 0 <= k < COUNT :: seen[k] + rest(FieldAt(k)) == ShareVisits(chain, FieldAt(k))
  }

  /** Definitions that begin the walk are in order, and refused only if the walk is. */
  lemma Begins(chain: seq<Node>, f: Field, a: seq<Visit<string>>, b: seq<Visit<string>>)
    requires a + b == ShareVisits(chain, f)
    ensures InOrder(a)
    ensures !NoClash(SharePolicy(f), a) ==> !Mixable(chain)
  {
    VisitsFromInOrder(SharePolicy(f), chain, 0);
    assert forall i | 0 <= i < |a| :: a[i] == (a + b)[i];
    if NoClash(SharePolicy(f), ShareVisits(chain, f)) {
      NoClashShorter(SharePolicy(f), a, b);
    }
  }

  /** Merges the configuration of one level of a node, if any. */
  method MixLevel(sharings: Sharings, chain: seq<Node>, depth: nat, admin: bool,
                  ghost seen: seq<seq<Visit<string>>>, ghost rest: Field -> seq<Visit<string>>)
    returns (rc: int)
    requires depth < |chain|
    requires |sharings.items| == COUNT == |seen|
    requires forall k | 0 <= k < COUNT :: Seen(FieldAt(k), sharings.items[k], seen[k])
    requires forall k | 0 <= k < COUNT ::
               sharings.items[k].kind == Unset || sharings.items[k].depth < depth || !admin
    requires Split(chain, Further(seen, chain[depth], depth, admin), rest)
    modifies sharings
    ensures |sharings.items| == COUNT
    ensures forall k | 0 <= k < COUNT ::
              sharings.items[k] == old(sharings.items[k]) || sharings.items[k].depth == depth
    ensures if rc == 0 then
              forall k | 0 <= k < COUNT ::
                Seen(FieldAt(k), sharings.items[k], Further(seen, chain[depth], depth, admin)[k])
            else !Mixable(chain)
  {
    rc := 0;
    ghost var after := Further(seen, chain[depth], depth, admin);
    forall k | 0 <= k < COUNT
      ensures InOrder(after[k])
      ensures !NoClash(SharePolicy(FieldAt(k)), after[k]) ==> !Mixable(chain)
      ensures after[k] == match Level(chain[depth], admin)
                          case None => seen[k]
                          case Some(c) => seen[k] + LevelVisits(FieldAt(k), Get(c.tag.share, FieldAt(k)), depth, admin)
    {
      Begins(chain, FieldAt(k), after[k], rest(FieldAt(k)));
      LevelVisitsExact(FieldAt(k), chain[depth], depth, admin);
    }
    var config := Level(chain[depth], admin);
    if config.Some? {
      rc := sharings.MixSharings(config.value.tag.share, depth, admin, seen);
    }
  }

  /** The accumulators are up to date for the nodes below that depth. */
  ghost predicate UpTo(chain: seq<Node>, items: seq<Item>, depth: nat, seen: seq<seq<Visit<string>>>) {
    && |items| == COUNT == |seen|
    && (forall k | 0 <= k < COUNT :: Seen(FieldAt(k), items[k], seen[k]))
    && (forall k | 0 <= k < COUNT :: items[k].kind == Unset || items[k].depth < depth)
    && (forall k | 0 <= k < COUNT ::
          seen[k] + VisitsFrom(SharePolicy(FieldAt(k)), chain, depth) == ShareVisits(chain, FieldAt(k)))
  }

  /** The turn of mixShares for one node. */
  method MixNode(sharings: Sharings, chain: seq<Node>, depth: nat, ghost seen: seq<seq<Visit<string>>>)
    returns (rc: int, ghost after: seq<seq<Visit<string>>>)
    requires depth < |chain| && UpTo(chain, sharings.items, depth, seen)
    modifies sharings
    ensures if rc == 0 then UpTo(chain, sharings.items, depth + 1, after) else !Mixable(chain)
  {
    ghost var node := chain[depth];
    ghost var middle := Further(seen, node, depth, true);
    after := Further(middle, node, depth, false);
    ghost var restAdmin := (f: Field) => LevelOf(f, node, depth, false) + VisitsFrom(SharePolicy(f), chain, depth + 1);
    ghost var restBoth := (f: Field) => VisitsFrom(SharePolicy(f), chain, depth + 1);
    forall k | 0 <= k < COUNT
      ensures middle[k] + restAdmin(FieldAt(k)) == ShareVisits(chain, FieldAt(k))
      ensures after[k] + restBoth(FieldAt(k)) == ShareVisits(chain, FieldAt(k))
    {
      LevelsConcat(seen[k], LevelOf(FieldAt(k), node, depth, true), LevelOf(FieldAt(k), node, depth, false),
                   VisitsFrom(SharePolicy(FieldAt(k)), chain, depth + 1));
    }
    rc := MixLevel(sharings, chain, depth, true, seen, restAdmin);
    if rc == 0 {
      rc := MixLevel(sharings, chain, depth, false, middle, restBoth);
    }
  }

  /** The loop of mixShares. */
  method MixNodes(sharings: Sharings, chain: seq<Node>) returns (rc: int)
    requires |sharings.items| == COUNT && forall k | 0 <= k < COUNT :: sharings.items[k] == Item(None, Unset, false, 0)
    modifies sharings
    ensures rc == 0 ==> Mixable(chain) && |sharings.items| == COUNT && SharingsGet(sharings.items) == MergedShare(chain)
    ensures rc != 0 ==> !Mixable(chain)
  {
    var depth := 0;
    rc := 0;
    ghost var seen := Start(chain, sharings.items);
    while rc == 0 && depth < |chain|
      invariant depth <= |chain|
      invariant if rc == 0 then UpTo(chain, sharings.items, depth, seen) else !Mixable(chain)
      decreases |chain| - depth
    {
      rc, seen := MixNode(sharings, chain, depth, seen);
      depth := depth + 1;
    }
    if rc == 0 {
      AllSettled(chain, sharings.items, seen);
    }
  }

  /** mixShares: None when some sharing is refused, else the sharings given to the callback. */
  method MixShares(chain: seq<Node>) returns (r: Option<Share>)
    ensures r == if Mixable(chain) then Some(MergedShare(chain)) else None
    ensures r.Some? <==> SharingsAgree(chain)
    ensures r.Some? ==> IsMerge(chain, r.value)
  {
    var sharings := new Sharings();
    var rc := MixNodes(sharings, chain);
    r := if rc != 0 then None else Some(SharingsGet(sharings.items));
    SharesExactly(chain, r);
  }

  lemma Start(chain: seq<Node>, items: seq<Item>) returns (seen: seq<seq<Visit<string>>>)
    requires |items| == COUNT && forall k | 0 <= k < COUNT :: items[k] == Item(None, Unset, false, 0)
    ensures UpTo(chain, items, 0, seen)
  {
    seen := seq(COUNT, k => []);
    forall k | 0 <= k < COUNT
      ensures Seen(FieldAt(k), items[k], seen[k])
      ensures seen[k] + VisitsFrom(SharePolicy(FieldAt(k)), chain, 0) == ShareVisits(chain, FieldAt(k))
    {
      assert Merged(SharePolicy(FieldAt(k)), []) == [];
    }
  }

  lemma AllSettled(chain: seq<Node>, items: seq<Item>, seen: seq<seq<Visit<string>>>)
    requires UpTo(chain, items, |chain|, seen)
    ensures Mixable(chain) && SharingsGet(items) == MergedShare(chain)
  {
    forall f: Field
      ensures NoClash(SharePolicy(f), ShareVisits(chain, f))
      ensures items[IndexOf(f)].value == FieldValue(chain, f)
    {
      assert FieldAt(IndexOf(f)) == f;
      ItemSettled(chain, f, items[IndexOf(f)], seen[IndexOf(f)]);
    }
  }

  lemma ItemSettled(chain: seq<Node>, f: Field, item: Item, seen: seq<Visit<string>>)
    requires Seen(f, item, seen) && seen + [] == ShareVisits(chain, f)
    ensures NoClash(SharePolicy(f), ShareVisits(chain, f)) && item.value == FieldValue(chain, f)
  {
    assert seen + [] == seen;
    FindMet(SharePolicy(f), seen, "");
    assert Defs(item) != [] ==> Find(Defs(item), "") == 0;
  }

  lemma LevelsConcat<T>(s: seq<T>, a: seq<T>, b: seq<T>, c: seq<T>)
    ensures s + a + (b + c) == s + (a + b + c)
    ensures s + a + b + c == s + (a + b + c)
  {
  }

  // ---- the merge, on texts ----

  /** The text that a configuration gives for a field: "unset" gives none. */
  function TextOf(f: Field): Config -> Option<string> {
    (c: Config) =>
      var text := Get(c.tag.share, f); if text.Some? && !EqNoCase(text.value, "unset") then text else None
  }

  function TextLayers(chain: seq<Node>, f: Field): Places.Layers<string> {
    Places.ValueLayers(chain, TextOf(f))
  }

  /** Each field has its settled text, or the one of `all` if it is given none; but time does not follow `all`. */
  ghost predicate IsMerge(chain: seq<Node>, share: Share) {
    forall f: Field ::
      if f == Time || Places.Given(chain, TextOf(f)) then Places.SettledValue(chain, TextOf(f), Get(share, f))
      else Places.SettledValue(chain, TextOf(All), Get(share, f))
  }

  /** What a configuration disables must be disabled by the nearest text of its level, unless an admin
      configuration at least as near gives a text. */
  ghost predicate TextsAgree(chain: seq<Node>, f: Field) {
    var l := TextLayers(chain, f);
    forall x, w | Places.Meets(l, x, w) ::
      EqNoCase(Places.Get(l, x), "disabled") ==> EqNoCase(Places.Get(l, w), "disabled")
  }

  ghost predicate SharingsAgree(chain: seq<Node>) {
    forall f: Field :: TextsAgree(chain, f)
  }

  lemma TextLayersAre(p: Policy<string>, l: Places.Layers<string>, chain: seq<Node>, f: Field)
    requires p == SharePolicy(f) && l == TextLayers(chain, f)
    ensures Places.LayersOf(p, l) && l.chain == chain && forall s :: !p.twice(s, s)
    ensures forall a, b :: p.twice(a, b) == p.badly(a, b) == (EqNoCase(b, "disabled") && !EqNoCase(a, "disabled"))
  {
    forall c: Config ensures p.entries(c) == l.list(c) {
    }
  }

  lemma TextsCompatible(p: Policy<string>, l: Places.Layers<string>, chain: seq<Node>, f: Field)
    requires p == SharePolicy(f) && l == TextLayers(chain, f)
    ensures Places.AllCompatible(p, l) <==> TextsAgree(chain, f)
  {
    TextLayersAre(p, l, chain, f);
  }

  lemma FieldExactly(p: Policy<string>, l: Places.Layers<string>, chain: seq<Node>, f: Field)
    requires p == SharePolicy(f) && l == TextLayers(chain, f)
    ensures NoClash(p, Visits(p, chain)) <==> TextsAgree(chain, f)
  {
    TextLayersAre(p, l, chain, f);
    TextsCompatible(p, l, chain, f);
    Places.RefusedPlaces(p, l);
  }

  lemma SharingsExactly(chain: seq<Node>)
    ensures Mixable(chain) <==> SharingsAgree(chain)
  {
    forall f: Field ensures NoClash(SharePolicy(f), ShareVisits(chain, f)) <==> TextsAgree(chain, f) {
      FieldExactly(SharePolicy(f), TextLayers(chain, f), chain, f);
    }
  }

  lemma SharesExactly(chain: seq<Node>, r: Option<Share>)
    requires r == if Mixable(chain) then Some(MergedShare(chain)) else None
    ensures r.Some? <==> SharingsAgree(chain)
    ensures r.Some? ==> IsMerge(chain, r.value)
  {
    SharingsExactly(chain);
    MergeIsMerge(chain);
  }

  lemma MergeIsMerge(chain: seq<Node>)
    ensures IsMerge(chain, MergedShare(chain))
  {
    TextSettled(SharePolicy(All), chain, All);
    forall f: Field
      ensures var text := Get(MergedShare(chain), f);
              if f == Time || Places.Given(chain, TextOf(f)) then Places.SettledValue(chain, TextOf(f), text)
              else Places.SettledValue(chain, TextOf(All), text)
    {
      TextSettled(SharePolicy(f), chain, f);
      FallbackGet(FieldValues(chain), f);
    }
  }

  lemma TextSettled(p: Policy<string>, chain: seq<Node>, f: Field)
    requires p == SharePolicy(f)
    ensures Places.SettledValue(chain, TextOf(f), FieldValue(chain, f))
  {
    TextLayersAre(p, TextLayers(chain, f), chain, f);
    Places.ValueSettled(p, chain, TextOf(f));
  }

  // ---- what the merge guarantees ----

  /** A level of a node gives that text for the field. */
  predicate Gives(chain: seq<Node>, f: Field, depth: nat, admin: bool, text: string)
    requires depth < |chain|
  {
    var config := if admin then chain[depth].confadmin else chain[depth].config;
    config.Some? && Get(config.value.tag.share, f) == Some(text)
  }

  /** The kinds of the texts. */
  lemma KindOf(text: string)
    ensures SharingType(Some(text)) == Disabled <==> EqNoCase(text, "disabled")
    ensures SharingType(Some(text)) == Enabled <==> EqNoCase(text, "enabled")
    ensures SharingType(Some(text)) == Unset <==> EqNoCase(text, "unset")
  {
    assert |Fold("disabled")| == 8 && |Fold("enabled")| == 7 && |Fold("unset")| == 5;
  }

  /** No admin configuration gives a text for the field. */
  ghost predicate NoAdminText(chain: seq<Node>, f: Field) {
    forall d: nat, x | d < |chain| && Gives(chain, f, d, true, x) :: EqNoCase(x, "unset")
  }

  lemma OnlyNormal(chain: seq<Node>, f: Field, j: nat)
    requires j < |ShareVisits(chain, f)| && NoAdminText(chain, f)
    ensures !ShareVisits(chain, f)[j].admin
  {
    var v := ShareVisits(chain, f)[j];
    VisitsExact(SharePolicy(f), chain, 0, v);
    KindOf(v.entry);
    assert Gives(chain, f, v.depth, v.admin, v.entry);
  }

  lemma DisabledWins(chain: seq<Node>, f: Field, depth: nat, admin: bool, text: string)
    requires NoClash(SharePolicy(f), ShareVisits(chain, f)) && depth < |chain|
    requires Gives(chain, f, depth, admin, text) && EqNoCase(text, "disabled")
    requires admin || NoAdminText(chain, f)
    ensures FieldValue(chain, f).Some? && Disables(FieldValue(chain, f).value)
  {
    var p, vs := SharePolicy(f), ShareVisits(chain, f);
    KindOf(text);
    VisitsExact(p, chain, 0, Visit(depth, admin, text));
    var i :| 0 <= i < |vs| && vs[i] == Visit(depth, admin, text);
    forall j | 0 <= j < |vs| && !admin
      ensures !vs[j].admin
    {
      OnlyNormal(chain, f, j);
    }
    DollsOfSharing(f, vs, i);
  }

  /** An admin configuration that disables a sharing is obeyed by every chain that merges; so is a
      normal one for a sharing that no admin configuration sets. */
  lemma DisabledStaysDisabled(chain: seq<Node>, f: Field, depth: nat, admin: bool, text: string)
    requires SharingsAgree(chain) && depth < |chain|
    requires Gives(chain, f, depth, admin, text) && EqNoCase(text, "disabled")
    requires admin || NoAdminText(chain, f)
    ensures var merged := Get(MergedShare(chain), f); merged.Some? && EqNoCase(merged.value, "disabled")
  {
    SharingsExactly(chain);
    DisabledWins(chain, f, depth, admin, text);
    FallbackGet(FieldValues(chain), f);
    KindOf(FieldValue(chain, f).value);
  }

  lemma DollsOfSharing(f: Field, vs: seq<Visit<string>>, i: nat)
    requires NoClash(SharePolicy(f), vs) && i < |vs| && Disables(vs[i].entry)
    requires vs[i].admin || forall j | 0 <= j < |vs| :: !vs[j].admin
    ensures var w := Winner(SharePolicy(f), vs, ""); w < |vs| && Disables(vs[w].entry)
  {
    var p := SharePolicy(f);
    forall a, b | Disables(b) && !Disables(a)
      ensures p.twice(a, b) && p.badly(a, b)
    {
      assert Forbidden(a, b);
    }
    RussianDolls(p, vs, Disables, i);
  }

  /** A merged sharing never spells "unset", and is unset only when `all` is too (but for time,
      which does not follow `all`). */
  lemma UnsetOnlyIfAllUnset(chain: seq<Node>, f: Field)
    ensures SharingType(Get(MergedShare(chain), f)) == Unset <==> Get(MergedShare(chain), f) == None
    ensures f != Time && Get(MergedShare(chain), f) == None ==> MergedShare(chain).all == None
  {
    FallbackGet(FieldValues(chain), f);
    FieldSet(chain, f);
    FieldSet(chain, All);
  }

  lemma FallbackGet(values: Field -> Option<string>, f: Field)
    ensures Fallback(values).all == values(All)
    ensures Get(Fallback(values), f) == if f == All || f == Time then values(f) else Or(values(f), values(All))
  {
  }

  lemma FieldSet(chain: seq<Node>, f: Field)
    ensures SharingType(FieldValue(chain, f)) == Unset <==> FieldValue(chain, f) == None
  {
    var p, vs := SharePolicy(f), ShareVisits(chain, f);
    var w := Winner(p, vs, "");
    if w < |vs| {
      VisitsExact(p, chain, 0, vs[w]);
    }
  }
}
