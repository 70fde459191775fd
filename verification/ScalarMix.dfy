/** mixEarlyConf and the scalar part of mixConfTags: all the admin configurations first, then all
    the normal ones, the first value set being kept. */
module ScalarMix {
  import opened Wrappers
  import opened Config
  import opened Chains
  import opened MergeStep
  import Places = Layers

  // ---- the one-pass rule ----

  /** The interleaved walk over the definitions of one optional value. */
  function OnePass<T>(get: Config -> Option<T>): Policy<T> {
    Policy((c: Config) => match get(c) case None => [] case Some(x) => [x], (d, x) => "", (d, x) => false,
           (a, b) => false, (a, b) => false)
  }

  // ---- the two-pass rule ----

  function ValueAt<T>(get: Config -> Option<T>, config: Option<Config>): Option<T> {
    match config
    case None => None
    case Some(c) => get(c)
  }

  /** The definition of the first node, from that depth, that sets the value at a level. */
  function FirstSet<T>(get: Config -> Option<T>, chain: seq<Node>, depth: nat, admin: bool): Option<Visit<T>>
    decreases |chain| - depth
  {
    if depth >= |chain| then None
    else match ValueAt(get, Level(chain[depth], admin))
         case Some(x) => Some(Visit(depth, admin, x))
         case None => FirstSet(get, chain, depth + 1, admin)
  }

  function TwoPass<T>(get: Config -> Option<T>, chain: seq<Node>): Option<Visit<T>> {
    var a := FirstSet(get, chain, 0, true);
    if a.Some? then a else FirstSet(get, chain, 0, false)
  }

  lemma LevelOfOne<T>(get: Config -> Option<T>, node: Node, depth: nat, admin: bool)
    ensures LevelFrom(OnePass(get), Entries(OnePass(get), node, admin), depth, admin, 0)
         == match ValueAt(get, Level(node, admin)) case None => [] case Some(x) => [Visit(depth, admin, x)]
  {
    assert LevelFrom(OnePass(get), Entries(OnePass(get), node, admin), depth, admin, 1) == [];
  }

  /** The first definition of a level in one node. */
  lemma FirstOfNode<T>(get: Config -> Option<T>, node: Node, depth: nat, admin: bool)
    ensures var p := OnePass(get);
            var vs := LevelFrom(p, Entries(p, node, true), depth, true, 0) +
                        LevelFrom(p, Entries(p, node, false), depth, false, 0);
            var f := FirstAt(p, vs, "", admin);
            match ValueAt(get, Level(node, admin))
            case None => f == |vs|
            case Some(x) => f < |vs| && vs[f] == Visit(depth, admin, x)
  {
    var p := OnePass(get);
    LevelOfOne(get, node, depth, true);
    LevelOfOne(get, node, depth, false);
    var a := LevelFrom(p, Entries(p, node, true), depth, true, 0);
    var b := LevelFrom(p, Entries(p, node, false), depth, false, 0);
    if ValueAt(get, Level(node, admin)).Some? {
      var v := Visit(depth, admin, ValueAt(get, Level(node, admin)).value);
      assert Named(p, v, "");
      assert (a + b)[if admin then 0 else |a|] == v;
    }
  }

  /** The first definition of a level, seen in the walk and seen node by node. */
  lemma {:induction false} FirstAtIsFirstSet<T>(get: Config -> Option<T>, chain: seq<Node>, depth: nat, admin: bool)
    ensures var p := OnePass(get);
            var vs := VisitsFrom(p, chain, depth);
            var f := FirstAt(p, vs, "", admin);
            FirstSet(get, chain, depth, admin) == if f < |vs| then Some(vs[f]) else None
    decreases |chain| - depth
  {
    if depth >= |chain| {
    } else {
      var p, node := OnePass(get), chain[depth];
      FirstAtIsFirstSet(get, chain, depth + 1, admin);
      FirstOfNode(get, node, depth, admin);
      var here := LevelFrom(p, Entries(p, node, true), depth, true, 0) +
                    LevelFrom(p, Entries(p, node, false), depth, false, 0);
      var later := VisitsFrom(p, chain, depth + 1);
      assert VisitsFrom(p, chain, depth) == here + later;
      FirstAtConcat(p, here, later, "", admin);
    }
  }

  /** The two-pass merge selects the definition that the one-pass walk with admin override selects:
      same node, same level, same value. */
  lemma TwoPassIsOnePass<T>(get: Config -> Option<T>, chain: seq<Node>)
    ensures TwoPass(get, chain) == MergedEntry(OnePass(get), Visits(OnePass(get), chain), "")
  {
    FirstAtIsFirstSet(get, chain, 0, true);
    FirstAtIsFirstSet(get, chain, 0, false);
  }

  // ---- the loops ----

  /** The value kept by a pass over the nodes up to a depth, starting from an accumulator. */
  function Pass<T>(acc: Option<T>, get: Config -> Option<T>, chain: seq<Node>, upto: nat, admin: bool): Option<T>
    requires upto <= |chain|
  {
    if upto == 0 then acc
    else var prior := Pass(acc, get, chain, upto - 1, admin);
         if prior.Some? then prior else ValueAt(get, Level(chain[upto - 1], admin))
  }

  function Value<T>(v: Option<Visit<T>>): Option<T> {
    match v
    case None => None
    case Some(x) => Some(x.entry)
  }

  /** A whole pass keeps the accumulator when it is set, else the first value set. */
  lemma {:induction false} PassKeepsFirst<T>(acc: Option<T>, get: Config -> Option<T>, chain: seq<Node>, upto: nat,
                                             admin: bool)
    requires upto <= |chain|
    ensures var rest := Value(FirstSet(get, chain, upto, admin));
            var prior := Pass(acc, get, chain, upto, admin);
            (if prior.Some? then prior else rest) == if acc.Some? then acc else Value(FirstSet(get, chain, 0, admin))
  {
    if upto == 0 {
    } else {
      PassKeepsFirst(acc, get, chain, upto - 1, admin);
    }
  }

  function TwoPasses<T>(get: Config -> Option<T>, chain: seq<Node>): Option<T> {
    Pass(Pass(None, get, chain, |chain|, true), get, chain, |chain|, false)
  }

  lemma TwoPassesKeepTwoPass<T>(get: Config -> Option<T>, chain: seq<Node>)
    ensures TwoPasses(get, chain) == Value(TwoPass(get, chain))
  {
    PassKeepsFirst(None, get, chain, |chain|, true);
    PassKeepsFirst(Pass(None, get, chain, |chain|, true), get, chain, |chain|, false);
  }

  datatype Early = Early(setuser: Option<string>, setgroup: Option<string>, smack: Option<string>)

  function MixString(destination: Option<string>, source: Option<string>): Option<string> {
    if destination == None then source else destination
  }

  /** mix_early_conf */
  function MixEarly(conf: Early, s: Scalars): Early {
    Early(MixString(conf.setuser, s.setuser), MixString(conf.setgroup, s.setgroup), MixString(conf.smack, s.smack))
  }

  const SETUSER := (s: Scalars) => s.setuser
  const SETGROUP := (s: Scalars) => s.setgroup
  const SMACK := (s: Scalars) => s.smack

  /** The value kept for the two passes is that of the nearest admin configuration that sets it, else of the
      nearest normal one. */
  lemma TwoPassSettled<T(!new)>(f: Config -> Option<T>, get: Config -> Option<T>, chain: seq<Node>)
    requires forall c :: f(c) == get(c)
    ensures Places.SettledValue(chain, get, Value(TwoPass(f, chain)))
  {
    TwoPassIsOnePass(f, chain);
    Places.ValueSettled(OnePass(f), chain, get);
  }

  /** mixEarlyConf */
  method MixEarlyConf(chain: seq<Node>) returns (conf: Early)
    ensures conf == Early(Kept(SETUSER, chain), Kept(SETGROUP, chain), Kept(SMACK, chain))
    ensures Places.SettledValue(chain, (c: Config) => c.tag.scalars.setuser, conf.setuser)
    ensures Places.SettledValue(chain, (c: Config) => c.tag.scalars.setgroup, conf.setgroup)
    ensures Places.SettledValue(chain, (c: Config) => c.tag.scalars.smack, conf.smack)
  {
    ghost var user, group, smack := OfScalars(SETUSER), OfScalars(SETGROUP), OfScalars(SMACK);
    conf := Early(None, None, None);
    for i := 0 to |chain|
      invariant conf == Early(Pass(None, user, chain, i, true), Pass(None, group, chain, i, true),
                              Pass(None, smack, chain, i, true))
    {
      if chain[i].confadmin.Some? {
        conf := MixEarly(conf, chain[i].confadmin.value.tag.scalars);
      }
    }
    ghost var admin := conf;
    for i := 0 to |chain|
      invariant conf == Early(Pass(admin.setuser, user, chain, i, false), Pass(admin.setgroup, group, chain, i, false),
                              Pass(admin.smack, smack, chain, i, false))
    {
      if chain[i].config.Some? {
        conf := MixEarly(conf, chain[i].config.value.tag.scalars);
      }
    }
    TwoPassesKeepTwoPass(user, chain);
    TwoPassesKeepTwoPass(group, chain);
    TwoPassesKeepTwoPass(smack, chain);
    TwoPassSettled(user, (c: Config) => c.tag.scalars.setuser, chain);
    TwoPassSettled(group, (c: Config) => c.tag.scalars.setgroup, chain);
    TwoPassSettled(smack, (c: Config) => c.tag.scalars.smack, chain);
  }

  // ---- mix_basic_conftag ----

  function MixFlag(destination: OptFlag, source: OptFlag): OptFlag {
    if destination == OptUnset then source else destination
  }

  function MixInt(destination: int, source: int): int {
    if destination == 0 then source else destination
  }

  const TEXTS: nat := 10

  /** The texts of the scalars, in the order in which they are mixed. */
  function Texts(s: Scalars): (ts: seq<Option<string>>)
    ensures |ts| == TEXTS
  {
    [s.rpmdir, s.persistdir, s.cachedir, s.hostname, s.chdir, s.umask, s.setuser, s.setgroup, s.smack, s.cgrouproot]
  }

  function WithTexts(s: Scalars, ts: seq<Option<string>>): Scalars
    requires |ts| == TEXTS
  {
    s.(rpmdir := ts[0], persistdir := ts[1], cachedir := ts[2], hostname := ts[3], chdir := ts[4], umask := ts[5],
       setuser := ts[6], setgroup := ts[7], smack := ts[8], cgrouproot := ts[9])
  }

  /** The calls of mix_string from text k: a text that is set and not yet kept is expanded in the context of the
      leaf, and the calls end with the first expansion that fails. */
  function MixTexts(expand: string -> Option<string>, ds: seq<Option<string>>, ss: seq<Option<string>>, k: nat)
    : (r: seq<Option<string>>)
    requires k <= |ds| == |ss|
    ensures |r| == |ds|
    decreases |ds| - k
  {
    if k == |ds| then ds
    else if ds[k].None? && ss[k].Some? then
      var text := expand(ss[k].value);
      if text.None? then ds else MixTexts(expand, ds[k := text], ss, k + 1)
    else MixTexts(expand, ds, ss, k + 1)
  }

  function MixBasic(expand: string -> Option<string>, d: Scalars, s: Scalars): Scalars {
    WithTexts(d.(diewithparent := MixFlag(d.diewithparent, s.diewithparent),
                 newsession := MixFlag(d.newsession, s.newsession),
                 verbose := MixInt(d.verbose, s.verbose), inheritenv := MixInt(d.inheritenv, s.inheritenv),
                 gpgcheck := MixInt(d.gpgcheck, s.gpgcheck), unsafe := MixInt(d.unsafe, s.unsafe),
                 maprootuser := MixInt(d.maprootuser, s.maprootuser)),
              MixTexts(expand, Texts(d), Texts(s), 0))
  }

  /** The loop of mixConfTags over one level, up to a depth. */
  function BasicPass(expand: string -> Option<string>, acc: Scalars, chain: seq<Node>, upto: nat, admin: bool): Scalars
    requires upto <= |chain|
  {
    if upto == 0 then acc
    else var prior := BasicPass(expand, acc, chain, upto - 1, admin);
         match Level(chain[upto - 1], admin)
         case None => prior
         case Some(c) => MixBasic(expand, prior, c.tag.scalars)
  }

  function BasicPasses(expand: string -> Option<string>, chain: seq<Node>): Scalars {
    BasicPass(expand, BasicPass(expand, NoScalars(), chain, |chain|, true), chain, |chain|, false)
  }

  /** The two loops of mixConfTags over mix_basic_conftag. */
  method MixBasicTags(expand: string -> Option<string>, chain: seq<Node>) returns (conftag: Scalars)
    ensures conftag == BasicPasses(expand, chain)
    ensures NumbersSettled(chain, conftag)
    ensures TextsSettled(expand, chain, conftag) <==> AllExpand(expand, chain)
    ensures ComeFromChain(expand, chain, conftag)
  {
    conftag := NoScalars();
    for i := 0 to |chain|
      invariant conftag == BasicPass(expand, NoScalars(), chain, i, true)
    {
      if chain[i].confadmin.Some? {
        conftag := MixBasic(expand, conftag, chain[i].confadmin.value.tag.scalars);
      }
    }
    ghost var admin := conftag;
    for i := 0 to |chain|
      invariant conftag == BasicPass(expand, admin, chain, i, false)
    {
      if chain[i].config.Some? {
        conftag := MixBasic(expand, conftag, chain[i].config.value.tag.scalars);
      }
    }
    BasicNumbers(expand, chain);
    BasicTexts(expand, chain, conftag);
    BasicsCome(expand, chain);
  }

  function OfScalars<T>(get: Scalars -> Option<T>): Config -> Option<T> {
    (c: Config) => get(c.tag.scalars)
  }

  /** The value of the definition selected by the two-pass rule. */
  function Kept<T>(get: Scalars -> Option<T>, chain: seq<Node>): Option<T> {
    Value(TwoPass(OfScalars(get), chain))
  }

  // ---- flags and numbers ----

  /** A view of the destination that mix_basic_conftag sets from the source when it is unset. */
  ghost predicate Follows<T>(expand: string -> Option<string>, view: Scalars -> Option<T>) {
    forall d, s :: view(MixBasic(expand, d, s)) == if view(d).Some? then view(d) else view(s)
  }

  lemma {:induction false} BasicPassFollows<T>(expand: string -> Option<string>, view: Scalars -> Option<T>,
                                               acc: Scalars, chain: seq<Node>, upto: nat, admin: bool)
    requires upto <= |chain| && Follows(expand, view)
    ensures view(BasicPass(expand, acc, chain, upto, admin)) == Pass(view(acc), OfScalars(view), chain, upto, admin)
  {
    if upto == 0 {
    } else {
      BasicPassFollows(expand, view, acc, chain, upto - 1, admin);
    }
  }

  lemma BasicPassesKeep<T>(expand: string -> Option<string>, view: Scalars -> Option<T>, chain: seq<Node>)
    requires Follows(expand, view) && view(NoScalars()) == None
    ensures view(BasicPasses(expand, chain)) == Kept(view, chain)
  {
    BasicPassFollows(expand, view, NoScalars(), chain, |chain|, true);
    BasicPassFollows(expand, view, BasicPass(expand, NoScalars(), chain, |chain|, true), chain, |chain|, false);
    TwoPassesKeepTwoPass(OfScalars(view), chain);
  }

  function SetInt(i: int): Option<int> { if i == 0 then None else Some(i) }

  function SetFlag(f: OptFlag): Option<OptFlag> { if f == OptUnset then None else Some(f) }

  function NumberIn(get: Scalars -> int): Config -> Option<int> {
    (c: Config) => if get(c.tag.scalars) == 0 then None else Some(get(c.tag.scalars))
  }

  function FlagIn(get: Scalars -> OptFlag): Config -> Option<OptFlag> {
    (c: Config) => if get(c.tag.scalars) == OptUnset then None else Some(get(c.tag.scalars))
  }

  /** The result is the number set by the settled configuration, 0 when there is none. */
  ghost predicate NumberSettled(chain: seq<Node>, get: Scalars -> int, r: int) {
    Places.SettledValue(chain, NumberIn(get), if r == 0 then None else Some(r))
  }

  ghost predicate FlagSettled(chain: seq<Node>, get: Scalars -> OptFlag, r: OptFlag) {
    Places.SettledValue(chain, FlagIn(get), if r == OptUnset then None else Some(r))
  }

  ghost predicate NumbersSettled(chain: seq<Node>, r: Scalars) {
    && FlagSettled(chain, (s: Scalars) => s.diewithparent, r.diewithparent)
    && FlagSettled(chain, (s: Scalars) => s.newsession, r.newsession)
    && NumberSettled(chain, (s: Scalars) => s.verbose, r.verbose)
    && NumberSettled(chain, (s: Scalars) => s.inheritenv, r.inheritenv)
    && NumberSettled(chain, (s: Scalars) => s.gpgcheck, r.gpgcheck)
    && NumberSettled(chain, (s: Scalars) => s.unsafe, r.unsafe)
    && NumberSettled(chain, (s: Scalars) => s.maprootuser, r.maprootuser)
  }

  lemma NumberKept(chain: seq<Node>, get: Scalars -> int, view: Scalars -> Option<int>, r: int)
    requires forall s :: view(s) == if get(s) == 0 then None else Some(get(s))
    requires Kept(view, chain) == if r == 0 then None else Some(r)
    ensures NumberSettled(chain, get, r)
  {
    forall c: Config ensures OfScalars(view)(c) == NumberIn(get)(c) {
      assert OfScalars(view)(c) == view(c.tag.scalars);
    }
    TwoPassSettled(OfScalars(view), NumberIn(get), chain);
  }

  lemma FlagKept(chain: seq<Node>, get: Scalars -> OptFlag, view: Scalars -> Option<OptFlag>, r: OptFlag)
    requires forall s :: view(s) == if get(s) == OptUnset then None else Some(get(s))
    requires Kept(view, chain) == if r == OptUnset then None else Some(r)
    ensures FlagSettled(chain, get, r)
  {
    forall c: Config ensures OfScalars(view)(c) == FlagIn(get)(c) {
      assert OfScalars(view)(c) == view(c.tag.scalars);
    }
    TwoPassSettled(OfScalars(view), FlagIn(get), chain);
  }

  lemma NumberIsSettled(expand: string -> Option<string>, chain: seq<Node>, get: Scalars -> int, r: int)
    requires forall d, s :: get(MixBasic(expand, d, s)) == MixInt(get(d), get(s))
    requires get(NoScalars()) == 0 && r == get(BasicPasses(expand, chain))
    ensures NumberSettled(chain, get, r)
  {
    var view := (s: Scalars) => SetInt(get(s));
    BasicPassesKeep(expand, view, chain);
    assert view(BasicPasses(expand, chain)) == SetInt(r);
    NumberKept(chain, get, view, r);
  }

  lemma FlagIsSettled(expand: string -> Option<string>, chain: seq<Node>, get: Scalars -> OptFlag, r: OptFlag)
    requires forall d, s :: get(MixBasic(expand, d, s)) == MixFlag(get(d), get(s))
    requires get(NoScalars()) == OptUnset && r == get(BasicPasses(expand, chain))
    ensures FlagSettled(chain, get, r)
  {
    var view := (s: Scalars) => SetFlag(get(s));
    BasicPassesKeep(expand, view, chain);
    assert view(BasicPasses(expand, chain)) == SetFlag(r);
    FlagKept(chain, get, view, r);
  }

  /** Each flag and number is that of the nearest admin configuration that sets it, else of the nearest normal
      one, whatever happens to the texts. */
  lemma BasicNumbers(expand: string -> Option<string>, chain: seq<Node>)
    ensures NumbersSettled(chain, BasicPasses(expand, chain))
  {
    var r := BasicPasses(expand, chain);
    FlagIsSettled(expand, chain, (s: Scalars) => s.diewithparent, r.diewithparent);
    FlagIsSettled(expand, chain, (s: Scalars) => s.newsession, r.newsession);
    NumberIsSettled(expand, chain, (s: Scalars) => s.verbose, r.verbose);
    NumberIsSettled(expand, chain, (s: Scalars) => s.inheritenv, r.inheritenv);
    NumberIsSettled(expand, chain, (s: Scalars) => s.gpgcheck, r.gpgcheck);
    NumberIsSettled(expand, chain, (s: Scalars) => s.unsafe, r.unsafe);
    NumberIsSettled(expand, chain, (s: Scalars) => s.maprootuser, r.maprootuser);
  }

  // ---- texts ----

  function StringIn(get: Scalars -> Option<string>): Config -> Option<string> {
    (c: Config) => get(c.tag.scalars)
  }

  /** The result is the expansion of the text of the settled configuration. */
  ghost predicate StringSettled(expand: string -> Option<string>, chain: seq<Node>, get: Scalars -> Option<string>,
                                r: Option<string>)
  {
    match r
    case None => Places.SettledValue(chain, StringIn(get), None)
    case Some(t) => exists s :: Places.SettledValue(chain, StringIn(get), Some(s)) && expand(s) == Some(t)
  }

  /** The fields of texts. */
  function TextFields(): (fs: seq<Scalars -> Option<string>>)
    ensures |fs| == TEXTS
  {
    [(s: Scalars) => s.rpmdir, (s: Scalars) => s.persistdir, (s: Scalars) => s.cachedir, (s: Scalars) => s.hostname,
     (s: Scalars) => s.chdir, (s: Scalars) => s.umask, (s: Scalars) => s.setuser, (s: Scalars) => s.setgroup,
     (s: Scalars) => s.smack, (s: Scalars) => s.cgrouproot]
  }

  /** Each field of the result is the expansion of the settled text of that field. */
  ghost predicate TextsSettled(expand: string -> Option<string>, chain: seq<Node>, r: Scalars) {
    forall get | get in TextFields() :: StringSettled(expand, chain, get, get(r))
  }

  /** The settled text of a field, if any, can be expanded. */
  ghost predicate Expands(expand: string -> Option<string>, chain: seq<Node>, get: Scalars -> Option<string>) {
    forall s | Places.SettledValue(chain, StringIn(get), Some(s)) :: expand(s).Some?
  }

  ghost predicate AllExpand(expand: string -> Option<string>, chain: seq<Node>) {
    forall get | get in TextFields() :: Expands(expand, chain, get)
  }

  /** Field k of the texts. */
  function TextAt(k: nat): Scalars -> Option<string>
    requires k < TEXTS
  {
    (s: Scalars) => Texts(s)[k]
  }

  /** The expansion of a text, if any. */
  function Expanded(expand: string -> Option<string>, text: Option<string>): Option<string> {
    match text
    case None => None
    case Some(s) => expand(s)
  }

  /** Without failure, each text is set from the source when it is not kept. */
  lemma {:induction false} MixTextsAll(expand: string -> Option<string>, ds: seq<Option<string>>,
                                       ss: seq<Option<string>>, k: nat, i: nat)
    requires k <= |ds| == |ss| && i < |ds|
    requires forall j | k <= j < |ds| && ds[j].None? && ss[j].Some? :: expand(ss[j].value).Some?
    ensures MixTexts(expand, ds, ss, k)[i] == if k <= i && ds[i].None? then Expanded(expand, ss[i]) else ds[i]
    decreases |ds| - k
  {
    if k == |ds| {
    } else if ds[k].None? && ss[k].Some? {
      MixTextsAll(expand, ds[k := expand(ss[k].value)], ss, k + 1, i);
    } else {
      MixTextsAll(expand, ds, ss, k + 1, i);
    }
  }

  /** What mix_string calls do to a text, failures or not. */
  lemma {:induction false} MixTextsFrom(expand: string -> Option<string>, ds: seq<Option<string>>,
                                        ss: seq<Option<string>>, k: nat, i: nat)
    requires k <= |ds| == |ss| && i < |ds|
    ensures MixTexts(expand, ds, ss, k)[i] in {ds[i], Expanded(expand, ss[i])}
    decreases |ds| - k
  {
    if k == |ds| {
    } else if ds[k].None? && ss[k].Some? {
      if expand(ss[k].value).Some? {
        MixTextsFrom(expand, ds[k := expand(ss[k].value)], ss, k + 1, i);
      }
    } else {
      MixTextsFrom(expand, ds, ss, k + 1, i);
    }
  }

  lemma TextsOfBasic(expand: string -> Option<string>, d: Scalars, s: Scalars)
    ensures Texts(MixBasic(expand, d, s)) == MixTexts(expand, Texts(d), Texts(s), 0)
  {
  }

  /** What a pass keeps of text k, expanded. */
  ghost predicate Tracks(expand: string -> Option<string>, chain: seq<Node>, kept: seq<Option<string>>, upto: nat,
                         admin: bool, r: Scalars)
    requires |kept| == TEXTS && upto <= |chain|
  {
    forall k | 0 <= k < TEXTS ::
      Texts(r)[k] == Expanded(expand, Pass(kept[k], OfScalars(TextAt(k)), chain, upto, admin))
  }

  /** The texts kept by a pass can be expanded. */
  ghost predicate KeptExpand(expand: string -> Option<string>, chain: seq<Node>, kept: seq<Option<string>>, upto: nat,
                             admin: bool)
    requires |kept| == TEXTS && upto <= |chain|
  {
    forall k | 0 <= k < TEXTS ::
      var text := Pass(kept[k], OfScalars(TextAt(k)), chain, upto, admin); text.Some? ==> expand(text.value).Some?
  }

  /** One configuration more, when what is kept can be expanded. */
  lemma TextStep(expand: string -> Option<string>, prior: Scalars, source: Scalars, kept: seq<Option<string>>, k: nat)
    requires |kept| == TEXTS && k < TEXTS
    requires forall j | 0 <= j < TEXTS :: Texts(prior)[j] == Expanded(expand, kept[j])
    requires forall j | 0 <= j < TEXTS ::
               var text := if kept[j].Some? then kept[j] else Texts(source)[j]; text.Some? ==> expand(text.value).Some?
    ensures Texts(MixBasic(expand, prior, source))[k] ==
            Expanded(expand, if kept[k].Some? then kept[k] else Texts(source)[k])
  {
    TextsOfBasic(expand, prior, source);
    MixTextsAll(expand, Texts(prior), Texts(source), 0, k);
  }

  lemma PassOfText(chain: seq<Node>, kept: Option<string>, k: nat, upto: nat, admin: bool)
    requires 0 < upto <= |chain| && k < TEXTS
    ensures var prior := Pass(kept, OfScalars(TextAt(k)), chain, upto - 1, admin);
            Pass(kept, OfScalars(TextAt(k)), chain, upto, admin) ==
            if prior.Some? then prior
            else match Level(chain[upto - 1], admin) case None => None case Some(c) => Texts(c.tag.scalars)[k]
  {
  }

  lemma {:induction false} PassTracks(expand: string -> Option<string>, chain: seq<Node>, kept: seq<Option<string>>,
                                      acc: Scalars, upto: nat, admin: bool)
    requires |kept| == TEXTS && upto <= |chain| && KeptExpand(expand, chain, kept, upto, admin)
    requires forall k | 0 <= k < TEXTS :: Texts(acc)[k] == Expanded(expand, kept[k])
    ensures Tracks(expand, chain, kept, upto, admin, BasicPass(expand, acc, chain, upto, admin))
  {
    if upto == 0 {
    } else {
      var prior := BasicPass(expand, acc, chain, upto - 1, admin);
      var was := seq(TEXTS, k requires 0 <= k < TEXTS => Pass(kept[k], OfScalars(TextAt(k)), chain, upto - 1, admin));
      forall k | 0 <= k < TEXTS
        ensures Pass(kept[k], OfScalars(TextAt(k)), chain, upto, admin) ==
                if was[k].Some? then was[k]
                else match Level(chain[upto - 1], admin) case None => None case Some(c) => Texts(c.tag.scalars)[k]
      {
        PassOfText(chain, kept[k], k, upto, admin);
      }
      PassTracks(expand, chain, kept, acc, upto - 1, admin);
      match Level(chain[upto - 1], admin)
      case None =>
      case Some(c) =>
        forall k | 0 <= k < TEXTS
          ensures Texts(MixBasic(expand, prior, c.tag.scalars))[k] ==
                  Expanded(expand, if was[k].Some? then was[k] else Texts(c.tag.scalars)[k])
        {
          TextStep(expand, prior, c.tag.scalars, was, k);
        }
    }
  }

  /** The text that the two passes keep for field k can be expanded, if there is one. */
  predicate FieldExpands(expand: string -> Option<string>, chain: seq<Node>, k: nat)
    requires k < TEXTS
  {
    var kept := Kept(TextAt(k), chain); kept.Some? ==> expand(kept.value).Some?
  }

  /** When the kept texts can be expanded, they are. */
  lemma TextsKept(expand: string -> Option<string>, chain: seq<Node>)
    requires forall k | 0 <= k < TEXTS :: FieldExpands(expand, chain, k)
    ensures forall k | 0 <= k < TEXTS ::
              Texts(BasicPasses(expand, chain))[k] == Expanded(expand, Kept(TextAt(k), chain))
  {
    var n := |chain|;
    var none := seq(TEXTS, k => None);
    var first := seq(TEXTS, k requires 0 <= k < TEXTS => Pass(None, OfScalars(TextAt(k)), chain, n, true));
    forall k | 0 <= k < TEXTS
      ensures Pass(first[k], OfScalars(TextAt(k)), chain, n, false) == Kept(TextAt(k), chain)
      ensures first[k].Some? ==> first[k] == Kept(TextAt(k), chain)
      ensures FieldExpands(expand, chain, k)
    {
      TwoPassesKeepTwoPass(OfScalars(TextAt(k)), chain);
      PassKeepsFirst(first[k], OfScalars(TextAt(k)), chain, n, false);
    }
    PassTracks(expand, chain, none, NoScalars(), n, true);
    PassTracks(expand, chain, first, BasicPass(expand, NoScalars(), chain, n, true), n, false);
  }

  /** It is expanded to r. */
  predicate FieldIs(expand: string -> Option<string>, chain: seq<Node>, k: nat, r: Option<string>)
    requires k < TEXTS
  {
    var kept := Kept(TextAt(k), chain); if kept.None? then r.None? else r.Some? && expand(kept.value) == r
  }

  lemma OneSettled(chain: seq<Node>, get: Scalars -> Option<string>, k: nat, o: Option<string>)
    requires k < TEXTS && forall s :: get(s) == Texts(s)[k]
    ensures Places.SettledValue(chain, StringIn(get), o) <==> o == Kept(TextAt(k), chain)
  {
    var kept := Kept(TextAt(k), chain);
    forall c: Config ensures OfScalars(TextAt(k))(c) == StringIn(get)(c) {
      assert OfScalars(TextAt(k))(c) == TextAt(k)(c.tag.scalars) == get(c.tag.scalars);
    }
    TwoPassSettled(OfScalars(TextAt(k)), StringIn(get), chain);
    if Places.SettledValue(chain, StringIn(get), o) {
      Places.SettledOnce(chain, StringIn(get), o, kept);
    }
  }

  lemma ExpandsExactly(expand: string -> Option<string>, chain: seq<Node>, get: Scalars -> Option<string>, k: nat)
    requires k < TEXTS && forall s :: get(s) == Texts(s)[k]
    ensures Expands(expand, chain, get) <==> FieldExpands(expand, chain, k)
  {
    forall o ensures Places.SettledValue(chain, StringIn(get), o) <==> o == Kept(TextAt(k), chain) {
      OneSettled(chain, get, k, o);
    }
  }

  lemma StringExactly(expand: string -> Option<string>, chain: seq<Node>, get: Scalars -> Option<string>, k: nat,
                      r: Option<string>)
    requires k < TEXTS && forall s :: get(s) == Texts(s)[k]
    ensures StringSettled(expand, chain, get, r) <==> FieldIs(expand, chain, k, r)
  {
    forall o ensures Places.SettledValue(chain, StringIn(get), o) <==> o == Kept(TextAt(k), chain) {
      OneSettled(chain, get, k, o);
    }
  }

  lemma FieldsAre(k: nat, s: Scalars)
    requires k < TEXTS
    ensures TextFields()[k](s) == Texts(s)[k]
  {
    if k == 0 {
    } else if k == 1 {
    } else if k == 2 {
    } else if k == 3 {
    } else if k == 4 {
    } else if k == 5 {
    } else if k == 6 {
    } else if k == 7 {
    } else if k == 8 {
    }
  }

  lemma FieldExactly(expand: string -> Option<string>, chain: seq<Node>, k: nat, r: Scalars)
    requires k < TEXTS
    ensures Expands(expand, chain, TextFields()[k]) <==> FieldExpands(expand, chain, k)
    ensures StringSettled(expand, chain, TextFields()[k], TextFields()[k](r)) <==>
              FieldIs(expand, chain, k, Texts(r)[k])
  {
    var get := TextFields()[k];
    forall s ensures get(s) == Texts(s)[k] {
      FieldsAre(k, s);
    }
    ExpandsExactly(expand, chain, get, k);
    StringExactly(expand, chain, get, k, get(r));
  }

  lemma FieldIsExpands(expand: string -> Option<string>, chain: seq<Node>, k: nat, r: Option<string>)
    requires k < TEXTS
    ensures FieldIs(expand, chain, k, r) ==> FieldExpands(expand, chain, k)
    ensures FieldExpands(expand, chain, k) && r == Expanded(expand, Kept(TextAt(k), chain)) ==>
              FieldIs(expand, chain, k, r)
  {
  }

  lemma KeptFields(expand: string -> Option<string>, chain: seq<Node>)
    requires forall k | 0 <= k < TEXTS :: FieldExpands(expand, chain, k)
    ensures forall k | 0 <= k < TEXTS :: FieldIs(expand, chain, k, Texts(BasicPasses(expand, chain))[k])
  {
    TextsKept(expand, chain);
    forall k | 0 <= k < TEXTS ensures FieldIs(expand, chain, k, Texts(BasicPasses(expand, chain))[k]) {
      FieldIsExpands(expand, chain, k, Texts(BasicPasses(expand, chain))[k]);
    }
  }

  /** The merged texts are the expansions of the settled ones if and only if these can all be expanded. */
  lemma BasicTexts(expand: string -> Option<string>, chain: seq<Node>, r: Scalars)
    requires r == BasicPasses(expand, chain)
    ensures TextsSettled(expand, chain, r) <==> AllExpand(expand, chain)
  {
    if AllExpand(expand, chain) {
      forall k | 0 <= k < TEXTS ensures FieldExpands(expand, chain, k) {
        FieldExactly(expand, chain, k, r);
        assert TextFields()[k] in TextFields();
      }
      KeptFields(expand, chain);
      forall get | get in TextFields() ensures StringSettled(expand, chain, get, get(r)) {
        var k :| 0 <= k < TEXTS && TextFields()[k] == get;
        FieldExactly(expand, chain, k, r);
      }
    }
    if TextsSettled(expand, chain, r) {
      forall get | get in TextFields() ensures Expands(expand, chain, get) {
        var k :| 0 <= k < TEXTS && TextFields()[k] == get;
        FieldExactly(expand, chain, k, r);
        FieldIsExpands(expand, chain, k, Texts(r)[k]);
      }
    }
  }

  // ---- texts, whatever fails ----

  /** A configuration of the chain gives t, once expanded, for text k. */
  predicate GivesText(expand: string -> Option<string>, chain: seq<Node>, depth: nat, admin: bool, k: nat,
                      t: Option<string>)
    requires k < TEXTS
  {
    && depth < |chain|
    && var config := if admin then chain[depth].confadmin else chain[depth].config;
       config.Some? && Expanded(expand, Texts(config.value.tag.scalars)[k]) == t
  }

  /** Each text is the expansion of one of the same field. */
  ghost predicate ComeFromChain(expand: string -> Option<string>, chain: seq<Node>, r: Scalars) {
    forall k | 0 <= k < TEXTS && Texts(r)[k].Some? ::
      exists depth: nat, admin: bool :: GivesText(expand, chain, depth, admin, k, Texts(r)[k])
  }

  lemma {:induction false} PassComes(expand: string -> Option<string>, chain: seq<Node>, acc: Scalars, upto: nat,
                                     admin: bool)
    requires upto <= |chain| && ComeFromChain(expand, chain, acc)
    ensures ComeFromChain(expand, chain, BasicPass(expand, acc, chain, upto, admin))
  {
    if upto == 0 {
    } else {
      var prior := BasicPass(expand, acc, chain, upto - 1, admin);
      PassComes(expand, chain, acc, upto - 1, admin);
      match Level(chain[upto - 1], admin)
      case None =>
      case Some(c) =>
        var r := MixBasic(expand, prior, c.tag.scalars);
        TextsOfBasic(expand, prior, c.tag.scalars);
        forall k | 0 <= k < TEXTS && Texts(r)[k].Some?
          ensures exists depth: nat, admin: bool :: GivesText(expand, chain, depth, admin, k, Texts(r)[k])
        {
          MixTextsFrom(expand, Texts(prior), Texts(c.tag.scalars), 0, k);
          assert Texts(r)[k] == Texts(prior)[k] || GivesText(expand, chain, upto - 1, admin, k, Texts(r)[k]);
        }
    }
  }

  lemma BasicsCome(expand: string -> Option<string>, chain: seq<Node>)
    ensures ComeFromChain(expand, chain, BasicPasses(expand, chain))
  {
    var none := NoScalars();
    assert ComeFromChain(expand, chain, none) by {
      assert forall k | 0 <= k < TEXTS :: Texts(none)[k].None?;
    }
    PassComes(expand, chain, none, |chain|, true);
    PassComes(expand, chain, BasicPass(expand, none, chain, |chain|, true), |chain|, false);
  }

  /** A configuration that has only these texts. */
  function OnlyTexts(rpmdir: Option<string>, hostname: Option<string>): Option<Config> {
    Some(Config(Tag(NoScalars().(rpmdir := rpmdir, hostname := hostname), None, None,
                    Share(None, None, None, None, None, None, None), []), [], []))
  }

  /** When the rpmdir of the leaf cannot be expanded, its hostname is lost and the one of the parent is taken. */
  lemma FailureHidesTexts(expand: string -> Option<string>, rpmdir: string, hostname: string, other: string)
    requires expand(rpmdir).None? && expand(other).Some?
    ensures var chain := [Node("/a", None, OnlyTexts(Some(rpmdir), Some(hostname))),
                          Node("/", None, OnlyTexts(None, Some(other)))];
            BasicPasses(expand, chain).hostname == expand(other) && BasicPasses(expand, chain).rpmdir == None
  {
    var chain := [Node("/a", None, OnlyTexts(Some(rpmdir), Some(hostname))),
                  Node("/", None, OnlyTexts(None, Some(other)))];
    var none := NoScalars();
    assert BasicPass(expand, none, chain, 0, true) == none;
    assert BasicPass(expand, none, chain, 1, true) == none;
    assert BasicPass(expand, none, chain, 2, true) == none;
    var leaf := chain[0].config.value.tag.scalars;
    assert MixTexts(expand, Texts(none), Texts(leaf), 0) == Texts(none);
    assert MixBasic(expand, none, leaf) == none;
    assert BasicPass(expand, none, chain, 0, false) == none;
    assert BasicPass(expand, none, chain, 1, false) == none;
    var parent := chain[1].config.value.tag.scalars;
    MixTextsAll(expand, Texts(none), Texts(parent), 0, 0);
    MixTextsAll(expand, Texts(none), Texts(parent), 0, 3);
    TextsOfBasic(expand, none, parent);
    assert Texts(MixBasic(expand, none, parent))[0] == None
           && Texts(MixBasic(expand, none, parent))[3] == expand(other);
    assert BasicPasses(expand, chain) == MixBasic(expand, none, parent);
  }

  // ---- early configuration and configuration tags agree ----

  lemma SettledIsKept(expand: string -> Option<string>, chain: seq<Node>, get: Scalars -> Option<string>, r: Scalars)
    requires TextsSettled(expand, chain, r) && get in TextFields()
    ensures get(r) == Expanded(expand, Kept(get, chain))
  {
    assert StringSettled(expand, chain, get, get(r));
    TwoPassSettled(OfScalars(get), StringIn(get), chain);
    forall o | Places.SettledValue(chain, StringIn(get), o) ensures o == Kept(get, chain) {
      Places.SettledOnce(chain, StringIn(get), o, Kept(get, chain));
    }
  }

  /** User, group and smack label come from the same source in both merges: the early configuration
      holds the text, the configuration tag its expansion. */
  lemma EarlyAgreesWithTags(expand: string -> Option<string>, chain: seq<Node>)
    requires AllExpand(expand, chain)
    ensures BasicPasses(expand, chain).setuser == Expanded(expand, Kept(SETUSER, chain))
    ensures BasicPasses(expand, chain).setgroup == Expanded(expand, Kept(SETGROUP, chain))
    ensures BasicPasses(expand, chain).smack == Expanded(expand, Kept(SMACK, chain))
  {
    var r := BasicPasses(expand, chain);
    BasicTexts(expand, chain, r);
    assert TextFields()[6] == SETUSER && TextFields()[7] == SETGROUP && TextFields()[8] == SMACK;
    SettledIsKept(expand, chain, TextFields()[6], r);
    SettledIsKept(expand, chain, TextFields()[7], r);
    SettledIsKept(expand, chain, TextFields()[8], r);
  }
}
