/** set_cgroups: the cgroups of a chain of rednodes are built from the root to the leaf, each with the
    controllers that it and its descendants need. */
module Cgroups {
  import opened Wrappers
  import opened Controllers
  import opened CgroupTree
  import opened CgroupControllers
  import opened MoveProcs

  const PIDS_LEAF := "redpak-pids-leaf"

  // ---- configured values ----

  datatype CpusetConf = CpusetConf(cpus: Option<string>, mems: Option<string>, partition: Option<string>)
  datatype CpuConf = CpuConf(weight: Option<string>, max: Option<string>)
  datatype MemConf = MemConf(min: Option<string>, max: Option<string>, high: Option<string>,
                             swapMax: Option<string>, swapHigh: Option<string>)
  datatype IoConf = IoConf(max: Option<string>, weight: Option<string>)
  datatype PidsConf = PidsConf(max: Option<string>)

  datatype CgroupConf = CgroupConf(cpuset: Option<CpusetConf>, cpu: Option<CpuConf>, mem: Option<MemConf>,
                                   io: Option<IoConf>, pids: Option<PidsConf>)

  /** What set_cgroups uses of a rednode: the name of its cgroup and its two configurations. */
  datatype CgNode = CgNode(name: string, config: Option<CgroupConf>, admin: Option<CgroupConf>)

  const NONE := CgroupConf(None, None, None, None, None)

  function Conf(c: Option<CgroupConf>): CgroupConf {
    if c.Some? then c.value else NONE
  }

  /** get_expected_controllers */
  method GetExpectedControllers(c: Option<CgroupConf>) returns (mask: set<Controller>)
    ensures mask == Expected(c) && mask <= {Cpuset, Cpu, Memory, Io, Pids}
    ensures Cpuset in mask <==> c.Some? && c.value.cpuset.Some?
    ensures Cpu in mask <==> c.Some? && c.value.cpu.Some?
    ensures Memory in mask <==> c.Some? && c.value.mem.Some?
    ensures Io in mask <==> c.Some? && c.value.io.Some?
    ensures Pids in mask <==> c.Some? && c.value.pids.Some?
  {
    mask := {};
    if c.Some? {
      if c.value.cpuset.Some? { mask := {Cpuset}; }
      if c.value.cpu.Some? { mask := mask + {Cpu}; }
      if c.value.mem.Some? { mask := mask + {Memory}; }
      if c.value.io.Some? { mask := mask + {Io}; }
      if c.value.pids.Some? { mask := mask + {Pids}; }
    }
  }

  predicate Configures(c: CgroupConf, x: Controller) {
    match x
    case Cpuset => c.cpuset.Some?
    case Cpu => c.cpu.Some?
    case Memory => c.mem.Some?
    case Io => c.io.Some?
    case Pids => c.pids.Some?
    case _ => false
  }

  function Expected(c: Option<CgroupConf>): set<Controller> {
    set x: Controller | Configures(Conf(c), x)
  }

  /** The controllers that a node needs for its own settings. */
  function Needs(node: CgNode): set<Controller> {
    Expected(node.config) + Expected(node.admin)
  }

  datatype Write = Write(entry: Entry, value: Option<string>)

  /** The settings of one configuration, in the order in which they are written. */
  function ConfWrites(c: CgroupConf): seq<Write> {
    var cpuset := if c.cpuset.Some? then c.cpuset.value else CpusetConf(None, None, None);
    var cpu := if c.cpu.Some? then c.cpu.value else CpuConf(None, None);
    var mem := if c.mem.Some? then c.mem.value else MemConf(None, None, None, None, None);
    var io := if c.io.Some? then c.io.value else IoConf(None, None);
    var pids := if c.pids.Some? then c.pids.value else PidsConf(None);
    [Write(CpusetCpus, cpuset.cpus), Write(CpusetMems, cpuset.mems), Write(CpusetCpusPartition, cpuset.partition),
     Write(CpuWeight, cpu.weight), Write(CpuMax, cpu.max),
     Write(MemoryMin, mem.min), Write(MemoryMax, mem.max), Write(MemoryHigh, mem.high),
     Write(MemorySwapMax, mem.swapMax), Write(MemorySwapHigh, mem.swapHigh),
     Write(IoMax, io.max), Write(IoWeight, io.weight),
     Write(PidsMax, pids.max)]
  }

  /** The settings of a node: those of its admin configuration hide those of its normal one. */
  function NodeWrites(node: CgNode): seq<Write> {
    var normal, admin := ConfWrites(Conf(node.config)), ConfWrites(Conf(node.admin));
    seq(|normal|, i requires 0 <= i < |normal| =>
          normal[i].(value := if admin[i].value.Some? then admin[i].value else normal[i].value))
  }

  lemma WritesAreExpected(c: Option<CgroupConf>, i: nat)
    requires i < |ConfWrites(Conf(c))| && ConfWrites(Conf(c))[i].value.Some?
    ensures ControllerOf(ConfWrites(Conf(c))[i].entry) in Expected(c)
  {
    assert Configures(Conf(c), ControllerOf(ConfWrites(Conf(c))[i].entry));
  }

  lemma WritesAreNeeded(node: CgNode, i: nat)
    requires i < |NodeWrites(node)| && NodeWrites(node)[i].value.Some?
    ensures ControllerOf(NodeWrites(node)[i].entry) in Needs(node)
  {
    if ConfWrites(Conf(node.admin))[i].value.Some? {
      WritesAreExpected(node.admin, i);
      assert ConfWrites(Conf(node.admin))[i].entry == NodeWrites(node)[i].entry;
    } else {
      WritesAreExpected(node.config, i);
    }
  }

  /** The settings after the first n writes. */
  function Applied(settings: map<Entry, string>, ws: seq<Write>, n: nat): map<Entry, string>
    requires n <= |ws|
  {
    if n == 0 then settings
    else
      var prior := Applied(settings, ws, n - 1);
      if ws[n - 1].value.Some? then prior[ws[n - 1].entry := ws[n - 1].value.value] else prior
  }

  lemma AppliedNext(settings: map<Entry, string>, ws: seq<Write>, i: nat)
    requires i < |ws|
    ensures Applied(settings, ws, i + 1) ==
            var prior := Applied(settings, ws, i);
            if ws[i].value.Some? then prior[ws[i].entry := ws[i].value.value] else prior
  {
  }

  /** Each value to write is in the cgroup. */
  ghost predicate HasWrites(settings: map<Entry, string>, ws: seq<Write>) {
    forall w | w in ws && w.value.Some? :: w.entry in settings && settings[w.entry] == w.value.value
  }

  /** The text that a configuration gives for a file. */
  function TextFor(conf: Option<CgroupConf>, file: Entry): Option<string> {
    var c := if conf.Some? then conf.value else NONE;
    match file
    case CpusetCpus => if c.cpuset.Some? then c.cpuset.value.cpus else None
    case CpusetMems => if c.cpuset.Some? then c.cpuset.value.mems else None
    case CpusetCpusPartition => if c.cpuset.Some? then c.cpuset.value.partition else None
    case CpuWeight => if c.cpu.Some? then c.cpu.value.weight else None
    case CpuMax => if c.cpu.Some? then c.cpu.value.max else None
    case MemoryMin => if c.mem.Some? then c.mem.value.min else None
    case MemoryMax => if c.mem.Some? then c.mem.value.max else None
    case MemoryHigh => if c.mem.Some? then c.mem.value.high else None
    case MemorySwapMax => if c.mem.Some? then c.mem.value.swapMax else None
    case MemorySwapHigh => if c.mem.Some? then c.mem.value.swapHigh else None
    case IoMax => if c.io.Some? then c.io.value.max else None
    case IoWeight => if c.io.Some? then c.io.value.weight else None
    case PidsMax => if c.pids.Some? then c.pids.value.max else None
  }

  /** Each file has the text given by the admin configuration of the node, else the one given by its normal one. */
  ghost predicate HasSettings(settings: map<Entry, string>, node: CgNode) {
    forall file: Entry ::
      match TextFor(node.admin, file)
      case Some(text) => file in settings && settings[file] == text
      case None => TextFor(node.config, file).Some? ==>
                     file in settings && settings[file] == TextFor(node.config, file).value
  }

  /** The place of a file in the list of writes. */
  function PlaceOf(file: Entry): nat {
    match file
    case CpusetCpus => 0
    case CpusetMems => 1
    case CpusetCpusPartition => 2
    case CpuWeight => 3
    case CpuMax => 4
    case MemoryMin => 5
    case MemoryMax => 6
    case MemoryHigh => 7
    case MemorySwapMax => 8
    case MemorySwapHigh => 9
    case IoMax => 10
    case IoWeight => 11
    case PidsMax => 12
  }

  lemma TextWritten(c: Option<CgroupConf>, file: Entry)
    ensures PlaceOf(file) < |ConfWrites(Conf(c))|
    ensures ConfWrites(Conf(c))[PlaceOf(file)] == Write(file, TextFor(c, file))
  {
  }

  /** The writes of a node give its settings. */
  lemma WritesAreSettings(settings: map<Entry, string>, node: CgNode)
    requires HasWrites(settings, NodeWrites(node))
    ensures HasSettings(settings, node)
  {
    forall file: Entry
      ensures match TextFor(node.admin, file)
              case Some(text) => file in settings && settings[file] == text
              case None => TextFor(node.config, file).Some? ==>
                             file in settings && settings[file] == TextFor(node.config, file).value
    {
      TextWritten(node.admin, file);
      TextWritten(node.config, file);
      assert NodeWrites(node)[PlaceOf(file)] in NodeWrites(node);
    }
  }

  /** The writes need these controllers, and are to distinct files. */
  ghost predicate Needed(ws: seq<Write>, needs: set<Controller>) {
    && (forall i | 0 <= i < |ws| && ws[i].value.Some? :: ControllerOf(ws[i].entry) in needs)
    && (forall a, b | 0 <= a < b < |ws| :: ws[a].entry != ws[b].entry)
  }

  lemma {:induction false} AppliedHas(settings: map<Entry, string>, ws: seq<Write>, n: nat, i: nat)
    requires i < n <= |ws| && ws[i].value.Some?
    requires forall a, b | 0 <= a < b < |ws| :: ws[a].entry != ws[b].entry
    ensures ws[i].entry in Applied(settings, ws, n) && Applied(settings, ws, n)[ws[i].entry] == ws[i].value.value
  {
    if i >= n - 1 {
    } else {
      AppliedHas(settings, ws, n - 1, i);
      assert ws[i].entry != ws[n - 1].entry;
    }
  }

  lemma AllAppliedHas(settings: map<Entry, string>, ws: seq<Write>, needs: set<Controller>)
    requires Needed(ws, needs)
    ensures HasWrites(Applied(settings, ws, |ws|), ws)
  {
    forall w | w in ws && w.value.Some?
      ensures w.entry in Applied(settings, ws, |ws|) && Applied(settings, ws, |ws|)[w.entry] == w.value.value
    {
      var i :| 0 <= i < |ws| && ws[i] == w;
      AppliedHas(settings, ws, |ws|, i);
    }
  }

  /** Every setting of a node belongs to a controller that the node needs. */
  lemma NodeWritesNeeded(node: CgNode)
    ensures Needed(NodeWrites(node), Needs(node))
  {
    EntriesDistinct(node);
    forall i | 0 <= i < |NodeWrites(node)| && NodeWrites(node)[i].value.Some?
      ensures ControllerOf(NodeWrites(node)[i].entry) in Needs(node)
    {
      WritesAreNeeded(node, i);
    }
  }

  lemma EntriesDistinct(node: CgNode)
    ensures forall a, b | 0 <= a < b < |NodeWrites(node)| :: NodeWrites(node)[a].entry != NodeWrites(node)[b].entry
  {
    var normal := ConfWrites(Conf(node.config));
    assert forall a, b | 0 <= a < b < |normal| :: normal[a].entry != normal[b].entry;
    assert forall a | 0 <= a < |normal| :: NodeWrites(node)[a].entry == normal[a].entry;
  }

  /** The tree with other settings for p. */
  function WithSettings(t: Tree, p: Path, settings: map<Entry, string>): Tree
    requires p in t
  {
    t[p := t[p].(settings := settings)]
  }

  lemma WithSettingsTwice(t: Tree, p: Path, a: map<Entry, string>, b: map<Entry, string>)
    requires p in t
    ensures WithSettings(WithSettings(t, p, a), p, b) == WithSettings(t, p, b)
    ensures WithSettings(t, p, t[p].settings) == t
  {
  }

  /** The i first writes have been made, but for those refused. */
  ghost predicate Wrote(t: Tree, now: Tree, p: Path, ws: seq<Write>, i: nat, nerr: int, settings: map<Entry, string>)
    requires p in t && i <= |ws|
  {
    now == WithSettings(t, p, settings) && (nerr == 0 ==> settings == Applied(t[p].settings, ws, i))
  }

  lemma WroteNothing(t: Tree, p: Path, ws: seq<Write>)
    requires p in t
    ensures Wrote(t, t, p, ws, 0, 0, t[p].settings)
  {
    WithSettingsTwice(t, p, t[p].settings, t[p].settings);
  }

  lemma WroteNext(t: Tree, now: Tree, p: Path, ws: seq<Write>, i: nat, nerr: int, rc: int, prior: map<Entry, string>,
                  settings: map<Entry, string>)
    requires p in t && i < |ws| && nerr <= 0 && rc <= 0
    requires Wrote(t, WithSettings(t, p, prior), p, ws, i, nerr, prior)
    requires now == WithSettings(WithSettings(t, p, prior), p, settings)
    requires rc == 0 ==> settings == if ws[i].value.Some? then prior[ws[i].entry := ws[i].value.value] else prior
    ensures Wrote(t, now, p, ws, i + 1, nerr + rc, settings)
  {
    WithSettingsTwice(t, p, prior, settings);
    AppliedNext(t[p].settings, ws, i);
  }

  /** set_cgroup_node_conf: no write fails for want of a controller. */
  method SetNodeConf(k: Kernel, p: Path, ws: seq<Write>, ghost needs: set<Controller>)
    returns (nerr: int, ghost settings: map<Entry, string>)
    requires k.Sound() && p in k.tree
    requires Needed(ws, needs) && needs <= Available(k.machine, k.tree, p)
    modifies k`clock, k`tree
    ensures k.Sound() && nerr <= 0 && old(k.clock) <= k.clock
    ensures k.tree == WithSettings(old(k.tree), p, settings)
    ensures nerr == 0 ==> HasWrites(settings, ws)
    ensures nerr < 0 ==> k.RefusedSince(old(k.clock))
  {
    ghost var t := k.tree;
    nerr, settings := 0, t[p].settings;
    WroteNothing(t, p, ws);
    for i := 0 to |ws|
      invariant k.Sound() && nerr <= 0 && old(k.clock) <= k.clock
      invariant Wrote(t, k.tree, p, ws, i, nerr, settings)
      invariant nerr < 0 ==> k.RefusedSince(old(k.clock))
      invariant Available(k.machine, k.tree, p) == Available(k.machine, t, p)
    {
      var rc;
      ghost var prior, was := settings, nerr;
      rc, settings := WriteOne(k, p, ws[i], needs);
      WroteNext(t, k.tree, p, ws, i, was, rc, prior, settings);
      nerr := nerr + rc;
    }
    AllAppliedHas(t[p].settings, ws, needs);
  }

  /** write_entry: nothing is written when the value is not set. */
  method WriteOne(k: Kernel, p: Path, w: Write, ghost needs: set<Controller>)
    returns (rc: int, ghost settings: map<Entry, string>)
    requires k.Sound() && p in k.tree
    requires needs <= Available(k.machine, k.tree, p) && (w.value.Some? ==> ControllerOf(w.entry) in needs)
    modifies k`clock, k`tree
    ensures k.Sound() && rc <= 0 && old(k.clock) <= k.clock
    ensures k.tree == WithSettings(old(k.tree), p, settings)
    ensures Available(k.machine, k.tree, p) == Available(k.machine, old(k.tree), p)
    ensures rc == 0 ==>
              var was := old(k.tree)[p].settings;
              settings == if w.value.Some? then was[w.entry := w.value.value] else was
    ensures rc < 0 ==> k.RefusedSince(old(k.clock))
  {
    rc := 0;
    if w.value.Some? {
      rc := k.WriteSetting(p, w.entry, w.value.value);
    }
    settings := k.tree[p].settings;
  }

  // ---- the walk ----

  /** The controllers needed by the i first nodes of the chain, the leaf being the first. */
  function Mask(chain: seq<CgNode>, i: nat): set<Controller>
    requires i <= |chain|
  {
    if i == 0 then {} else Mask(chain, i - 1) + Needs(chain[i - 1])
  }

  /** A controller is in the mask when a node among the i first ones configures it. */
  lemma {:induction false} MaskExact(chain: seq<CgNode>, i: nat, x: Controller)
    requires i <= |chain|
    ensures x in Mask(chain, i) <==>
              exists j | 0 <= j < i :: x in Expected(chain[j].config) || x in Expected(chain[j].admin)
  {
    if i == 0 {
    } else {
      MaskExact(chain, i - 1, x);
    }
  }

  /** The cgroup of node i; the one of the root for i == |chain|. */
  function PathAt(root: Path, chain: seq<CgNode>, i: nat): Path
    requires i <= |chain|
    decreases |chain| - i
  {
    if i == |chain| then root else PathAt(root, chain, i + 1) + [chain[i].name]
  }

  /** Cgroup of node i: it has a leaf for processes, the controllers needed by the node and by its
      descendants are available, those needed by its descendants are enabled, and it is set. */
  ghost predicate Prepared(m: Machine, t: Tree, root: Path, chain: seq<CgNode>, i: nat)
    requires i < |chain|
  {
    var p := PathAt(root, chain, i);
    && p in t && p + [PIDS_LEAF] in t
    && Mask(chain, i + 1) <= Available(m, t, p)
    && Mask(chain, i) + {Pids} <= t[p].subtree
    && HasSettings(t[p].settings, chain[i])
  }

  /** The cgroups that a walk may create or set. */
  ghost function Touched(root: Path, chain: seq<CgNode>, i: nat): set<Path>
    requires i <= |chain|
  {
    (set j | i <= j <= |chain| :: PathAt(root, chain, j)) +
      (set j | i <= j <= |chain| :: PathAt(root, chain, j) + [PIDS_LEAF])
  }

  ghost function Subtree(t: Tree, p: Path): set<Controller> {
    if p in t then t[p].subtree else {}
  }

  /** Nothing is removed nor disabled, only the given cgroups are created or set, and controllers are
      enabled only in the branch of the last one. */
  ghost predicate Extends(before: Tree, after: Tree, touched: set<Path>, last: Path) {
    && Grows(before, after)
    && after.Keys <= before.Keys + touched
    && (forall p | p in before && p !in touched :: after[p].settings == before[p].settings)
    && forall p | !OnBranch(p, last) :: Subtree(after, p) == Subtree(before, p)
  }

  lemma ExtendsTwice(a: Tree, b: Tree, c: Tree, ab: set<Path>, bc: set<Path>, p: Path, q: Path)
    requires Extends(a, b, ab, p) && Extends(b, c, bc, q) && OnBranch(p, q)
    ensures Extends(a, c, ab + bc, q)
  {
    forall r | !OnBranch(r, q) ensures Subtree(c, r) == Subtree(a, r) {
      assert !OnBranch(r, p);
      assert Subtree(c, r) == Subtree(b, r);
    }
  }

  lemma ExtendsMore(a: Tree, b: Tree, c: Tree, ab: set<Path>, bc: set<Path>, p: Path, q: Path)
    requires Extends(a, b, ab, p) && Extends(b, c, bc, q) && OnBranch(p, q) && bc <= ab
    ensures Extends(a, c, ab, q)
  {
    ExtendsTwice(a, b, c, ab, bc, p, q);
    assert ab + bc == ab;
  }

  lemma ExtendsWider(a: Tree, b: Tree, small: set<Path>, large: set<Path>, p: Path)
    requires Extends(a, b, small, p) && small <= large
    ensures Extends(a, b, large, p)
  {
  }

  /** The cgroup is added if it was missing. */
  ghost predicate Created(before: Tree, after: Tree, p: Path) {
    after == before || (p !in before && after == before[p := Cgroup({}, {}, map[])])
  }

  lemma SettingsExtend(t: Tree, p: Path, settings: map<Entry, string>)
    requires p in t
    ensures Extends(t, WithSettings(t, p, settings), {p}, p) && SameProcs(t, WithSettings(t, p, settings))
  {
  }

  lemma SameTwice(a: Tree, b: Tree, c: Tree)
    requires SameProcs(a, b) && SameProcs(b, c)
    ensures SameProcs(a, c)
  {
    forall p ensures Procs(c, p) == Procs(a, p) {
      assert Procs(b, p) == Procs(a, p);
    }
  }

  lemma SameAll(a: Tree, b: Tree)
    requires SameProcs(a, b)
    ensures AllProcs(b) == AllProcs(a)
  {
    forall x ensures x in AllProcs(a) <==> x in AllProcs(b) {
      if x in AllProcs(a) {
        var p :| p in a && x in a[p].procs;
        assert x in Procs(a, p) && Procs(a, p) == Procs(b, p);
      }
      if x in AllProcs(b) {
        var p :| p in b && x in b[p].procs;
        assert x in Procs(b, p) && Procs(b, p) == Procs(a, p);
      }
    }
  }

  /** The processes of the root may have gone to its leaf. */
  ghost predicate RootEmptied(before: Tree, after: Tree, root: Path) {
    Transferred(before, after, root, root + [PIDS_LEAF])
  }

  lemma SameTransferred(a: Tree, b: Tree, c: Tree, d: Tree, from: Path, to: Path)
    requires SameProcs(a, b) && SameProcs(c, d)
    ensures Transferred(b, c, from, to) ==> Transferred(a, d, from, to)
    ensures Gathered(b, c, to) ==> Gathered(a, d, to)
  {
    SameAll(a, b);
    SameAll(c, d);
    assert Procs(a, from) == Procs(b, from) && Procs(a, to) == Procs(b, to);
    assert Procs(c, from) == Procs(d, from) && Procs(c, to) == Procs(d, to);
    if Transferred(b, c, from, to) {
      forall p | p != from && p != to ensures Procs(d, p) == Procs(a, p) {
        assert Procs(d, p) == Procs(c, p) == Procs(b, p);
      }
    }
    if Gathered(b, c, to) {
      forall p | p != to ensures Procs(d, p) <= Procs(a, p) {
        assert Procs(d, p) == Procs(c, p) <= Procs(b, p) == Procs(a, p);
      }
    }
  }

  ghost predicate Emptied(before: Tree, after: Tree, root: Path) {
    RootEmptied(before, after, root) && Procs(after, root) == {}
  }

  /** No process is lost, and when the list of the root is read whole only its processes have moved, to its leaf. */
  ghost predicate RootMoves(before: Tree, after: Tree, root: Path, whole: bool, emptied: bool) {
    && Gathered(before, after, root + [PIDS_LEAF])
    && (whole ==> RootEmptied(before, after, root) && (emptied ==> Procs(after, root) == {}))
  }

  lemma RootMovesOn(a: Tree, b: Tree, c: Tree, root: Path, whole: bool, emptied: bool)
    requires RootMoves(a, b, root, whole, emptied) && SameProcs(b, c)
    ensures RootMoves(a, c, root, whole, emptied)
  {
    assert SameProcs(a, a);
    SameTransferred(a, a, b, c, root, root + [PIDS_LEAF]);
    assert Procs(c, root) == Procs(b, root);
  }

  lemma SameIsTransferred(a: Tree, b: Tree, from: Path, to: Path)
    requires SameProcs(a, b)
    ensures Transferred(a, b, from, to) && Gathered(a, b, to)
  {
    SameAll(a, b);
    assert Procs(b, from) == Procs(a, from) && Procs(b, to) == Procs(a, to);
  }

  /** A cgroup that is created, then processes that move. */
  lemma CreatedExtends(a: Tree, b: Tree, c: Tree, p: Path)
    requires Created(a, b, p) && SameShape(b, c)
    ensures Extends(a, c, {p}, []) && SameProcs(a, b)
    ensures forall q :: Subtree(c, q) == Subtree(a, q)
    ensures forall q | q in a :: c[q].settings == a[q].settings
  {
    forall q | q in a ensures q in b && b[q] == a[q] {
    }
    forall q ensures Subtree(c, q) == Subtree(a, q) && Procs(b, q) == Procs(a, q) {
      assert q in c <==> q in b;
    }
  }

  /** openCgroupAtDir: opens a cgroup, creating it if needed and asked. */
  method OpenCgroup(k: Kernel, p: Path, create: bool) returns (rc: int)
    requires k.Sound() && p != [] && Parent(p) in k.tree
    modifies k`clock, k`tree
    ensures k.Sound() && Created(old(k.tree), k.tree, p) && old(k.clock) <= k.clock
    ensures rc >= 0 ==> p in k.tree
    ensures rc < 0 && create ==> k.RefusedSince(old(k.clock))
  {
    rc := k.Open(p);
    if create && rc < 0 {
      rc := k.Mkdir(p);
      if rc >= 0 {
        rc := k.Open(p);
      }
    }
  }

  /** cgroup_t */
  class State {
    var final: set<Controller>
    var dir: Path

    constructor ()
      ensures final == {}
    {
      final, dir := {}, [];
    }
  }

  lemma EnabledExtends(t: Tree, p: Path, expected: set<Controller>, n: nat)
    ensures Extends(t, EnabledTo(t, p, expected, n), {}, p)
    ensures SameProcs(t, EnabledTo(t, p, expected, n))
    ensures forall q | q in t :: EnabledTo(t, p, expected, n)[q].settings == t[q].settings
  {
  }

  /** Creates the leaf of the root for its processes, and moves them there. */
  method MakeRootLeaf(k: Kernel, root: Path) returns (rc: int)
    requires k.Sound() && root in k.tree
    modifies k`clock, k`tree, k`readings
    ensures k.Sound() && Extends(old(k.tree), k.tree, {root + [PIDS_LEAF]}, []) && old(k.clock) <= k.clock
    ensures forall q :: Subtree(k.tree, q) == Subtree(old(k.tree), q)
    ensures RootMoves(old(k.tree), k.tree, root, old(WholeReads(k, Procs(k.tree, root))), rc >= 0)
    ensures rc >= 0 ==> root + [PIDS_LEAF] in k.tree
    ensures rc < 0 && old(WholeReads(k, Procs(k.tree, root))) && CanHold(k.machine, old(k.tree), root + [PIDS_LEAF]) ==>
              k.RefusedSince(old(k.clock))
  {
    var leaf := root + [PIDS_LEAF];
    assert Parent(leaf) == root;
    ghost var t := k.tree;
    rc := OpenCgroup(k, leaf, true);
    ghost var u := k.tree;
    CreatedExtends(t, u, u, leaf);
    SameIsTransferred(t, u, root, leaf);
    assert Procs(u, root) == Procs(t, root);
    if rc >= 0 {
      ghost var moves;
      rc, moves := MoveAll(k, root, leaf);
      SameTransferred(t, u, k.tree, k.tree, root, leaf);
    }
    CreatedExtends(t, u, k.tree, leaf);
  }

  /** Creates the leaf of the cgroup of a node. */
  method MakeLeaf(k: Kernel, p: Path) returns (rc: int)
    requires k.Sound() && p in k.tree
    modifies k`clock, k`tree
    ensures k.Sound() && Extends(old(k.tree), k.tree, {p + [PIDS_LEAF]}, []) && SameProcs(old(k.tree), k.tree)
    ensures rc >= 0 ==> p + [PIDS_LEAF] in k.tree
    ensures old(k.clock) <= k.clock && (rc < 0 ==> k.RefusedSince(old(k.clock)))
  {
    var leaf := p + [PIDS_LEAF];
    assert Parent(leaf) == p;
    ghost var t := k.tree;
    rc := k.Mkdir(leaf);
    CreatedExtends(t, k.tree, k.tree, leaf);
  }

  /** ensure_required_controllers, as a step of the walk. */
  method Ensure(k: Kernel, p: Path, expected: set<Controller>) returns (rc: int)
    requires k.Sound() && p in k.tree
    modifies k`clock, k`tree, k`enabled
    ensures k.Sound() && Extends(old(k.tree), k.tree, {}, p) && old(k.clock) <= k.clock
    ensures k.tree.Keys == old(k.tree).Keys && k.tree[p].settings == old(k.tree)[p].settings
    ensures SameProcs(old(k.tree), k.tree)
    ensures rc >= 0 ==> expected <= k.tree[p].subtree
    ensures rc < 0 && Enableable(k.machine, old(k.tree), p, expected) ==> k.RefusedSince(old(k.clock))
  {
    ghost var t := k.tree;
    rc := EnsureRequired(k, p, expected);
    if rc < 0 {
      ghost var n: nat :| n <= |p| && k.tree == EnabledTo(t, p, expected, n);
      EnabledExtends(t, p, expected, n);
    } else {
      assert OnBranch(p, p);
      EnabledExtends(t, p, expected, |p| + 1);
    }
  }

  /** The root exists, its processes are listed whole and can go to its leaf, and what is expected can be
      enabled above it. */
  ghost predicate RootReady(k: Kernel, root: Path, expected: set<Controller>)
    reads k
  {
    && root in k.tree && WholeReads(k, Procs(k.tree, root)) && CanHold(k.machine, k.tree, root + [PIDS_LEAF])
    && EnableableAbove(k.machine, k.tree, root, expected)
  }

  /** What can be enabled above the root can be enabled in it once it is emptied. */
  lemma EmptiedEnables(m: Machine, before: Tree, after: Tree, root: Path, expected: set<Controller>)
    requires Valid(m, after) && root in before && root in after && EnableableAbove(m, before, root, expected)
    requires Grows(before, after) && (forall q :: Subtree(after, q) == Subtree(before, q))
    requires Emptied(before, after, root)
    ensures Enableable(m, after, root, expected)
  {
    forall q | OnBranch(q, root) && q != root
      ensures q in after && NoInternal(m, q, expected - after[q].subtree, after[q].procs)
    {
      assert Procs(after, q) == Procs(before, q) && Subtree(after, q) == Subtree(before, q);
    }
    LackIsEnough(m, after, root, expected);
  }

  /** prepare_root_cgroup */
  method PrepareRoot(k: Kernel, st: State, root: Path, childmask: set<Controller>) returns (rc: int)
    requires k.Sound()
    modifies k, st
    ensures k.Sound() && st.final == childmask && old(k.clock) <= k.clock
    ensures Extends(old(k.tree), k.tree, {root + [PIDS_LEAF]}, root)
    ensures RootMoves(old(k.tree), k.tree, root, old(WholeReads(k, Procs(k.tree, root))), rc >= 0 && childmask != {})
    ensures childmask == {} ==> rc == 0 && k.tree == old(k.tree)
    ensures rc >= 0 && childmask != {} ==>
              && root in old(k.tree)
              && st.dir == root && root in k.tree && root + [PIDS_LEAF] in k.tree
              && childmask + {Pids} <= k.tree[root].subtree
    ensures rc < 0 && old(RootReady(k, root, childmask + {Pids})) ==> k.RefusedSince(old(k.clock))
  {
    st.final := childmask;
    ghost var before := k.tree;
    SameIsTransferred(before, before, root, root + [PIDS_LEAF]);
    if childmask == {} {
      return 0;
    }
    rc := k.Open(root);
    if rc < 0 {
      return;
    }
    st.dir := root;
    rc := MakeRootLeaf(k, root);
    assert Extends(before, k.tree, {root + [PIDS_LEAF]}, root);
    if rc < 0 {
      return;
    }
    rc := EnableRoot(k, root, childmask + {Pids}, before);
  }

  /** Enables controllers in the root, from which processes have gone. */
  method EnableRoot(k: Kernel, root: Path, expected: set<Controller>, ghost before: Tree) returns (rc: int)
    requires k.Sound() && root in before && root in k.tree && root + [PIDS_LEAF] in k.tree
    requires Extends(before, k.tree, {root + [PIDS_LEAF]}, root) && forall q :: Subtree(k.tree, q) == Subtree(before, q)
    modifies k`clock, k`tree, k`enabled
    ensures k.Sound() && Extends(before, k.tree, {root + [PIDS_LEAF]}, root) && old(k.clock) <= k.clock
    ensures root in k.tree && root + [PIDS_LEAF] in k.tree && SameProcs(old(k.tree), k.tree)
    ensures rc >= 0 ==> expected <= k.tree[root].subtree
    ensures rc < 0 && Emptied(before, old(k.tree), root) && EnableableAbove(k.machine, before, root, expected) ==>
              k.RefusedSince(old(k.clock))
    ensures forall whole | RootMoves(before, old(k.tree), root, whole, true) ::
              RootMoves(before, k.tree, root, whole, true)
  {
    ghost var t := k.tree;
    if Emptied(before, t, root) && EnableableAbove(k.machine, before, root, expected) {
      EmptiedEnables(k.machine, before, t, root, expected);
    }
    rc := Ensure(k, root, expected);
    ExtendsMore(before, t, k.tree, {root + [PIDS_LEAF]}, {}, root, root);
    forall whole | RootMoves(before, t, root, whole, true) ensures RootMoves(before, k.tree, root, whole, true) {
      RootMovesOn(before, t, k.tree, root, whole, true);
    }
  }

  /** The first part of prepare_middle_cgroup: the cgroup and its leaf. */
  method MakeCgroup(k: Kernel, st: State, p: Path) returns (rc: int)
    requires k.Sound() && p != [] && Parent(p) in k.tree
    modifies k`clock, k`tree, st
    ensures k.Sound() && st.final == old(st.final) && old(k.clock) <= k.clock
    ensures Extends(old(k.tree), k.tree, {p, p + [PIDS_LEAF]}, []) && SameProcs(old(k.tree), k.tree)
    ensures rc >= 0 ==> st.dir == p && p in k.tree && p + [PIDS_LEAF] in k.tree
    ensures rc < 0 ==> k.RefusedSince(old(k.clock))
  {
    ghost var t0 := k.tree;
    rc := OpenCgroup(k, p, true);
    ghost var t1 := k.tree;
    CreatedExtends(t0, t1, t1, p);
    if rc < 0 {
      return;
    }
    st.dir := p;
    rc := MakeLeaf(k, p);
    ExtendsTwice(t0, t1, k.tree, {p}, {p + [PIDS_LEAF]}, [], []);
    SameTwice(t0, t1, k.tree);
  }

  /** The second part: its settings, then the controllers for its children. */
  method SetCgroup(k: Kernel, p: Path, ws: seq<Write>, ghost needs: set<Controller>, childmask: set<Controller>)
    returns (rc: int)
    requires k.Sound() && p in k.tree
    requires Needed(ws, needs) && needs <= Available(k.machine, k.tree, p)
    modifies k`clock, k`tree, k`enabled
    ensures k.Sound() && old(k.clock) <= k.clock
    ensures Extends(old(k.tree), k.tree, {p}, p) && k.tree.Keys == old(k.tree).Keys && SameProcs(old(k.tree), k.tree)
    ensures rc >= 0 ==> childmask + {Pids} <= k.tree[p].subtree && HasWrites(k.tree[p].settings, ws)
    ensures rc < 0 && Enableable(k.machine, old(k.tree), p, childmask + {Pids}) ==> k.RefusedSince(old(k.clock))
  {
    ghost var t := k.tree;
    ghost var settings;
    rc, settings := SetNodeConf(k, p, ws, needs);
    SettingsExtend(t, p, settings);
    if rc < 0 {
      return;
    }
    ghost var u := k.tree;
    if Enableable(k.machine, t, p, childmask + {Pids}) {
      SettingsEnable(k.machine, t, p, settings, childmask + {Pids});
    }
    rc := Ensure(k, p, childmask + {Pids});
    ExtendsMore(t, u, k.tree, {p}, {}, p, p);
    SameTwice(t, u, k.tree);
  }

  lemma SettingsEnable(m: Machine, t: Tree, p: Path, settings: map<Entry, string>, expected: set<Controller>)
    requires p in t && Enableable(m, t, p, expected)
    ensures Enableable(m, WithSettings(t, p, settings), p, expected)
  {
  }

  /** Below a cgroup that enables them, controllers can be enabled in a cgroup without process. */
  lemma EmptyEnables(m: Machine, t: Tree, p: Path, expected: set<Controller>)
    requires Valid(m, t) && p in t && t[p].procs == {} && expected <= Available(m, t, p)
    ensures Enableable(m, t, p, expected)
  {
    AboveHasAll(m, t, p, expected);
    LackIsEnough(m, t, p, expected);
  }

  /** prepare_middle_cgroup, for a node of that name and settings */
  method PrepareMiddle(k: Kernel, st: State, name: string, ws: seq<Write>, ghost needs: set<Controller>,
                       childmask: set<Controller>)
    returns (rc: int)
    requires k.Sound() && Needed(ws, needs)
    requires st.final != {} ==> st.dir in k.tree && needs + childmask + {Pids} <= k.tree[st.dir].subtree
    modifies k`clock, k`tree, k`enabled, st
    ensures k.Sound() && st.final == old(st.final) && old(k.clock) <= k.clock
    ensures st.final == {} ==> rc == 0 && k.tree == old(k.tree)
    ensures SameProcs(old(k.tree), k.tree)
    ensures var p := old(st.dir) + [name];
            && Extends(old(k.tree), k.tree, {p, p + [PIDS_LEAF]}, p)
            && (rc >= 0 && st.final != {} ==>
                  && st.dir == p && p in k.tree && p + [PIDS_LEAF] in k.tree
                  && childmask + {Pids} <= k.tree[p].subtree
                  && HasWrites(k.tree[p].settings, ws))
    ensures rc < 0 && Procs(old(k.tree), old(st.dir) + [name]) == {} ==> k.RefusedSince(old(k.clock))
  {
    if st.final == {} {
      return 0;
    }
    ghost var t := k.tree;
    var p := st.dir + [name];
    assert Parent(p) == st.dir;
    rc := MakeCgroup(k, st, p);
    assert Extends(t, k.tree, {p, p + [PIDS_LEAF]}, p);
    if rc < 0 {
      return;
    }
    ghost var u := k.tree;
    AvailableGrows(k.machine, t, u, p);
    assert Procs(u, p) == Procs(t, p);
    if Procs(t, p) == {} {
      EmptyEnables(k.machine, u, p, childmask + {Pids});
    }
    rc := SetCgroup(k, p, ws, needs, childmask);
    ExtendsMore(t, u, k.tree, {p, p + [PIDS_LEAF]}, {p}, p, p);
    SameTwice(t, u, k.tree);
  }

  // ---- the whole chain ----

  lemma {:induction false} PathLength(root: Path, chain: seq<CgNode>, i: nat)
    requires i <= |chain|
    ensures |PathAt(root, chain, i)| == |root| + |chain| - i
    ensures i < |chain| ==> Parent(PathAt(root, chain, i)) == PathAt(root, chain, i + 1)
    decreases |chain| - i
  {
    if i >= |chain| {
    } else {
      PathLength(root, chain, i + 1);
    }
  }

  /** The cgroup of a node is set by no later step of the walk. */
  lemma NotTouched(root: Path, chain: seq<CgNode>, i: nat, j: nat)
    requires i < j <= |chain|
    ensures var p := PathAt(root, chain, i);
            PathAt(root, chain, j) != p && PathAt(root, chain, j) != p + [PIDS_LEAF]
  {
    PathLength(root, chain, i);
    PathLength(root, chain, j);
  }

  lemma PreparedStays(m: Machine, before: Tree, after: Tree, touched: set<Path>, last: Path, root: Path,
                      chain: seq<CgNode>, j: nat)
    requires j < |chain| && Prepared(m, before, root, chain, j)
    requires Extends(before, after, touched, last) && PathAt(root, chain, j) !in touched
    ensures Prepared(m, after, root, chain, j)
  {
    AvailableGrows(m, before, after, PathAt(root, chain, j));
  }

  /** Every node from i to the root is prepared, and the directory is the cgroup of node i, in which
      the controllers needed below are enabled. */
  ghost predicate Built(m: Machine, t: Tree, dir: Path, root: Path, chain: seq<CgNode>, i: nat)
    requires i <= |chain|
  {
    && dir == PathAt(root, chain, i) && dir in t
    && root + [PIDS_LEAF] in t
    && Mask(chain, i) + {Pids} <= t[dir].subtree
    && forall j | i <= j < |chain| :: Prepared(m, t, root, chain, j)
  }

  /** One node more. */
  lemma BuiltGrows(m: Machine, before: Tree, after: Tree, root: Path, chain: seq<CgNode>, i: nat)
    requires i < |chain|
    requires Built(m, before, PathAt(root, chain, i + 1), root, chain, i + 1)
    requires var p := PathAt(root, chain, i);
             && Extends(before, after, {p, p + [PIDS_LEAF]}, p)
             && p in after && p + [PIDS_LEAF] in after
             && Mask(chain, i) + {Pids} <= after[p].subtree
             && HasWrites(after[p].settings, NodeWrites(chain[i]))
    ensures Built(m, after, PathAt(root, chain, i), root, chain, i)
  {
    var p := PathAt(root, chain, i);
    WritesAreSettings(after[p].settings, chain[i]);
    PathLength(root, chain, i);
    forall j | i <= j < |chain|
      ensures Prepared(m, after, root, chain, j)
    {
      if j > i {
        NotTouched(root, chain, i, j);
        PreparedStays(m, before, after, {p, p + [PIDS_LEAF]}, p, root, chain, j);
      } else {
        assert Mask(chain, i + 1) <= before[Parent(p)].subtree <= after[Parent(p)].subtree;
      }
    }
  }

  /** The root is ready, the cgroups that already exist for the nodes from i hold no process, and no
      node is named as a leaf. */
  ghost predicate Ready(k: Kernel, root: Path, chain: seq<CgNode>, i: nat)
    requires i <= |chain|
    reads k
  {
    && RootReady(k, root, Mask(chain, |chain|) + {Pids})
    && (forall j | i <= j < |chain| :: Procs(k.tree, PathAt(root, chain, j)) == {})
    && forall j | i <= j < |chain| :: chain[j].name != PIDS_LEAF
  }

  /** What is prepared above a node leaves no process in the cgroup of the node. */
  lemma StaysEmpty(before: Tree, after: Tree, root: Path, chain: seq<CgNode>, i: nat)
    requires i < |chain| && RootEmptied(before, after, root) && Procs(before, PathAt(root, chain, i)) == {}
    requires chain[i].name != PIDS_LEAF
    ensures Procs(after, PathAt(root, chain, i)) == {}
  {
    PathLength(root, chain, i);
    var p := PathAt(root, chain, i);
    assert p[|p| - 1] == chain[i].name;
    assert p != root + [PIDS_LEAF] && p != root;
  }

  /** prepare_cgroups: down to the root with the controllers needed so far, then up again. */
  method PrepareCgroups(k: Kernel, st: State, root: Path, chain: seq<CgNode>, i: nat, childmask: set<Controller>)
    returns (rc: int)
    requires k.Sound() && i <= |chain| && childmask == Mask(chain, i)
    modifies k, st
    ensures k.Sound() && old(k.clock) <= k.clock
    ensures rc >= 0 ==> st.final == Mask(chain, |chain|)
    ensures Mask(chain, |chain|) == {} ==> rc == 0 && k.tree == old(k.tree)
    ensures Extends(old(k.tree), k.tree, Touched(root, chain, i), PathAt(root, chain, i))
    ensures RootMoves(old(k.tree), k.tree, root, old(WholeReads(k, Procs(k.tree, root))), rc >= 0 && st.final != {})
    ensures rc >= 0 && st.final != {} ==> root in old(k.tree) && Built(k.machine, k.tree, st.dir, root, chain, i)
    ensures rc < 0 && old(Ready(k, root, chain, i)) ==> k.RefusedSince(old(k.clock))
    decreases |chain| - i, 1
  {
    if i == |chain| {
      ghost var t := k.tree;
      rc := PrepareRoot(k, st, root, childmask);
      assert PathAt(root, chain, i) == root;
      assert {root + [PIDS_LEAF]} <= Touched(root, chain, i);
      ExtendsWider(t, k.tree, {root + [PIDS_LEAF]}, Touched(root, chain, i), root);
      return;
    }
    var mask := childmask;
    var own := GetExpectedControllers(chain[i].config);
    mask := mask + own;
    own := GetExpectedControllers(chain[i].admin);
    mask := mask + own;
    assert mask == Mask(chain, i + 1);
    ghost var t, whole := k.tree, WholeReads(k, Procs(k.tree, root));
    rc := PrepareAbove(k, st, root, chain, i, mask);
    if rc >= 0 {
      ghost var u := k.tree;
      rc := PrepareNode(k, st, root, chain, i, childmask, t);
      RootMovesOn(t, u, k.tree, root, whole, st.final != {});
    }
  }

  /** The parents of a node are prepared. */
  method PrepareAbove(k: Kernel, st: State, root: Path, chain: seq<CgNode>, i: nat, mask: set<Controller>)
    returns (rc: int)
    requires k.Sound() && i < |chain| && mask == Mask(chain, i + 1)
    modifies k, st
    ensures k.Sound() && old(k.clock) <= k.clock
    ensures rc >= 0 ==> st.final == Mask(chain, |chain|)
    ensures Mask(chain, |chain|) == {} ==> rc == 0 && k.tree == old(k.tree)
    ensures Extends(old(k.tree), k.tree, Touched(root, chain, i), PathAt(root, chain, i))
    ensures RootMoves(old(k.tree), k.tree, root, old(WholeReads(k, Procs(k.tree, root))), rc >= 0 && st.final != {})
    ensures rc >= 0 && st.final != {} ==> root in old(k.tree) && Built(k.machine, k.tree, st.dir, root, chain, i + 1)
    ensures rc < 0 && old(Ready(k, root, chain, i)) ==> k.RefusedSince(old(k.clock))
    ensures rc >= 0 && old(Ready(k, root, chain, i)) ==> Procs(k.tree, PathAt(root, chain, i)) == {}
    decreases |chain| - i, 0
  {
    ghost var t, ready := k.tree, Ready(k, root, chain, i);
    rc := PrepareCgroups(k, st, root, chain, i + 1, mask);
    TouchedGrows(root, chain, i);
    ExtendsWider(t, k.tree, Touched(root, chain, i + 1), Touched(root, chain, i), PathAt(root, chain, i + 1));
    ExtendsDeeper(t, k.tree, Touched(root, chain, i), root, chain, i);
    if ready {
      StaysEmpty(t, k.tree, root, chain, i);
    }
  }

  /** The cgroup of a node is prepared after those of its parents; t is the tree before them. */
  method PrepareNode(k: Kernel, st: State, root: Path, chain: seq<CgNode>, i: nat, childmask: set<Controller>,
                     ghost t: Tree)
    returns (rc: int)
    requires k.Sound() && i < |chain| && childmask == Mask(chain, i) && st.final == Mask(chain, |chain|)
    requires Extends(t, k.tree, Touched(root, chain, i), PathAt(root, chain, i))
    requires st.final != {} ==> Built(k.machine, k.tree, st.dir, root, chain, i + 1)
    modifies k`clock, k`tree, k`enabled, st
    ensures k.Sound() && old(k.clock) <= k.clock && st.final == old(st.final)
    ensures st.final == {} ==> rc == 0 && k.tree == old(k.tree)
    ensures Extends(t, k.tree, Touched(root, chain, i), PathAt(root, chain, i))
    ensures rc >= 0 && st.final != {} ==> Built(k.machine, k.tree, st.dir, root, chain, i)
    ensures rc < 0 && Procs(old(k.tree), PathAt(root, chain, i)) == {} ==> k.RefusedSince(old(k.clock))
    ensures SameProcs(old(k.tree), k.tree)
  {
    ghost var u, p := k.tree, PathAt(root, chain, i);
    NodeWritesNeeded(chain[i]);
    assert Needs(chain[i]) + childmask + {Pids} == Mask(chain, i + 1) + {Pids};
    rc := PrepareMiddle(k, st, chain[i].name, NodeWrites(chain[i]), Needs(chain[i]), childmask);
    if st.final != {} {
      TouchedGrows(root, chain, i);
      ExtendsMore(t, u, k.tree, Touched(root, chain, i), {p, p + [PIDS_LEAF]}, p, p);
      if rc >= 0 {
        BuiltGrows(k.machine, u, k.tree, root, chain, i);
      }
    }
  }

  lemma ExtendsDeeper(a: Tree, b: Tree, touched: set<Path>, root: Path, chain: seq<CgNode>, i: nat)
    requires i < |chain| && Extends(a, b, touched, PathAt(root, chain, i + 1))
    ensures Extends(a, b, touched, PathAt(root, chain, i))
  {
  }

  lemma TouchedGrows(root: Path, chain: seq<CgNode>, i: nat)
    requires i < |chain|
    ensures var p := PathAt(root, chain, i);
            Touched(root, chain, i + 1) + {p, p + [PIDS_LEAF]} <= Touched(root, chain, i)
  {
  }
}
