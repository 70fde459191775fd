/** The cgroup hierarchy, with the rules of the "Top-down Constraint" and "No Internal Process
    Constraint" sections of the Linux kernel document "Control Group v2". */
module CgroupTree {
  import opened Wrappers
  import opened Controllers
  import opened ControllerText
  import opened ProcsText

  /** The setting files of a cgroup that red-wrap writes. */
  datatype Entry =
    | CpusetCpus | CpusetMems | CpusetCpusPartition
    | CpuWeight | CpuMax
    | MemoryMin | MemoryMax | MemoryHigh | MemorySwapMax | MemorySwapHigh
    | IoMax | IoWeight
    | PidsMax

  /** The controller to which a setting file belongs. */
  function ControllerOf(e: Entry): Controller {
    match e
    case CpusetCpus => Cpuset
    case CpusetMems => Cpuset
    case CpusetCpusPartition => Cpuset
    case CpuWeight => Cpu
    case CpuMax => Cpu
    case IoMax => Io
    case IoWeight => Io
    case PidsMax => Pids
    case _ => Memory
  }

  /** Names from the mounting point. */
  type Path = seq<string>

  datatype Cgroup = Cgroup(subtree: set<Controller>, procs: set<nat>, settings: map<Entry, string>)

  type Tree = map<Path, Cgroup>

  function Parent(p: Path): Path
    requires p != []
  {
    p[..|p| - 1]
  }

  /** The controllers of the root, and those to which the rule on internal processes applies. */
  datatype Machine = Machine(all: set<Controller>, domain: set<Controller>)

  /** The content of cgroup.controllers: what the parent enables. */
  function Available(m: Machine, t: Tree, p: Path): set<Controller> {
    if p == [] then m.all
    else if Parent(p) in t then t[Parent(p)].subtree
    else {}
  }

  /** A non-root cgroup with processes enables no domain controller in its subtree. */
  predicate NoInternal(m: Machine, p: Path, subtree: set<Controller>, procs: set<nat>) {
    p == [] || subtree * m.domain == {} || procs == {}
  }

  ghost predicate Valid(m: Machine, t: Tree) {
    && [] in t
    && (forall p | p in t && p != [] :: Parent(p) in t)
    && (forall p | p in t :: t[p].subtree <= Available(m, t, p))
    && (forall p | p in t :: NoInternal(m, p, t[p].subtree, t[p].procs))
  }

  /** A process is in one cgroup. */
  ghost predicate OnePlace(t: Tree) {
    forall p, q | p in t && q in t && p != q :: t[p].procs !! t[q].procs
  }

  /** Processes can be put in the cgroup. */
  predicate CanHold(m: Machine, t: Tree, p: Path) {
    p == [] || p !in t || t[p].subtree * m.domain == {}
  }

  /** Nothing is removed and no controller is disabled. */
  ghost predicate Grows(before: Tree, after: Tree) {
    forall p | p in before :: p in after && before[p].subtree <= after[p].subtree
  }

  lemma AvailableGrows(m: Machine, before: Tree, after: Tree, p: Path)
    requires Grows(before, after)
    ensures Available(m, before, p) <= Available(m, after, p)
  {
  }

  /** What is enabled below an ancestor is enabled in all that is above. */
  lemma {:induction false} TopDown(m: Machine, t: Tree, p: Path, k: nat)
    requires Valid(m, t) && p in t && k <= |p|
    ensures p[..k] in t && t[p].subtree <= t[p[..k]].subtree
    decreases |p|
  {
    if k == |p| {
      assert p[..k] == p;
    } else {
      TopDown(m, t, Parent(p), k);
      assert Parent(p)[..k] == p[..k];
    }
  }

  // ---- the system calls ----

  /** The processes of a cgroup, in some order. */
  ghost predicate Lists(pids: seq<nat>, procs: set<nat>) {
    (forall x :: x in pids <==> x in procs) && forall i, j | 0 <= i < j < |pids| :: pids[i] != pids[j]
  }

  ghost predicate SoundTree(m: Machine, t: Tree) {
    Valid(m, t) && OnePlace(t)
  }

  /** The decimal text of a number stands for it. */
  ghost predicate ParsesDigits(parses: string -> Option<nat>) {
    forall n: nat :: parses(Digits(n)) == Some(n)
  }

  function AllProcs(t: Tree): set<nat> {
    set p, x | p in t && x in t[p].procs :: x
  }

  /** The kernel may refuse any call for reasons of its own: refuses(n) for the n-th one. The i-th read of
      processes returns asks(i) characters when there are that many and room for them; parses is what a
      text written to cgroup.procs stands for, and shows is how controllers are shown. */
  class Kernel {
    const machine: Machine
    const refuses: nat -> bool
    const asks: nat -> nat
    const parses: string -> Option<nat>
    const shows: set<Controller> -> string
    var tree: Tree
    /** numbers of calls and of reads of processes */
    var clock: nat
    var readings: nat
    /** successful writes to cgroup.subtree_control */
    var enabled: seq<(Path, set<Controller>)>

    constructor (machine: Machine, refuses: nat -> bool, asks: nat -> nat, parses: string -> Option<nat>,
                 shows: set<Controller> -> string, tree: Tree)
      ensures this.machine == machine && this.refuses == refuses && this.asks == asks && this.parses == parses
      ensures this.shows == shows && this.tree == tree && enabled == []
    {
      this.machine, this.refuses, this.asks, this.parses, this.shows := machine, refuses, asks, parses, shows;
      this.tree := tree;
      clock, readings, enabled := 0, 0, [];
    }

    ghost predicate Sound()
      reads this
    {
      SoundTree(machine, tree) && ParsesDigits(parses) && ShowsNames(shows)
    }

    /** A call has been refused since the clock was c. */
    ghost predicate RefusedSince(c: nat)
      reads this
    {
      exists n | c <= n < clock :: refuses(n)
    }

    method Refused() returns (r: bool)
      modifies this`clock
      ensures clock == old(clock) + 1 && (r ==> RefusedSince(old(clock)))
    {
      r := refuses(clock);
      clock := clock + 1;
    }

    /** Opens and reads cgroup.controllers. */
    method ReadControllers(p: Path, buffer: array<char>) returns (sz: int)
      requires Sound() && buffer.Length == MAX_CTRL_SIZE
      modifies this`clock, buffer
      ensures clock == old(clock) + 1 && -1 <= sz <= buffer.Length
      ensures sz >= 0 ==> p in tree && buffer[..sz] == shows(Available(machine, tree, p))
      ensures sz < 0 && p in tree ==> RefusedSince(old(clock))
    {
      var refused := Refused();
      if refused || p !in tree {
        return -1;
      }
      var text := shows(Available(machine, tree, p));
      forall i | 0 <= i < |text| { buffer[i] := text[i]; }
      assert buffer[..|text|] == text;
      return |text|;
    }

    /** Writes cgroup.subtree_control: each word asks for a controller. */
    method EnableSubtree(p: Path, text: string) returns (rc: int)
      requires Sound() && p in tree
      modifies this`clock, this`tree, this`enabled
      ensures Sound() && clock == old(clock) + 1
      ensures var mask := Requested(Words(text));
              if rc == 0 then
                && AllAsked(Words(text)) && mask <= Available(machine, old(tree), p)
                && NoInternal(machine, p, mask, old(tree)[p].procs)
                && tree == old(tree)[p := old(tree)[p].(subtree := old(tree)[p].subtree + mask)]
                && enabled == old(enabled) + [(p, mask)]
              else rc == -1 && tree == old(tree) && enabled == old(enabled)
      ensures var mask := Requested(Words(text));
              rc < 0 && AllAsked(Words(text)) && mask <= Available(machine, tree, p)
              && NoInternal(machine, p, mask, tree[p].procs) ==>
                RefusedSince(old(clock))
    {
      var refused := Refused();
      var mask := Requested(Words(text));
      if refused || !AllAsked(Words(text)) || !(mask <= Available(machine, tree, p)) {
        return -1;
      }
      if !NoInternal(machine, p, mask, tree[p].procs) {
        return -1;
      }
      EnableKeepsValid(machine, tree, p, mask);
      tree := tree[p := tree[p].(subtree := tree[p].subtree + mask)];
      enabled := enabled + [(p, mask)];
      return 0;
    }

    /** mkdir: 1 when the cgroup is created, 0 when it exists. */
    method Mkdir(p: Path) returns (rc: int)
      requires Sound() && p != [] && Parent(p) in tree
      modifies this`clock, this`tree
      ensures Sound() && clock == old(clock) + 1
      ensures rc >= 0 ==> rc == (if p in old(tree) then 0 else 1)
      ensures tree == if rc > 0 then old(tree)[p := Cgroup({}, {}, map[])] else old(tree)
      ensures rc >= 0 ==> p in tree
      ensures rc < 0 ==> RefusedSince(old(clock))
    {
      var refused := Refused();
      if p in tree {
        return 0;
      }
      if refused {
        return -1;
      }
      tree := tree[p := Cgroup({}, {}, map[])];
      return 1;
    }

    method Open(p: Path) returns (rc: int)
      modifies this`clock
      ensures clock == old(clock) + 1
      ensures rc >= 0 ==> p in tree
      ensures rc < 0 && p in tree ==> RefusedSince(old(clock))
    {
      var refused := Refused();
      rc := if refused || p !in tree then -1 else 0;
    }

    /** Opens cgroup.procs, of which the text is the list of the processes then. */
    method ListProcs(p: Path) returns (rc: int, text: string, ghost pids: seq<nat>)
      requires p in tree
      modifies this`clock
      ensures clock == old(clock) + 1 && (rc == 0 || rc == -1)
      ensures Lists(pids, tree[p].procs) && text == Listing(Numbers(pids))
      ensures rc < 0 ==> RefusedSince(old(clock))
    {
      var refused := Refused();
      var left, order: seq<nat> := tree[p].procs, [];
      while left != {}
        invariant left <= tree[p].procs && Lists(order, tree[p].procs - left)
        decreases left
      {
        var x :| x in left;
        left, order := left - {x}, order + [x];
      }
      rc, text, pids := if refused then -1 else 0, Listing(Numbers(order)), order;
    }

    /** Reads some characters of the left ones. */
    method ReadSome(room: nat, left: nat) returns (n: int)
      modifies this`clock, this`readings
      ensures clock == old(clock) + 1 && readings == old(readings) + 1
      ensures n == -1 || n == ReadSize(room, left, asks(old(readings)))
      ensures n < 0 ==> RefusedSince(old(clock))
    {
      var refused := Refused();
      n := if refused then -1 else ReadSize(room, left, asks(readings));
      readings := readings + 1;
    }

    /** Writes cgroup.procs: the process leaves its cgroup. */
    method WriteProcs(p: Path, text: string) returns (rc: int)
      requires Sound() && p in tree
      modifies this`clock, this`tree
      ensures Sound() && clock == old(clock) + 1
      ensures if rc == 0 then
                parses(text).Some? && parses(text).value in AllProcs(old(tree))
                && tree == Moved(old(tree), p, parses(text).value)
              else rc == -1 && tree == old(tree)
      ensures rc < 0 && parses(text).Some? && parses(text).value in AllProcs(tree) && CanHold(machine, tree, p) ==>
                RefusedSince(old(clock))
    {
      var refused := Refused();
      var pid := parses(text);
      if refused || pid.None? || pid.value !in AllProcs(tree) || !CanHold(machine, tree, p) {
        return -1;
      }
      tree := Moved(tree, p, pid.value);
      return 0;
    }

    /** Writes a setting: the file exists when its controller is available. */
    method WriteSetting(p: Path, entry: Entry, value: string) returns (rc: int)
      requires Sound() && p in tree
      modifies this`clock, this`tree
      ensures Sound() && clock == old(clock) + 1
      ensures if rc == 0 then
                && ControllerOf(entry) in Available(machine, old(tree), p)
                && tree == old(tree)[p := old(tree)[p].(settings := old(tree)[p].settings[entry := value])]
              else rc == -1 && tree == old(tree)
      ensures rc < 0 && ControllerOf(entry) in Available(machine, tree, p) ==> RefusedSince(old(clock))
    {
      var refused := Refused();
      if refused || ControllerOf(entry) !in Available(machine, tree, p) {
        return -1;
      }
      tree := tree[p := tree[p].(settings := tree[p].settings[entry := value])];
      return 0;
    }
  }

  function Moved(t: Tree, p: Path, pid: nat): (r: Tree)
    requires p in t
    ensures r.Keys == t.Keys
  {
    map q | q in t :: t[q].(procs := if q == p then t[q].procs + {pid} else t[q].procs - {pid})
  }

  lemma EnableKeepsValid(m: Machine, t: Tree, p: Path, mask: set<Controller>)
    requires Valid(m, t) && p in t
    requires mask <= Available(m, t, p) && NoInternal(m, p, mask, t[p].procs)
    ensures Valid(m, t[p := t[p].(subtree := t[p].subtree + mask)])
  {
    var r := t[p := t[p].(subtree := t[p].subtree + mask)];
    forall q | q in r
      ensures r[q].subtree <= Available(m, r, q) && NoInternal(m, q, r[q].subtree, r[q].procs)
    {
      assert t[q].subtree <= Available(m, t, q) <= Available(m, r, q);
      assert NoInternal(m, q, t[q].subtree, t[q].procs);
      if q == p {
        assert (t[p].subtree + mask) * m.domain == t[p].subtree * m.domain + mask * m.domain;
      }
    }
  }
}
