/** ensure_required_controllers: enabling controllers along a branch of the cgroup hierarchy. */
module CgroupControllers {
  import opened Controllers
  import opened CgroupTree
  import opened ControllerText

  /** q is p or an ancestor of p. */
  predicate OnBranch(q: Path, p: Path) {
    q <= p
  }

  /** The controllers enabled in the subtrees of the first n cgroups of the branch of p. */
  ghost function EnabledTo(t: Tree, p: Path, expected: set<Controller>, n: nat): (r: Tree)
    ensures r.Keys == t.Keys
  {
    map q | q in t :: if OnBranch(q, p) && |q| < n then t[q].(subtree := t[q].subtree + expected) else t[q]
  }

  /** The simple form: the controllers enabled in every cgroup of the branch. */
  ghost function EnabledAlong(t: Tree, p: Path, expected: set<Controller>): Tree {
    EnabledTo(t, p, expected, |p| + 1)
  }

  /** What a cgroup of the branch lacks can be enabled in it. */
  ghost predicate Enableable(m: Machine, t: Tree, p: Path, expected: set<Controller>) {
    && expected <= m.all
    && forall q | OnBranch(q, p) :: q in t && NoInternal(m, q, expected - t[q].subtree, t[q].procs)
  }

  /** A write made for a branch: all is asked to its end, and to an ancestor only what it lacks. */
  ghost predicate AsksWhatLacks(t: Tree, p: Path, expected: set<Controller>, write: (Path, set<Controller>)) {
    var (q, mask) := write;
    && OnBranch(q, p) && q in t
    && if q == p then mask == expected else mask == expected - t[q].subtree && mask != {}
  }

  ghost predicate Writes(t: Tree, p: Path, expected: set<Controller>, before: seq<(Path, set<Controller>)>,
                         after: seq<(Path, set<Controller>)>) {
    && before <= after
    && forall i | |before| <= i < |after| :: AsksWhatLacks(t, p, expected, after[i])
  }

  /** The parent is only asked for what its child lacks, and the rest is already enabled above. */
  lemma MissingIsEnough(m: Machine, t: Tree, p: Path, expected: set<Controller>, n: nat)
    requires Valid(m, t) && p in t && p != [] && n <= |p|
    ensures EnabledTo(t, Parent(p), expected - Available(m, t, p), n) == EnabledTo(t, p, expected, n)
  {
    var up, missing := Parent(p), expected - Available(m, t, p);
    forall q | q in t
      ensures EnabledTo(t, up, missing, n)[q] == EnabledTo(t, p, expected, n)[q]
    {
      if q <= p && |q| < n {
        assert q == p[..|q|] == up[..|q|];
        TopDown(m, t, up, |q|);
        assert t[up].subtree <= t[q].subtree;
        assert t[q].subtree + missing == t[q].subtree + expected;
      }
    }
  }

  /** Nothing misses: the ancestors have it all. */
  lemma NothingMissing(m: Machine, t: Tree, p: Path, expected: set<Controller>)
    requires Valid(m, t) && p in t && expected <= Available(m, t, p)
    ensures EnabledTo(t, p, expected, |p|) == t
  {
    forall q | q in t && q <= p && |q| < |p|
      ensures t[q].subtree + expected == t[q].subtree
    {
      assert q == p[..|q|] == Parent(p)[..|q|];
      TopDown(m, t, Parent(p), |q|);
    }
  }

  /** Enabling at the end of the branch. */
  lemma EnabledAtEnd(t: Tree, p: Path, expected: set<Controller>)
    requires p in t
    ensures var r := EnabledTo(t, p, expected, |p|);
            r[p := r[p].(subtree := r[p].subtree + expected)] == EnabledAlong(t, p, expected)
  {
    var r := EnabledTo(t, p, expected, |p|);
    forall q | q in t && q <= p && |q| == |p|
      ensures q == p
    {
    }
  }

  /** What the ancestors of p lack can be enabled in them. */
  ghost predicate EnableableAbove(m: Machine, t: Tree, p: Path, expected: set<Controller>) {
    && expected <= m.all
    && forall q | OnBranch(q, p) && q != p :: q in t && NoInternal(m, q, expected - t[q].subtree, t[q].procs)
  }

  /** The condition on the ancestors is the condition on the parent for what misses. */
  lemma AboveIsParent(m: Machine, t: Tree, p: Path, expected: set<Controller>)
    requires Valid(m, t) && p in t && p != []
    ensures EnableableAbove(m, t, p, expected) <==> Enableable(m, t, Parent(p), expected - Available(m, t, p))
  {
    var up, missing := Parent(p), expected - Available(m, t, p);
    forall q | OnBranch(q, up)
      ensures OnBranch(q, p) && q != p && q in t && expected - t[q].subtree == missing - t[q].subtree
    {
      assert q == up[..|q|];
      TopDown(m, t, up, |q|);
    }
    forall q | OnBranch(q, p) && q != p
      ensures OnBranch(q, up)
    {
      assert q == p[..|q|] == up[..|q|];
    }
    TopDown(m, t, up, 0);
    assert up[..0] == [];
    assert missing <= m.all <==> expected <= m.all;
  }

  /** When nothing misses, there is no condition on the ancestors. */
  lemma AboveHasAll(m: Machine, t: Tree, p: Path, expected: set<Controller>)
    requires Valid(m, t) && p in t && expected <= Available(m, t, p)
    ensures EnableableAbove(m, t, p, expected)
  {
    forall q | OnBranch(q, p) && q != p
      ensures q in t && expected - t[q].subtree == {}
    {
      assert q == p[..|q|] == Parent(p)[..|q|];
      TopDown(m, t, Parent(p), |q|);
    }
    if p != [] {
      TopDown(m, t, Parent(p), 0);
      assert Parent(p)[..0] == [];
    }
  }

  /** Enabling again what is already enabled adds no condition. */
  lemma LackIsEnough(m: Machine, t: Tree, p: Path, expected: set<Controller>)
    requires Valid(m, t) && p in t
    ensures NoInternal(m, p, expected, t[p].procs) <==> NoInternal(m, p, expected - t[p].subtree, t[p].procs)
    ensures Enableable(m, t, p, expected) <==>
              EnableableAbove(m, t, p, expected) && NoInternal(m, p, expected, t[p].procs)
  {
    assert OnBranch(p, p);
    assert NoInternal(m, p, t[p].subtree, t[p].procs);
    assert expected * m.domain == {} ==> (expected - t[p].subtree) * m.domain == {};
    assert (expected - t[p].subtree) * m.domain == {} && t[p].subtree * m.domain == {} ==> expected * m.domain == {};
  }

  /** The first part of ensure_required_controllers: the parent gets what misses. */
  method EnsureAbove(k: Kernel, p: Path, expected: set<Controller>) returns (rc: int)
    requires k.Sound() && p in k.tree
    modifies k`clock, k`tree, k`enabled
    ensures k.Sound() && (rc == 0 || rc == -1) && old(k.clock) <= k.clock
    ensures rc == 0 ==> k.tree == EnabledTo(old(k.tree), p, expected, |p|)
    ensures rc == 0 ==> expected <= Available(k.machine, k.tree, p)
    ensures rc < 0 ==> exists n: nat | n <= |p| :: k.tree == EnabledTo(old(k.tree), p, expected, n)
    ensures Writes(old(k.tree), p, expected, old(k.enabled), k.enabled)
    ensures rc == 0 ==> EnableableAbove(k.machine, old(k.tree), p, expected)
    ensures rc < 0 && EnableableAbove(k.machine, old(k.tree), p, expected) ==> k.RefusedSince(old(k.clock))
    decreases |p|, 0
  {
    ghost var t := k.tree;
    assert EnabledTo(t, p, expected, 0) == t;
    var current;
    rc, current := GetEffectiveControllers(k, p);
    if rc < 0 {
      return;
    }
    var missing := expected - current;
    if missing == {} {
      assert forall c | c in expected :: c in current || c in missing;
      assert expected <= current;
      NothingMissing(k.machine, t, p, expected);
      AboveHasAll(k.machine, t, p, expected);
      return;
    }
    if p == [] {
      return -1;
    }
    AboveIsParent(k.machine, t, p, expected);
    ghost var log := k.enabled;
    rc := EnsureRequired(k, Parent(p), missing);
    WritesAbove(k.machine, t, p, expected, log, k.enabled);
    if rc < 0 {
      ghost var n: nat :| n <= |p| && k.tree == EnabledTo(t, Parent(p), missing, n);
      MissingIsEnough(k.machine, t, p, expected, n);
      return;
    }
    MissingIsEnough(k.machine, t, p, expected, |p|);
  }

  /** What is asked to the parent for what misses is asked for the whole branch. */
  lemma WritesAbove(m: Machine, t: Tree, p: Path, expected: set<Controller>,
                    before: seq<(Path, set<Controller>)>, after: seq<(Path, set<Controller>)>)
    requires Valid(m, t) && p in t && p != [] && expected - Available(m, t, p) != {}
    requires Writes(t, Parent(p), expected - Available(m, t, p), before, after)
    ensures Writes(t, p, expected, before, after)
  {
    var up, missing := Parent(p), expected - Available(m, t, p);
    forall i | |before| <= i < |after|
      ensures AsksWhatLacks(t, p, expected, after[i])
    {
      assert AsksWhatLacks(t, up, missing, after[i]);
      var (q, mask) := after[i];
      assert q == up[..|q|];
      TopDown(m, t, up, |q|);
      assert missing - t[q].subtree == expected - t[q].subtree;
    }
  }

  /** The write of the end of the branch. */
  lemma WritesMore(t: Tree, p: Path, expected: set<Controller>, before: seq<(Path, set<Controller>)>,
                   log: seq<(Path, set<Controller>)>, after: seq<(Path, set<Controller>)>)
    requires p in t && Writes(t, p, expected, before, log) && (after == log || after == log + [(p, expected)])
    ensures Writes(t, p, expected, before, after)
  {
    assert OnBranch(p, p) && AsksWhatLacks(t, p, expected, (p, expected));
  }

  /** ensure_required_controllers. On success the controllers are enabled in the whole branch; on
      failure they are in the first cgroups of the branch, and nothing else has changed. It succeeds
      when each cgroup of the branch can enable what it lacks, unless the kernel refuses a call for
      another reason. */
  method EnsureRequired(k: Kernel, p: Path, expected: set<Controller>) returns (rc: int)
    requires k.Sound() && p in k.tree
    modifies k`clock, k`tree, k`enabled
    ensures k.Sound() && (rc == 0 || rc == -1) && old(k.clock) <= k.clock
    ensures rc == 0 ==> k.tree == EnabledAlong(old(k.tree), p, expected)
    ensures rc < 0 ==> exists n: nat | n <= |p| :: k.tree == EnabledTo(old(k.tree), p, expected, n)
    ensures Writes(old(k.tree), p, expected, old(k.enabled), k.enabled)
    ensures rc == 0 ==> Enableable(k.machine, old(k.tree), p, expected)
    ensures rc < 0 && Enableable(k.machine, old(k.tree), p, expected) ==> k.RefusedSince(old(k.clock))
    decreases |p|, 1
  {
    ghost var t := k.tree;
    LackIsEnough(k.machine, t, p, expected);
    rc := EnsureAbove(k, p, expected);
    if rc < 0 {
      return;
    }
    ghost var log := k.enabled;
    rc := AddSubcontrollers(k, p, expected);
    EnabledAtEnd(t, p, expected);
    WritesMore(t, p, expected, old(k.enabled), log, k.enabled);
  }

  /** get_effective_controllers */
  method GetEffectiveControllers(k: Kernel, p: Path) returns (rc: int, mask: set<Controller>)
    requires k.Sound()
    modifies k`clock
    ensures k.clock == old(k.clock) + 1 && (rc == 0 || rc == -1)
    ensures rc == 0 ==> p in k.tree && mask == Available(k.machine, k.tree, p)
    ensures rc < 0 && p in k.tree ==> k.RefusedSince(old(k.clock))
  {
    var buffer := new char[MAX_CTRL_SIZE];
    var sz := k.ReadControllers(p, buffer);
    if sz < 0 {
      return -1, {};
    }
    ShownIsRead(k.shows, Available(k.machine, k.tree, p));
    mask := ReadMask(buffer, sz);
    rc := 0;
  }

  /** add_required_subcontrollers */
  method AddSubcontrollers(k: Kernel, p: Path, mask: set<Controller>) returns (rc: int)
    requires k.Sound() && p in k.tree
    modifies k`clock, k`tree, k`enabled
    ensures k.Sound() && old(k.clock) <= k.clock
    ensures rc == 0 ==> k.tree == old(k.tree)[p := old(k.tree)[p].(subtree := old(k.tree)[p].subtree + mask)]
    ensures rc != 0 ==> rc == -1 && k.tree == old(k.tree) && k.enabled == old(k.enabled)
    ensures k.enabled == old(k.enabled) || k.enabled == old(k.enabled) + [(p, mask)]
    ensures rc == 0 ==> NoInternal(k.machine, p, mask, old(k.tree)[p].procs)
    ensures rc < 0 && mask <= Available(k.machine, old(k.tree), p)
            && NoInternal(k.machine, p, mask, old(k.tree)[p].procs) ==>
              k.RefusedSince(old(k.clock))
  {
    var text := MakeRequest(mask);
    ListedExact(mask);
    if text == "" {
      assert mask == {} && k.tree[p].subtree + mask == k.tree[p].subtree;
      return 0;
    }
    RequestExact(mask);
    rc := k.EnableSubtree(p, text);
  }
}
