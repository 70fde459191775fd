/** set_cgroups: from the cgroup in which red-wrap runs to the leaf of a node, and what a second start finds. */
module SetCgroups {
  import opened ProcsText
  import opened CgroupControllers
  import opened CgroupTree
  import opened MoveProcs
  import opened Cgroups
  import opened CgroupRoot

  /** enter_leaf_cgroup */
  method EnterLeaf(k: Kernel, st: State, pid: nat) returns (rc: int)
    requires k.Sound() && (st.final != {} ==> st.dir in k.tree)
    modifies k`clock, k`tree
    ensures k.Sound() && SameShape(old(k.tree), k.tree) && old(k.clock) <= k.clock
    ensures st.final == {} ==> rc == 0 && k.tree == old(k.tree)
    ensures rc >= 0 && st.final != {} ==>
              var leaf := st.dir + [PIDS_LEAF];
              leaf in k.tree && pid in AllProcs(old(k.tree)) && k.tree == Moved(old(k.tree), leaf, pid)
    ensures rc < 0 ==> k.tree == old(k.tree)
    ensures var leaf := st.dir + [PIDS_LEAF];
            rc < 0 && leaf in k.tree && pid in AllProcs(k.tree) && CanHold(k.machine, k.tree, leaf) ==>
              k.RefusedSince(old(k.clock))
  {
    if st.final == {} {
      return 0;
    }
    var leaf := st.dir + [PIDS_LEAF];
    assert Parent(leaf) == st.dir;
    rc := k.Open(leaf);
    if rc < 0 {
      return;
    }
    rc := k.WriteProcs(leaf, Digits(pid));
  }

  lemma ShapeExtends(before: Tree, after: Tree)
    requires SameShape(before, after)
    ensures Extends(before, after, {}, [])
  {
    forall q ensures Subtree(after, q) == Subtree(before, q) {
      assert q in before <==> q in after;
    }
  }

  /** The walk gives no leaf to the parent of the root. */
  lemma ParentLeafKept(before: Tree, after: Tree, root: Path, chain: seq<CgNode>)
    requires Extends(before, after, Touched(root, chain, 0), PathAt(root, chain, 0))
    requires root != [] && root[|root| - 1] != PIDS_LEAF && Parent(root) in before
    ensures HasLeaf(after, Parent(root)) == HasLeaf(before, Parent(root))
  {
    var leaf := Parent(root) + [PIDS_LEAF];
    forall j | 0 <= j <= |chain|
      ensures leaf != PathAt(root, chain, j) && leaf != PathAt(root, chain, j) + [PIDS_LEAF]
    {
      PathLength(root, chain, j);
      assert leaf[|leaf| - 1] != root[|root| - 1];
    }
  }

  // ---- processes ----

  /** pid has entered a leaf after the processes of the root have been moved, whole telling whether their
      list has been read whole. */
  ghost predicate Entered(before: Tree, after: Tree, root: Path, pid: nat, leaf: Path, whole: bool) {
    exists t ::
      RootMoves(before, t, root, whole, true) && leaf in t && pid in AllProcs(t) && after == Moved(t, leaf, pid)
  }

  lemma ProcsMoved(t: Tree, leaf: Path, pid: nat)
    requires leaf in t
    ensures forall q :: Procs(Moved(t, leaf, pid), q) == if q == leaf then Procs(t, q) + {pid} else Procs(t, q) - {pid}
  {
  }

  /** However the list is read, no process is lost: each one is where it was or in the leaf of the root, but
      for pid which is in the leaf that it has entered, and only there. */
  lemma NoProcessLost(before: Tree, after: Tree, root: Path, pid: nat, leaf: Path, whole: bool, p: Path, x: nat)
    requires OnePlace(before) && Entered(before, after, root, pid, leaf, whole)
    ensures x in Procs(before, p) && x != pid ==> x in Procs(after, p) || x in Procs(after, root + [PIDS_LEAF])
    ensures x in Procs(after, p) ==> x in AllProcs(before)
    ensures pid in Procs(after, p) <==> p == leaf
  {
    var t :| RootMoves(before, t, root, whole, true) && leaf in t && pid in AllProcs(t) && after == Moved(t, leaf, pid);
    ProcsMoved(t, leaf, pid);
    if x in Procs(before, p) {
      GatheredPlace(before, t, root + [PIDS_LEAF], p, x);
    }
    if x in Procs(after, p) && x != pid {
      assert x in Procs(t, p) && x in AllProcs(t);
    }
  }

  /** When the list is read whole, exactly the processes of the root have gone to its leaf. */
  lemma OnlyRootMoves(before: Tree, after: Tree, root: Path, pid: nat, leaf: Path, p: Path, x: nat)
    requires Entered(before, after, root, pid, leaf, true) && x != pid
    ensures x in Procs(after, p) <==>
              (p != root && x in Procs(before, p)) || (p == root + [PIDS_LEAF] && x in Procs(before, root))
  {
    var t :| RootMoves(before, t, root, true, true) && leaf in t && pid in AllProcs(t) && after == Moved(t, leaf, pid);
    ProcsMoved(t, leaf, pid);
    assert Procs(t, root) == {};
  }

  // ---- the whole call ----

  lemma ShapeKeepsPrepared(m: Machine, before: Tree, after: Tree, root: Path, chain: seq<CgNode>, j: nat)
    requires j < |chain| && Prepared(m, before, root, chain, j) && SameShape(before, after)
    ensures Prepared(m, after, root, chain, j)
  {
    ShapeExtends(before, after);
    PreparedStays(m, before, after, {}, [], root, chain, j);
  }

  /** What set_cgroups needs to succeed, if the kernel refuses nothing. */
  ghost predicate CanEnter(k: Kernel, root: Path, chain: seq<CgNode>, pid: nat)
    reads k
  {
    && Ready(k, root, chain, 0) && pid in AllProcs(k.tree)
    && CanHold(k.machine, k.tree, PathAt(root, chain, 0) + [PIDS_LEAF])
  }

  /** Nothing is enabled in the leaf of the last cgroup. */
  lemma LeafCanHold(m: Machine, before: Tree, after: Tree, touched: set<Path>, last: Path)
    requires Extends(before, after, touched, last) && CanHold(m, before, last + [PIDS_LEAF])
    ensures CanHold(m, after, last + [PIDS_LEAF])
  {
    assert !OnBranch(last + [PIDS_LEAF], last);
    assert Subtree(after, last + [PIDS_LEAF]) == Subtree(before, last + [PIDS_LEAF]);
  }

  /** Every node of the chain is prepared and has a leaf, and the process is in that of the first one. */
  ghost predicate Placed(m: Machine, before: Tree, after: Tree, root: Path, chain: seq<CgNode>, pid: nat, whole: bool)
    requires chain != []
  {
    && root in before
    && Entered(before, after, root, pid, PathAt(root, chain, 0) + [PIDS_LEAF], whole)
    && AllReady(m, after, root, chain)
  }

  ghost predicate AllReady(m: Machine, t: Tree, root: Path, chain: seq<CgNode>) {
    && (forall i | 0 <= i < |chain| :: Prepared(m, t, root, chain, i))
    && (forall i | 0 <= i <= |chain| :: HasLeaf(t, PathAt(root, chain, i)))
  }

  /** set_cgroups below a root: when some controller is needed, on success every node of the chain is
      prepared and the process is in the leaf of the first one. When none is needed, nothing is done. */
  method SetCgroupsAt(k: Kernel, root: Path, chain: seq<CgNode>, pid: nat) returns (rc: int)
    requires k.Sound() && chain != []
    modifies k
    ensures k.Sound() && old(k.clock) <= k.clock
    ensures Extends(old(k.tree), k.tree, Touched(root, chain, 0), PathAt(root, chain, 0))
    ensures Mask(chain, |chain|) == {} ==> rc == 0 && k.tree == old(k.tree)
    ensures rc < 0 ==> RootMoves(old(k.tree), k.tree, root, old(WholeReads(k, Procs(k.tree, root))), false)
    ensures rc >= 0 && Mask(chain, |chain|) != {} ==>
              Placed(k.machine, old(k.tree), k.tree, root, chain, pid, old(WholeReads(k, Procs(k.tree, root))))
    ensures rc < 0 && old(CanEnter(k, root, chain, pid)) ==> k.RefusedSince(old(k.clock))
  {
    ghost var before, whole, can := k.tree, WholeReads(k, Procs(k.tree, root)), CanEnter(k, root, chain, pid);
    var st := new State();
    rc := PrepareCgroups(k, st, root, chain, 0, {});
    if rc < 0 || st.final == {} {
      return;
    }
    ghost var t := k.tree;
    rc := EnterBuilt(k, st, root, chain, pid);
    AfterPrepared(k.machine, before, t, k.tree, root, chain, whole);
    if rc >= 0 {
      assert RootMoves(before, t, root, whole, true) && PathAt(root, chain, 0) + [PIDS_LEAF] in t;
    }
  }

  /** What the last step changes. */
  lemma AfterPrepared(m: Machine, before: Tree, t: Tree, after: Tree, root: Path, chain: seq<CgNode>, whole: bool)
    requires chain != [] && Extends(before, t, Touched(root, chain, 0), PathAt(root, chain, 0)) && SameShape(t, after)
    requires RootMoves(before, t, root, whole, true)
    ensures Extends(before, after, Touched(root, chain, 0), PathAt(root, chain, 0))
    ensures RootMoves(before, t, root, whole, false) && AllProcs(t) == AllProcs(before)
    ensures var leaf := PathAt(root, chain, 0) + [PIDS_LEAF]; CanHold(m, before, leaf) ==> CanHold(m, t, leaf)
  {
    var last := PathAt(root, chain, 0);
    ShapeExtends(t, after);
    assert OnBranch(last, last) && Extends(t, after, {}, last);
    ExtendsMore(before, t, after, Touched(root, chain, 0), {}, last, last);
    if CanHold(m, before, last + [PIDS_LEAF]) {
      LeafCanHold(m, before, t, Touched(root, chain, 0), last);
    }
  }

  /** The last step, once all is prepared. */
  method EnterBuilt(k: Kernel, st: State, root: Path, chain: seq<CgNode>, pid: nat) returns (rc: int)
    requires k.Sound() && chain != [] && st.final != {} && Built(k.machine, k.tree, st.dir, root, chain, 0)
    modifies k`clock, k`tree
    ensures k.Sound() && SameShape(old(k.tree), k.tree) && old(k.clock) <= k.clock
    ensures rc < 0 ==> k.tree == old(k.tree)
    ensures var leaf := PathAt(root, chain, 0) + [PIDS_LEAF];
            && (rc >= 0 ==>
                  && leaf in old(k.tree) && pid in AllProcs(old(k.tree)) && k.tree == Moved(old(k.tree), leaf, pid)
                  && AllReady(k.machine, k.tree, root, chain))
            && (rc < 0 && pid in AllProcs(old(k.tree)) && CanHold(k.machine, old(k.tree), leaf) ==>
                  k.RefusedSince(old(k.clock)))
  {
    ghost var t := k.tree;
    assert Prepared(k.machine, t, root, chain, 0);
    rc := EnterLeaf(k, st, pid);
    if rc >= 0 {
      forall i | 0 <= i < |chain|
        ensures Prepared(k.machine, k.tree, root, chain, i)
      {
        ShapeKeepsPrepared(k.machine, t, k.tree, root, chain, i);
      }
      AllHaveLeaf(k.machine, k.tree, root, chain);
    }
  }

  lemma AllHaveLeaf(m: Machine, t: Tree, root: Path, chain: seq<CgNode>)
    requires Valid(m, t) && root + [PIDS_LEAF] in t
    requires forall i | 0 <= i < |chain| :: Prepared(m, t, root, chain, i)
    ensures forall i | 0 <= i <= |chain| :: HasLeaf(t, PathAt(root, chain, i))
  {
    forall i | 0 <= i <= |chain|
      ensures HasLeaf(t, PathAt(root, chain, i))
    {
      if i < |chain| {
        assert Prepared(m, t, root, chain, i);
      } else {
        assert Parent(root + [PIDS_LEAF]) == root;
      }
    }
  }

  /** The root, from the mounting point, that is found from a starting path. */
  function RootFrom(mount: Path, t: Tree, start: Path): Path
    requires |mount| <= |FindRoot(LeafBelow(mount, t), start)|
  {
    FindRoot(LeafBelow(mount, t), start)[|mount|..]
  }

  /** set_cgroups: the root is found from the current cgroup. After a success, red-wrap run again from
      the leaf that it has entered finds the same root if and only if that root already had a leaf, or
      is the root of the hierarchy, or has a parent without leaf. */
  method SetCgroups(k: Kernel, mount: Path, start: Path, chain: seq<CgNode>, pid: nat) returns (rc: int)
    requires k.Sound() && chain != [] && chain[0].name != PIDS_LEAF
    requires mount <= start && mount != [] && mount[|mount| - 1] != PIDS_LEAF
    modifies k
    ensures k.Sound() && Grows(old(k.tree), k.tree)
    ensures Mask(chain, |chain|) == {} ==> rc == 0 && k.tree == old(k.tree)
    ensures mount <= FindRoot(LeafBelow(mount, old(k.tree)), start)
    ensures rc >= 0 && Mask(chain, |chain|) != {} ==>
              var root := RootFrom(mount, old(k.tree), start);
              && mount + root == FindRoot(LeafBelow(mount, old(k.tree)), start)
              && Placed(k.machine, old(k.tree), k.tree, root, chain, pid, old(WholeReads(k, Procs(k.tree, root))))
              && (FindRoot(LeafBelow(mount, k.tree), mount + PathAt(root, chain, 0) + [PIDS_LEAF]) == mount + root
                  <==> HasLeaf(old(k.tree), root) || root == [] || !HasLeaf(old(k.tree), Parent(root)))
    ensures var root := RootFrom(mount, old(k.tree), start);
            rc < 0 && old(CanEnter(k, root, chain, pid)) ==> k.RefusedSince(old(k.clock))
  {
    RootFacts(k.machine, mount, k.tree, start);
    var root := RootFrom(mount, k.tree, start);
    ghost var t := k.tree;
    rc := SetCgroupsAt(k, root, chain, pid);
    assert mount + root == FindRoot(LeafBelow(mount, t), start);
    if rc >= 0 && Mask(chain, |chain|) != {} {
      SecondRun(k.machine, mount, t, k.tree, start, root, chain);
    }
  }

  lemma SecondRun(m: Machine, mount: Path, before: Tree, after: Tree, start: Path, root: Path, chain: seq<CgNode>)
    requires Valid(m, before) && chain != [] && chain[0].name != PIDS_LEAF
    requires mount <= start && mount != [] && mount[|mount| - 1] != PIDS_LEAF
    requires FindRoot(LeafBelow(mount, before), start) == mount + root && root in before
    requires Extends(before, after, Touched(root, chain, 0), PathAt(root, chain, 0))
    requires forall j | 0 <= j <= |chain| :: HasLeaf(after, PathAt(root, chain, j))
    ensures FindRoot(LeafBelow(mount, after), mount + PathAt(root, chain, 0) + [PIDS_LEAF]) == mount + root
       <==> HasLeaf(before, root) || root == [] || !HasLeaf(before, Parent(root))
  {
    RootFacts(m, mount, before, start);
    FoundAgain(mount, after, root, chain);
    assert (mount + root)[|mount|..] == root;
    if root != [] {
      assert (mount + root)[|mount + root| - 1] == root[|root| - 1];
      ParentLeafKept(before, after, root, chain);
    }
  }

  // ---- a second start that finds another root ----

  const EMPTY := Cgroup({}, {}, map[])

  /** Below a, which has a leaf, red-wrap starts from b, which has none. */
  function Nested(): Tree {
    map[[] := EMPTY, ["a"] := EMPTY, ["a", PIDS_LEAF] := EMPTY, ["a", "b"] := EMPTY]
  }

  /** The same once a node n is prepared. */
  function NestedThen(): Tree {
    Nested()[["a", "b", PIDS_LEAF] := EMPTY][["a", "b", "n"] := EMPTY][["a", "b", "n", PIDS_LEAF] := EMPTY]
  }

  /** The first start finds b, the second one does not. */
  lemma OtherRoot(node: CgNode)
    requires node.name == "n"
    ensures FindRoot(LeafBelow(["m"], Nested()), ["m", "a", "b"]) == ["m", "a", "b"]
    ensures PathAt(["a", "b"], [node], 0) == ["a", "b", "n"]
    ensures FindRoot(LeafBelow(["m"], NestedThen()), ["m", "a", "b", "n", PIDS_LEAF]) != ["m", "a", "b"]
  {
    BelowB(node);
    NestedLeaves();
    FoundAgain(["m"], NestedThen(), ["a", "b"], [node]);
    assert Parent(["a", "b"]) == ["a"];
    assert ["m"] + ["a", "b"] == ["m", "a", "b"];
    assert ["m"] + ["a", "b", "n"] + [PIDS_LEAF] == ["m", "a", "b", "n", PIDS_LEAF];
    FirstStart();
  }

  lemma BelowB(node: CgNode)
    requires node.name == "n"
    ensures PathAt(["a", "b"], [node], 0) == ["a", "b", "n"]
    ensures forall j | 0 <= j <= 1 :: HasLeaf(NestedThen(), PathAt(["a", "b"], [node], j))
  {
    var root, chain := ["a", "b"], [node];
    assert PathAt(root, chain, 1) == root;
    assert PathAt(root, chain, 0) == root + ["n"] == ["a", "b", "n"];
    NestedLeaves();
  }

  lemma NestedLeaves()
    ensures HasLeaf(NestedThen(), ["a", "b"]) && HasLeaf(NestedThen(), ["a", "b", "n"]) && HasLeaf(NestedThen(), ["a"])
    ensures !HasLeaf(Nested(), ["a", "b"])
  {
    assert ["a", "b"] + [PIDS_LEAF] == ["a", "b", PIDS_LEAF];
    assert ["a", "b", "n"] + [PIDS_LEAF] == ["a", "b", "n", PIDS_LEAF];
    assert ["a"] + [PIDS_LEAF] == ["a", PIDS_LEAF];
  }

  lemma FirstStart()
    ensures FindRoot(LeafBelow(["m"], Nested()), ["m", "a", "b"]) == ["m", "a", "b"]
  {
    NestedLeaves();
    assert ["m", "a", "b"][|["m"]|..] == ["a", "b"] && |"b"| != |PIDS_LEAF|;
    assert StripLeaf(["m", "a", "b"]) == ["m", "a", "b"];
  }
}
