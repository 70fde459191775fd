/** Which cgroup is the root of the rednodes: find_rednode_root, and what it finds when red-wrap runs
    again from the cgroup that it has entered. */
module CgroupRoot {
  import opened Strings
  import opened CgroupTree
  import opened Cgroups

  // ---- on names ----

  /** Removes the leaves at the end of a path. */
  function StripLeaf(p: Path): (r: Path)
    ensures r <= p && (r == [] || r[|r| - 1] != PIDS_LEAF)
  {
    if p != [] && p[|p| - 1] == PIDS_LEAF then StripLeaf(p[..|p| - 1]) else p
  }

  /** What is removed is made of leaves, and all those of the end are. */
  lemma {:induction false} StripExactly(p: Path)
    ensures var r := StripLeaf(p);
            && r <= p && (forall i | |r| <= i < |p| :: p[i] == "redpak-pids-leaf")
            && (r != [] ==> r[|r| - 1] != "redpak-pids-leaf")
  {
    if p == [] {
    } else {
      StripExactly(p[..|p| - 1]);
    }
  }

  /** Climbs while the directory has a leaf; found is the last one that had. */
  function Climb(has: Path -> bool, p: Path, found: Path): Path {
    if p == [] || !has(p) then found else Climb(has, Parent(p), p)
  }

  function FindRoot(has: Path -> bool, p: Path): Path {
    Climb(has, StripLeaf(p), StripLeaf(p))
  }

  // ---- on texts ----

  /** The first n names of s are those of a directory that has a leaf, like those between it and s. */
  ghost predicate LeavesFrom(has: Path -> bool, s: Path, n: nat) {
    0 < n <= |s| && forall m | n <= m <= |s| :: has(s[..m])
  }

  lemma {:induction false} ClimbExactly(has: Path -> bool, s: Path, n: nat, found: Path)
    requires LeavesFrom(has, s, n)
    ensures var r := Climb(has, s[..n], found);
            r <= s && LeavesFrom(has, s, |r|) && (|r| == 1 || !has(s[..|r| - 1]))
  {
    assert Parent(s[..n]) == s[..n - 1];
    if n > 1 && has(s[..n - 1]) {
      ClimbExactly(has, s, n - 1, s[..n]);
    }
  }

  /** The root found is the directory without its leaves, if that one has none of its own; else the highest one
      from which all have a leaf. */
  lemma FindRootExactly(has: Path -> bool, p: Path)
    ensures var s, r := StripLeaf(p), FindRoot(has, p);
            if s == [] || !has(s) then r == s
            else r <= s && LeavesFrom(has, s, |r|) && (|r| == 1 || !has(s[..|r| - 1]))
  {
    var s := StripLeaf(p);
    assert s[..|s|] == s;
    if s != [] && has(s) {
      ClimbExactly(has, s, |s|, s);
    }
  }

  /** The text of an absolute path. */
  function Text(p: Path): string {
    if p == [] then "" else Text(Parent(p)) + "/" + p[|p| - 1]
  }

  predicate ProperName(c: string) {
    c != "" && '/' !in c && '\0' !in c
  }

  ghost predicate ProperPath(p: Path) {
    forall i | 0 <= i < |p| :: ProperName(p[i])
  }

  lemma {:induction false} TextFacts(p: Path)
    requires ProperPath(p)
    ensures '\0' !in Text(p)
    ensures p != [] ==> Text(p)[|Text(p)| - 1] != '/'
    ensures p != [] ==> Text(p)[0] == '/'
  {
    if p == [] {
    } else {
      TextFacts(Parent(p));
    }
  }

  /** A path ends with a slash and a proper name exactly when that name is its last. */
  lemma LastName(p: Path, name: string)
    requires ProperPath(p) && ProperName(name)
    ensures var t, n := Text(p), |Text(p)| - |name|;
            (p != [] && p[|p| - 1] == name) <==> (n > 0 && t[n..] == name && t[n - 1] == '/')
  {
    if p != [] { Ends(Text(Parent(p)), p[|p| - 1], name); }
  }

  lemma Ends(up: string, last: string, name: string)
    requires '/' !in last && '/' !in name
    ensures var t := up + "/" + last;
            var n := |t| - |name|;
            last == name <==> (n > 0 && t[n..] == name && t[n - 1] == '/')
  {
    var t := up + "/" + last;
    var n := |t| - |name|;
    assert t[|up| + 1..] == last && t[|up|] == '/';
    assert forall k | |up| < k < |t| :: t[k] == last[k - |up| - 1] && t[k] != '/';
    if n > 0 && t[n..] == name {
      assert forall k | n <= k < |t| :: t[k] == name[k - n] && t[k] != '/';
    }
  }

  /** The text without its last name. */
  method DropName(path: array<char>, length: nat, ghost p: Path) returns (r: nat)
    requires length <= path.Length && ProperPath(p) && p != [] && path[..length] == Text(p)
    ensures r <= length && r == |Text(Parent(p))| && path[..r] == Text(Parent(p))
  {
    ghost var up, t := Text(Parent(p)), path[..length];
    ghost var last := p[|p| - 1];
    assert t == up + "/" + last;
    assert t[|up|] == '/' && forall k | |up| < k < |t| :: t[k] == last[k - |up| - 1];
    r := length;
    while r > 0 && path[r - 1] != '/'
      invariant |up| + 1 <= r <= length
    {
      assert t[r - 1] == path[r - 1];
      r := r - 1;
    }
    assert t[r - 1] == path[r - 1];
    ProperPrefix(p);
    TextFacts(Parent(p));
    r := TrimSlashes(path, r, t, |up|);
    assert path[..r] == t[..r] == up;
  }

  /** Removes the slashes at the end of the first length characters, of which n remain. */
  method TrimSlashes(path: array<char>, length: nat, ghost t: string, ghost n: nat) returns (r: nat)
    requires n <= length <= |t| <= path.Length && path[..|t|] == t
    requires (forall i | n <= i < length :: t[i] == '/') && (n > 0 ==> t[n - 1] != '/')
    ensures r == n
  {
    r := length;
    while r > 0 && path[r - 1] == '/'
      invariant n <= r <= length
    {
      assert t[r - 1] == path[r - 1];
      r := r - 1;
    }
    assert r > 0 ==> t[r - 1] == path[r - 1];
  }

  lemma ProperPrefix(p: Path)
    requires ProperPath(p) && p != []
    ensures ProperPath(Parent(p))
  {
    assert forall i | 0 <= i < |Parent(p)| :: Parent(p)[i] == p[i];
  }

  /** Whether the text ends with the name of the leaf, after a slash or alone. */
  method EndsWithLeaf(path: array<char>, length: nat, ghost q: Path) returns (b: bool)
    requires length <= path.Length && ProperPath(q) && path[..length] == Text(q)
    ensures b <==> q != [] && q[|q| - 1] == PIDS_LEAF
    ensures b ==> |PIDS_LEAF| <= length
  {
    ghost var t := Text(q);
    LastName(q, PIDS_LEAF);
    TextFacts(q);
    var off: int := length - |PIDS_LEAF|;
    if off < 0 {
      return false;
    }
    assert path[off..length] == t[off..];
    assert off > 0 ==> path[off - 1] == t[off - 1];
    assert off == 0 ==> t[0] == '/' && PIDS_LEAF[0] == 'r';
    b := path[off..length] == PIDS_LEAF && !(off > 0 && path[off - 1] != '/');
  }

  /** The text without the name of the leaf. */
  method DropLeaf(path: array<char>, length: nat, ghost q: Path) returns (r: nat)
    requires length <= path.Length && ProperPath(q) && path[..length] == Text(q)
    requires q != [] && q[|q| - 1] == PIDS_LEAF
    ensures r == |Text(Parent(q))| < length && path[..r] == Text(Parent(q))
  {
    ghost var up, t := Text(Parent(q)), Text(q);
    assert t == up + "/" + PIDS_LEAF;
    ProperPrefix(q);
    TextFacts(Parent(q));
    assert t[|up|] == '/' && up == t[..|up|];
    assert up != "" ==> t[|up| - 1] == up[|up| - 1];
    r := TrimSlashes(path, length - |PIDS_LEAF|, t, |up|);
    assert path[..r] == t[..r];
  }

  /** length_without_pids_leaf */
  method LengthWithoutPidsLeaf(path: array<char>, length: nat, ghost p: Path) returns (r: nat)
    requires length <= path.Length && ProperPath(p) && path[..length] == Text(p)
    ensures r == |Text(StripLeaf(p))| <= length && path[..r] == Text(StripLeaf(p))
  {
    r := length;
    ghost var q := p;
    while true
      invariant r <= length && ProperPath(q) && path[..r] == Text(q)
      invariant StripLeaf(q) == StripLeaf(p)
      decreases r
    {
      var ends := EndsWithLeaf(path, r, q);
      if !ends {
        return;
      }
      r := DropLeaf(path, r, q);
      ProperPrefix(q);
      q := Parent(q);
    }
  }

  /** The directory has a leaf, the call being made with a zero after the text. */
  method HasLeafAt(leafDir: string -> bool, path: array<char>, length: nat, ghost p: Path) returns (r: bool)
    requires length < path.Length && ProperPath(p) && path[..length] == Text(p)
    modifies path
    ensures r == leafDir(Text(p)) && path[..] == old(path[..])
  {
    ghost var all := path[..];
    var savec := path[length];
    path[length] := '\0';
    TextFacts(p);
    CStrIs(path[..], length);
    assert path[..][..length] == path[..length] == Text(p);
    r := leafDir(CStr(path[..]));
    path[length] := savec;
    assert path[..] == all;
  }

  /** find_rednode_root: refines the climb on names, and leaves the path as it was. */
  method FindRednodeRoot(leafDir: string -> bool, has: Path -> bool, path: array<char>, length: nat, ghost p: Path)
    returns (found: nat)
    requires length < path.Length && ProperPath(p)
    requires |Text(p)| <= length && path[..|Text(p)|] == Text(p) && forall i | |Text(p)| <= i < length :: path[i] == '/'
    requires forall q | ProperPath(q) :: has(q) == leafDir(Text(q))
    modifies path
    ensures path[..] == old(path[..])
    ensures found == |Text(FindRoot(has, p))| <= length && path[..found] == Text(FindRoot(has, p))
  {
    TextFacts(p);
    ghost var all := path[..];
    assert forall i | |Text(p)| <= i < length :: all[i] == '/';
    assert all[..|Text(p)|] == path[..|Text(p)|];
    assert |Text(p)| > 0 ==> all[|Text(p)| - 1] == Text(p)[|Text(p)| - 1];
    var len: nat := TrimSlashes(path, length, all, |Text(p)|);
    len := LengthWithoutPidsLeaf(path, len, p);
    ghost var q, f := StripLeaf(p), StripLeaf(p);
    StripProper(p);
    found := len;
    while len > 0
      invariant path[..] == all
      invariant len <= length && ProperPath(q) && path[..len] == Text(q)
      invariant found <= length && found == |Text(f)| && path[..found] == Text(f)
      invariant Climb(has, q, f) == FindRoot(has, p)
      decreases len
    {
      assert q != [];
      var b := HasLeafAt(leafDir, path, len, q);
      assert path[..len] == all[..len];
      if !b {
        assert path[..found] == all[..found];
        return;
      }
      found := len;
      f := q;
      len := DropName(path, len, q);
      ProperPrefix(q);
      q := Parent(q);
    }
    TextFacts(q);
    assert path[..0] == "";
    assert q == [];
  }

  lemma {:induction false} StripProper(p: Path)
    requires ProperPath(p)
    ensures ProperPath(StripLeaf(p))
  {
    if p != [] && p[|p| - 1] == PIDS_LEAF {
      ProperPrefix(p);
      StripProper(Parent(p));
    }
  }

  // ---- red-wrap run again ----

  predicate HasLeaf(t: Tree, p: Path) {
    p in t && p + [PIDS_LEAF] in t
  }

  /** The directories that have a leaf: some of those below the mounting point of cgroups. */
  function LeafBelow(mount: Path, t: Tree): Path -> bool {
    q => mount <= q && HasLeaf(t, q[|mount|..])
  }

  lemma {:induction false} ClimbShorter(has: Path -> bool, p: Path, found: Path)
    requires p != [] && has(p)
    ensures |Climb(has, p, found)| <= |p|
  {
    if Parent(p) != [] && has(Parent(p)) {
      ClimbShorter(has, Parent(p), p);
    }
  }

  /** The climb from below a directory that has a leaf goes on from it. */
  lemma ClimbOn(has: Path -> bool, p: Path, found: Path)
    requires p != [] && has(p)
    ensures (Climb(has, p, found) == p) <==> (Parent(p) == [] || !has(Parent(p)))
  {
    if Parent(p) != [] && has(Parent(p)) {
      ClimbShorter(has, Parent(p), p);
    }
  }

  lemma {:induction false} ClimbChain(has: Path -> bool, mount: Path, root: Path, chain: seq<CgNode>, i: nat)
    requires i <= |chain| && mount != []
    requires forall j | i <= j <= |chain| :: has(mount + PathAt(root, chain, j))
    ensures forall found :: Climb(has, mount + PathAt(root, chain, i), found) == Climb(has, mount + root, mount + root)
    decreases |chain| - i
  {
    var p := mount + PathAt(root, chain, i);
    if i < |chain| {
      PathLength(root, chain, i);
      assert Parent(p) == mount + PathAt(root, chain, i + 1);
      ClimbChain(has, mount, root, chain, i + 1);
    } else {
      assert forall found :: Climb(has, p, found) == Climb(has, Parent(p), p);
    }
  }

  /** Once every cgroup of the chain has a leaf, the root found again from the leaf of the last one is
      the same if and only if the parent of the root has no leaf. */
  lemma FoundAgain(mount: Path, t: Tree, root: Path, chain: seq<CgNode>)
    requires mount != [] && chain != [] && chain[0].name != PIDS_LEAF
    requires forall j | 0 <= j <= |chain| :: HasLeaf(t, PathAt(root, chain, j))
    ensures FindRoot(LeafBelow(mount, t), mount + PathAt(root, chain, 0) + [PIDS_LEAF]) == mount + root
       <==> root == [] || !HasLeaf(t, Parent(root))
  {
    var has, last := LeafBelow(mount, t), mount + PathAt(root, chain, 0);
    var full := last + [PIDS_LEAF];
    assert full[..|full| - 1] == last && last[|last| - 1] == chain[0].name;
    assert StripLeaf(full) == StripLeaf(last) == last;
    forall j | 0 <= j <= |chain|
      ensures has(mount + PathAt(root, chain, j))
    {
      assert (mount + PathAt(root, chain, j))[|mount|..] == PathAt(root, chain, j);
    }
    ClimbChain(has, mount, root, chain, 0);
    assert has(mount + PathAt(root, chain, |chain|));
    ClimbOn(has, mount + root, mount + root);
    var up := Parent(mount + root);
    if root != [] {
      assert up == mount + Parent(root) && up[|mount|..] == Parent(root);
    } else {
      assert |up| < |mount|;
    }
  }

  lemma {:induction false} ClimbTop(has: Path -> bool, p: Path, found: Path)
    requires p != [] && has(p)
    ensures var r := Climb(has, p, found); r != [] && has(r) && (Parent(r) == [] || !has(Parent(r)))
  {
    if Parent(p) != [] && has(Parent(p)) {
      ClimbTop(has, Parent(p), p);
    }
  }

  /** The root found is below the mounting point, and is no leaf; when it has a leaf, its parent has
      none. */
  lemma RootFacts(m: Machine, mount: Path, t: Tree, start: Path)
    requires Valid(m, t) && mount <= start && mount != [] && mount[|mount| - 1] != PIDS_LEAF
    ensures RootFact(mount, t, FindRoot(LeafBelow(mount, t), start))
  {
    StripKeeps(mount, start);
    if LeafBelow(mount, t)(StripLeaf(start)) {
      ClimbTop(LeafBelow(mount, t), StripLeaf(start), StripLeaf(start));
      TopIsNoLeaf(mount, t, FindRoot(LeafBelow(mount, t), start));
    } else {
      BareIsRoot(mount, t, start);
    }
  }

  ghost predicate RootFact(mount: Path, t: Tree, r: Path) {
    && mount != [] && mount <= r
    && r[|r| - 1] != PIDS_LEAF
    && (HasLeaf(t, r[|mount|..]) && r != mount ==> !HasLeaf(t, Parent(r[|mount|..])))
  }

  lemma BareIsRoot(mount: Path, t: Tree, start: Path)
    requires mount != [] && mount <= StripLeaf(start) && !LeafBelow(mount, t)(StripLeaf(start))
    ensures RootFact(mount, t, FindRoot(LeafBelow(mount, t), start))
  {
    assert FindRoot(LeafBelow(mount, t), start) == StripLeaf(start);
  }

  lemma TopIsNoLeaf(mount: Path, t: Tree, r: Path)
    requires mount != [] && mount[|mount| - 1] != PIDS_LEAF
    requires mount <= r && HasLeaf(t, r[|mount|..]) && (r != mount ==> Parent(r[|mount|..]) in t)
    requires mount <= Parent(r) ==> !HasLeaf(t, Parent(r)[|mount|..])
    ensures RootFact(mount, t, r)
  {
    var root := r[|mount|..];
    if r != mount {
      assert mount <= Parent(r) && Parent(r)[|mount|..] == Parent(root);
      var leaf := Parent(root) + [PIDS_LEAF];
      assert r[|r| - 1] == root[|root| - 1];
      assert root[|root| - 1] == PIDS_LEAF ==> leaf == root;
    }
  }

  lemma {:induction false} StripKeeps(mount: Path, p: Path)
    requires mount <= p && mount != [] && mount[|mount| - 1] != PIDS_LEAF
    ensures mount <= StripLeaf(p)
  {
    if p[|p| - 1] == PIDS_LEAF {
      assert p != mount;
      StripKeeps(mount, Parent(p));
    }
  }
}
