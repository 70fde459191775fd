/** Directories named by texts, and the calls that create and look for them. Texts that differ by repeated
    slashes name the same directory. */
module FileTree {
  datatype Kind = Directory | File

  type Nodes = map<string, Kind>

  /** Length of the first n characters without the slashes at their end. */
  function TrimEnd(s: string, n: nat): (r: nat)
    requires n <= |s|
    ensures r <= n && (r > 0 ==> s[r - 1] != '/') && forall i | r <= i < n :: s[i] == '/'
  {
    if n > 0 && s[n - 1] == '/' then TrimEnd(s, n - 1) else n
  }

  /** Start of the last name of the first n characters. */
  function NameStart(s: string, n: nat): (r: nat)
    requires n <= |s|
    ensures r <= n && (r > 0 ==> s[r - 1] == '/') && forall i | r <= i < n :: s[i] != '/'
  {
    if n > 0 && s[n - 1] != '/' then NameStart(s, n - 1) else n
  }

  function ParentLen(s: string, n: nat): (r: nat)
    requires n <= |s|
    ensures r <= n && (n > 0 ==> r < n)
    ensures r > 0 ==> s[r - 1] != '/'
    ensures 0 < r < n && s[n - 1] != '/' ==> s[r] == '/'
  {
    TrimEnd(s, NameStart(s, n))
  }

  function Trim(s: string): string {
    s[..TrimEnd(s, |s|)]
  }

  /** The directory of a path; "" stands for the root or for the current directory. */
  function ParentText(t: string): (r: string)
    ensures |r| <= |t| && (t != "" ==> |r| < |t|)
  {
    t[..ParentLen(t, |t|)]
  }

  lemma {:induction false} TrimEndOf(s: string, t: string, n: nat)
    requires n <= |s| && n <= |t| && s[..n] == t[..n]
    ensures TrimEnd(s, n) == TrimEnd(t, n) && NameStart(s, n) == NameStart(t, n)
  {
    if n == 0 {
    } else {
      assert s[n - 1] == s[..n][n - 1] == t[..n][n - 1] == t[n - 1];
      assert s[..n - 1] == s[..n][..n - 1] == t[..n][..n - 1] == t[..n - 1];
      TrimEndOf(s, t, n - 1);
    }
  }

  // ---- spellings ----

  /** The text without repeated slashes. */
  function Canon(s: string): (r: string)
    ensures |r| <= |s| && (s == "" <==> r == "") && (s != "" ==> r[|r| - 1] == s[|s| - 1])
  {
    if s == "" then ""
    else
      var n := |s| - 1;
      if s[n] == '/' && n > 0 && s[n - 1] == '/' then Canon(s[..n]) else Canon(s[..n]) + [s[n]]
  }

  lemma {:induction false} CanonTwice(s: string)
    ensures Canon(Canon(s)) == Canon(s)
  {
    if s == "" {
    } else {
      var n := |s| - 1;
      CanonTwice(s[..n]);
      var c := Canon(s[..n]);
      assert (c + [s[n]])[..|c|] == c;
    }
  }

  lemma {:induction false} CanonName(s: string, n: nat)
    requires n <= |s| && forall i | n <= i < |s| :: s[i] != '/'
    ensures Canon(s) == Canon(s[..n]) + s[n..]
    decreases |s|
  {
    if n == |s| {
      assert s[..n] == s;
    } else {
      var m := |s| - 1;
      CanonName(s[..m], n);
      assert s[..m][..n] == s[..n] && s[..m][n..] + [s[m]] == s[n..];
    }
  }

  lemma {:induction false} CanonSlashes(s: string, m: nat, n: nat)
    requires m < n <= |s| && (m > 0 ==> s[m - 1] != '/') && forall i | m <= i < n :: s[i] == '/'
    ensures Canon(s[..n]) == Canon(s[..m]) + "/"
    decreases n
  {
    assert s[..n][..n - 1] == s[..n - 1];
    if n == m + 1 {
    } else {
      CanonSlashes(s, m, n - 1);
    }
  }

  /** The directory of a path, whatever its spelling. */
  lemma CanonParent(t: string)
    requires t != "" && t[|t| - 1] != '/'
    ensures ParentText(Canon(t)) == Canon(ParentText(t)) && |Canon(ParentText(t))| < |Canon(t)|
  {
    var n := NameStart(t, |t|);
    var m := TrimEnd(t, n);
    CanonName(t, n);
    if m < n {
      CanonSlashes(t, m, n);
    }
    CanonOfParts(Canon(t[..m]), m < n, t[n..]);
  }

  /** The directory of a text made of parts without repeated slashes. */
  lemma CanonOfParts(up: string, slash: bool, name: string)
    requires name != "" && '/' !in name && (up != "" ==> slash && up[|up| - 1] != '/')
    ensures var c := up + (if slash then "/" else "") + name; ParentText(c) == up
  {
    var c := up + (if slash then "/" else "") + name;
    var r := |c| - |name|;
    assert forall i | r <= i < |c| :: c[i] == name[i - r];
    NameStartIs(c, |c|, r);
    TrimEndIs(c, r, |up|);
    assert c[..|up|] == up;
  }

  lemma {:induction false} NameStartIs(s: string, n: nat, r: nat)
    requires r <= n <= |s| && (r > 0 ==> s[r - 1] == '/') && forall i | r <= i < n :: s[i] != '/'
    ensures NameStart(s, n) == r
    decreases n
  {
    if n == r {
    } else {
      NameStartIs(s, n - 1, r);
    }
  }

  lemma {:induction false} TrimEndIs(s: string, n: nat, r: nat)
    requires r <= n <= |s| && (r > 0 ==> s[r - 1] != '/') && forall i | r <= i < n :: s[i] == '/'
    ensures TrimEnd(s, n) == r
    decreases n
  {
    if n == r {
    } else {
      TrimEndIs(s, n - 1, r);
    }
  }

  // ---- the tree ----

  predicate There(nodes: Nodes, t: string) {
    Canon(t) in nodes
  }

  predicate IsDirectory(nodes: Nodes, t: string) {
    t == "" || (There(nodes, t) && nodes[Canon(t)] == Directory)
  }

  predicate Fits(nodes: Nodes, t: string) {
    t != "" && t[|t| - 1] != '/' && Canon(t) == t && IsDirectory(nodes, ParentText(t))
  }

  ghost predicate ValidNodes(nodes: Nodes) {
    forall t {:trigger Fits(nodes, t)} | t in nodes :: Fits(nodes, t)
  }

  /** What exists is in a directory. */
  lemma InDirectory(nodes: Nodes, t: string)
    requires ValidNodes(nodes) && There(nodes, t) && t != "" && t[|t| - 1] != '/'
    ensures IsDirectory(nodes, ParentText(t))
  {
    assert Fits(nodes, Canon(t));
    CanonParent(t);
    CanonTwice(ParentText(t));
  }

  /** The directories to create for t to exist, parents first. */
  function Missing(nodes: Nodes, t: string): seq<string>
    decreases |t|
  {
    if t == "" || There(nodes, t) then [] else Missing(nodes, ParentText(t)) + [t]
  }

  /** Length of the longest part of t that exists. */
  function Existing(nodes: Nodes, t: string): (r: nat)
    ensures r <= |t|
    decreases |t|
  {
    if t == "" || There(nodes, t) then |t| else Existing(nodes, ParentText(t))
  }

  /** The nodes with more directories. */
  function WithDirectories(nodes: Nodes, ts: seq<string>): Nodes {
    if ts == [] then nodes else WithDirectories(nodes, ts[..|ts| - 1])[Canon(ts[|ts| - 1]) := Directory]
  }

  function Canons(ts: seq<string>): set<string> {
    set t | t in ts :: Canon(t)
  }

  lemma {:induction false} WithKeeps(nodes: Nodes, ts: seq<string>)
    ensures WithDirectories(nodes, ts).Keys == nodes.Keys + Canons(ts)
    ensures forall t | t in Canons(ts) :: WithDirectories(nodes, ts)[t] == Directory
    ensures forall t | t in nodes && t !in Canons(ts) :: WithDirectories(nodes, ts)[t] == nodes[t]
  {
    if ts == [] {
    } else {
      WithKeeps(nodes, ts[..|ts| - 1]);
      assert ts == ts[..|ts| - 1] + [ts[|ts| - 1]];
      assert Canons(ts) == Canons(ts[..|ts| - 1]) + {Canon(ts[|ts| - 1])};
    }
  }

  /** Whatever is created, the ancestors of a directory are directories. */
  lemma {:induction false} AncestorsAreDirectories(nodes: Nodes, t: string, k: nat)
    requires ValidNodes(nodes) && IsDirectory(nodes, t) && (t != "" ==> t[|t| - 1] != '/')
    requires k <= |t| && TrimEnd(t, k) == k && (k < |t| ==> t[k] == '/')
    ensures IsDirectory(nodes, t[..k])
    decreases |t|
  {
    if k == |t| {
      assert t[..k] == t;
    } else {
      InDirectory(nodes, t);
      BelowParent(t, k);
      AncestorsAreDirectories(nodes, ParentText(t), k);
    }
  }

  /** A beginning of t that ends at the end of a name is a beginning of its directory. */
  lemma BelowParent(t: string, k: nat)
    requires k < |t| && TrimEnd(t, k) == k && t[k] == '/'
    ensures var up := ParentText(t);
            && k <= |up| && up[..k] == t[..k] && TrimEnd(up, k) == k
            && (k < |up| ==> up[k] == '/') && (up != "" ==> up[|up| - 1] != '/')
  {
    assert NameStart(t, |t|) > k by {
      assert t[k] == '/';
    }
    var p := ParentLen(t, |t|);
    assert k > 0 ==> t[k - 1] != '/';
    assert k <= p;
    assert ParentText(t)[..k] == t[..k];
    TrimEndOf(t, ParentText(t), k);
  }

  lemma MkdirValid(nodes: Nodes, t: string)
    requires ValidNodes(nodes) && t != "" && t[|t| - 1] != '/' && !There(nodes, t) && IsDirectory(nodes, ParentText(t))
    ensures ValidNodes(nodes[Canon(t) := Directory])
  {
    var after := nodes[Canon(t) := Directory];
    FitsNew(nodes, t);
    forall u | u in after ensures Fits(after, u) {
      if u == Canon(t) {
        FitsMore(nodes, Canon(t), u);
      } else {
        assert Fits(nodes, u);
        FitsMore(nodes, Canon(t), u);
      }
    }
  }

  lemma FitsNew(nodes: Nodes, t: string)
    requires t != "" && t[|t| - 1] != '/' && IsDirectory(nodes, ParentText(t))
    ensures Fits(nodes, Canon(t))
  {
    CanonTwice(t);
    CanonParent(t);
    CanonTwice(ParentText(t));
  }

  lemma FitsMore(nodes: Nodes, c: string, u: string)
    requires c !in nodes && Fits(nodes, u)
    ensures Fits(nodes[c := Directory], u)
  {
  }

  /** The longest existing part of t is a directory. */
  predicate Reachable(nodes: Nodes, t: string) {
    IsDirectory(nodes, t[..Existing(nodes, t)])
  }

  /** The longest existing part ends at the end of a name. */
  lemma {:induction false} ExistingCut(nodes: Nodes, t: string)
    requires t != "" ==> t[|t| - 1] != '/'
    ensures var e := Existing(nodes, t);
            && (e > 0 ==> There(nodes, t[..e]) && t[e - 1] != '/' && (e < |t| ==> t[e] == '/'))
            && (e == |t| <==> t == "" || There(nodes, t))
    decreases |t|
  {
    if t == "" || There(nodes, t) {
      assert t[..|t|] == t;
    } else {
      var up := ParentText(t);
      ExistingCut(nodes, up);
      var e := Existing(nodes, up);
      assert t[..e] == up[..e];
    }
  }

  /** Whether what is missing of t can be created depends on its parent. */
  lemma ReachableParent(nodes: Nodes, t: string)
    requires t != "" && !There(nodes, t)
    ensures Reachable(nodes, t) <==> Reachable(nodes, ParentText(t))
  {
    var up := ParentText(t);
    var e := Existing(nodes, up);
    assert t[..e] == up[..e];
  }

  /** No part of t that ends at the end of a name exists beyond the longest existing one. */
  lemma {:induction false} ExistingLongest(nodes: Nodes, t: string, k: nat)
    requires k <= |t| && TrimEnd(t, k) == k && (k < |t| ==> t[k] == '/') && Existing(nodes, t) < k
    ensures !There(nodes, t[..k])
    decreases |t|
  {
    if k == |t| {
      assert t[..k] == t;
    } else {
      BelowParent(t, k);
      ExistingLongest(nodes, ParentText(t), k);
    }
  }

  /** The first k characters of t end at the end of a name. */
  predicate NameEnd(t: string, k: nat) {
    0 < k <= |t| && t[k - 1] != '/' && (k < |t| ==> t[k] == '/')
  }

  /** What is missing of t is each of its beginnings, ended at a name, that does not exist. */
  lemma {:induction false} MissingExactly(nodes: Nodes, t: string, k: nat)
    requires ValidNodes(nodes) && NameEnd(t, k) && t[|t| - 1] != '/'
    ensures t[..k] in Missing(nodes, t) <==> !There(nodes, t[..k])
    decreases |t|
  {
    if k == |t| {
      assert t[..k] == t;
    } else {
      var up := ParentText(t);
      assert TrimEnd(t, k) == k;
      BelowParent(t, k);
      if There(nodes, t) {
        InDirectory(nodes, t);
        AncestorsAreDirectories(nodes, up, k);
      } else {
        MissingExactly(nodes, up, k);
        assert |t[..k]| < |t|;
      }
    }
  }

  /** Parents come first, and there is nothing else. */
  lemma {:induction false} MissingInOrder(nodes: Nodes, t: string)
    requires t != "" ==> t[|t| - 1] != '/'
    ensures var ms := Missing(nodes, t);
            && (forall i | 0 <= i < |ms| :: NameEnd(t, |ms[i]|) && ms[i] == t[..|ms[i]|])
            && (forall i, j | 0 <= i < j < |ms| :: |ms[i]| < |ms[j]|)
    decreases |t|
  {
    if t == "" || There(nodes, t) {
    } else {
      var up := ParentText(t);
      MissingInOrder(nodes, up);
      assert forall i | 0 <= i < |Missing(nodes, up)| :: |Missing(nodes, up)[i]| <= |up| < |t|;
      assert t[..|t|] == t;
    }
  }

  predicate IsFile(nodes: Nodes, t: string) {
    There(nodes, t) && nodes[Canon(t)] == File
  }

  /** t is below the directory or the file u, or is it. */
  predicate Below(t: string, u: string) {
    && u != "" && u <= t && u[|u| - 1] != '/' && t[|t| - 1] != '/'
    && (|u| < |t| ==> t[|u|] == '/')
  }

  lemma NotBelowFile(nodes: Nodes, t: string, file: string)
    requires ValidNodes(nodes) && IsFile(nodes, file) && Below(t, file)
    ensures !IsDirectory(nodes, t)
  {
    if IsDirectory(nodes, t) {
      assert t[..|file|] == file && TrimEnd(t, |file|) == |file|;
      AncestorsAreDirectories(nodes, t, |file|);
    }
  }

  /** What is below a file cannot be created. */
  lemma FileBlocks(nodes: Nodes, t: string, file: string)
    requires ValidNodes(nodes) && IsFile(nodes, file) && Below(t, file)
    ensures !Reachable(nodes, t)
  {
    var e := Existing(nodes, t);
    ExistingCut(nodes, t);
    assert t[..|file|] == file && TrimEnd(t, |file|) == |file|;
    if e < |file| {
      ExistingLongest(nodes, t, |file|);
    }
    assert t[..e][..|file|] == file;
    NotBelowFile(nodes, t[..e], file);
  }

  datatype Errno = NoError | NoEntry | OtherError

  class FileSystem {
    const refuses: nat -> bool
    var nodes: Nodes
    var clock: nat
    /** directories created, and directories whose owner and label have been set, in order */
    var created: seq<string>
    var owned: seq<string>

    constructor (refuses: nat -> bool, nodes: Nodes)
      ensures this.refuses == refuses && this.nodes == nodes && created == [] && owned == []
    {
      this.refuses, this.nodes, clock, created, owned := refuses, nodes, 0, [], [];
    }

    ghost predicate Sound()
      reads this
    {
      ValidNodes(nodes)
    }

    /** A call has been refused since the clock was c. */
    ghost predicate RefusedSince(c: nat)
      reads this
    {
      exists n | c <= n < clock :: refuses(n)
    }

    /** stat */
    method Stat(s: string) returns (rc: int, errno: Errno, kind: Kind)
      modifies this`clock
      ensures clock == old(clock) + 1 && (rc == 0 || rc == -1)
      ensures rc == 0 ==>
                if Trim(s) == "" then kind == Directory else There(nodes, Trim(s)) && kind == nodes[Canon(Trim(s))]
      ensures rc < 0 && errno == NoEntry ==> !There(nodes, Trim(s)) && Trim(s) != "" && Reachable(nodes, Trim(s))
      ensures rc < 0 && errno != NoEntry && (Trim(s) == "" || There(nodes, Trim(s)) || Reachable(nodes, Trim(s))) ==>
                RefusedSince(old(clock))
      ensures rc < 0 && (Trim(s) == "" || There(nodes, Trim(s))) ==> errno != NoEntry
    {
      var t := Trim(s);
      clock := clock + 1;
      if refuses(clock - 1) {
        return -1, OtherError, Directory;
      }
      if t == "" {
        return 0, NoError, Directory;
      }
      if There(nodes, t) {
        return 0, NoError, nodes[Canon(t)];
      }
      return -1, if Reachable(nodes, t) then NoEntry else OtherError, Directory;
    }

    /** mkdir */
    method Mkdir(s: string) returns (rc: int)
      requires Sound()
      modifies this`clock, this`nodes, this`created
      ensures Sound() && clock == old(clock) + 1
      ensures if rc == 0 then
                && Trim(s) != "" && !There(old(nodes), Trim(s)) && IsDirectory(old(nodes), ParentText(Trim(s)))
                && nodes == old(nodes)[Canon(Trim(s)) := Directory] && created == old(created) + [Trim(s)]
              else rc == -1 && nodes == old(nodes) && created == old(created)
      ensures rc < 0 && Trim(s) != "" && !There(nodes, Trim(s)) && IsDirectory(nodes, ParentText(Trim(s))) ==>
                RefusedSince(old(clock))
    {
      var t := Trim(s);
      clock := clock + 1;
      if refuses(clock - 1) {
        return -1;
      }
      if t == "" || There(nodes, t) || !IsDirectory(nodes, ParentText(t)) {
        return -1;
      }
      MkdirValid(nodes, t);
      nodes, created := nodes[Canon(t) := Directory], created + [t];
      return 0;
    }

    /** chown and setxattr */
    method Own(s: string)
      modifies this`owned
      ensures owned == old(owned) + [Trim(s)]
    {
      owned := owned + [Trim(s)];
    }
  }
}
