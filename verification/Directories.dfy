/** ensure_directory of red-wrap and make_directories of red-conf: creating a directory with the
    directories that lead to it. */
module Directories {
  import opened Strings
  import opened FileTree

  /** The buffer holds the text t as a C string, slashes at its end being ignored. */
  ghost predicate Holds(buffer: string, t: string) {
    t <= CStr(buffer) && Trim(CStr(buffer)) == t
  }

  /** Cuts the text of the buffer at the directory of its first length characters. */
  lemma CutAt(buffer: string, t: string, p: nat)
    requires Holds(buffer, t) && t != "" && p == ParentLen(t, |t|) && p > 0
    ensures p < |t| && t[p] == '/' && t[p] == buffer[p]
    ensures Holds(buffer[p := '\0'], ParentText(t))
  {
    var cut := buffer[p := '\0'];
    var c := CStr(buffer);
    assert t[|t| - 1] != '/' by { assert c[..|t|] == t; }
    assert cut[..p] == c[..p] == t[..p];
    CStrIs(cut, p);
    TrimEndOf(t, t[..p], p);
    assert Trim(t[..p]) == t[..p];
  }

  // ---- red-wrap ----

  /** The created directories once k of the missing ones have been made. */
  ghost predicate SomeMade(before: Nodes, after: Nodes, created: seq<string>, now: seq<string>, t: string) {
    exists k: nat :: Made(before, after, created, now, t, k)
  }

  ghost predicate AllMade(before: Nodes, after: Nodes, created: seq<string>, now: seq<string>, t: string) {
    Made(before, after, created, now, t, |Missing(before, t)|)
  }

  ghost predicate Made(before: Nodes, after: Nodes, created: seq<string>, now: seq<string>, t: string, k: nat) {
    && k <= |Missing(before, t)|
    && after == WithDirectories(before, Missing(before, t)[..k])
    && now == created + Missing(before, t)[..k]
  }

  lemma MadeNothing(nodes: Nodes, created: seq<string>, t: string)
    ensures SomeMade(nodes, nodes, created, created, t)
    ensures Missing(nodes, t) == [] ==> AllMade(nodes, nodes, created, created, t)
  {
    assert Missing(nodes, t)[..0] == [];
    assert created + [] == created;
    assert Made(nodes, nodes, created, created, t, 0);
  }

  /** What is made for the parent is the beginning of what is made. */
  lemma MadeAbove(before: Nodes, after: Nodes, created: seq<string>, now: seq<string>, t: string, k: nat)
    requires t != "" && !There(before, t) && Made(before, after, created, now, ParentText(t), k)
    ensures Made(before, after, created, now, t, k)
  {
    assert Missing(before, t)[..k] == Missing(before, ParentText(t))[..k];
  }

  /** The last one. */
  lemma MadeLast(before: Nodes, after: Nodes, created: seq<string>, now: seq<string>, t: string)
    requires t != "" && !There(before, t)
    requires AllMade(before, after, created, now, ParentText(t))
    ensures AllMade(before, after[Canon(t) := Directory], created, now + [t], t)
  {
    var up, all := Missing(before, ParentText(t)), Missing(before, t);
    assert up[..|up|] == up && all[..|all|] == all && all == up + [t];
    assert all[..|all| - 1] == up;
    assert created + up + [t] == created + all;
  }

  /** Once all is made, t is a directory if and only if its longest existing part was one. */
  lemma MadeDirectory(before: Nodes, after: Nodes, created: seq<string>, now: seq<string>, t: string)
    requires ValidNodes(before) && ValidNodes(after) && AllMade(before, after, created, now, t)
    requires t != "" ==> t[|t| - 1] != '/'
    ensures IsDirectory(after, t) <== Reachable(before, t)
    ensures IsDirectory(after, t) ==> Reachable(before, t)
  {
    var missing, e := Missing(before, t), Existing(before, t);
    assert missing[..|missing|] == missing;
    WithKeeps(before, missing);
    ExistingCut(before, t);
    if t == "" || There(before, t) {
      assert missing == [] && t[..e] == t;
    } else {
      assert missing[|missing| - 1] == t;
      if IsDirectory(after, t) && e > 0 {
        assert TrimEnd(t, e) == e;
        AncestorsAreDirectories(after, t, e);
        NotMissing(before, t, t[..e]);
      }
    }
  }

  lemma {:induction false} NotMissing(nodes: Nodes, t: string, u: string)
    requires There(nodes, u)
    ensures Canon(u) !in Canons(Missing(nodes, t))
    decreases |t|
  {
    if t == "" || There(nodes, t) {
    } else {
      NotMissing(nodes, ParentText(t), u);
    }
  }

  lemma {:induction false} MissingShorter(nodes: Nodes, t: string)
    requires t != "" ==> t[|t| - 1] != '/'
    ensures forall u | u in Canons(Missing(nodes, t)) :: |u| <= |Canon(t)|
    decreases |t|
  {
    if t == "" || There(nodes, t) {
    } else {
      MissingShorter(nodes, ParentText(t));
      CanonParent(t);
    }
  }

  /** What is not there is still not there once its parent is made. */
  lemma StillMissing(before: Nodes, after: Nodes, created: seq<string>, now: seq<string>, t: string)
    requires t != "" && t[|t| - 1] != '/' && !There(before, t)
    requires AllMade(before, after, created, now, ParentText(t))
    ensures !There(after, t)
  {
    var missing := Missing(before, ParentText(t));
    assert missing[..|missing|] == missing;
    WithKeeps(before, missing);
    MissingShorter(before, ParentText(t));
    CanonParent(t);
  }

  /** The first part of create_directory: the directory of t exists or is created. */
  method EnsureParent(fs: FileSystem, path: array<char>, lpar: nat, ghost t: string) returns (rc: int)
    requires fs.Sound() && t != "" && lpar == ParentLen(t, |t|) > 0 && Holds(path[..], t)
    modifies fs, path
    ensures fs.Sound() && path[..] == old(path[..]) && fs.owned == old(fs.owned)
    ensures var up := ParentText(t);
            if rc >= 0 then
              && rc == Existing(old(fs.nodes), up)
              && AllMade(old(fs.nodes), fs.nodes, old(fs.created), fs.created, up)
            else SomeMade(old(fs.nodes), fs.nodes, old(fs.created), fs.created, up)
    ensures old(fs.clock) <= fs.clock
            && (rc < 0 && Reachable(old(fs.nodes), ParentText(t)) ==> fs.RefusedSince(old(fs.clock)))
    decreases lpar, 1
  {
    ghost var buffer, up := path[..], ParentText(t);
    MadeNothing(fs.nodes, fs.created, up);
    CutAt(buffer, t, lpar);
    path[lpar] := '\0';
    assert path[..] == buffer[lpar := '\0'];
    var errno, kind;
    rc, errno, kind := fs.Stat(CStr(path[..]));
    path[lpar] := '/';
    assert path[..] == buffer;
    if rc == 0 {
      assert There(fs.nodes, up) && Missing(fs.nodes, up) == [];
      return lpar;
    }
    if errno != NoEntry {
      return;
    }
    path[lpar] := '\0';
    assert path[..] == buffer[lpar := '\0'];
    rc := CreateDirectory(fs, path, lpar, up);
    path[lpar] := '/';
    assert path[..] == buffer;
  }

  /** create_directory: creates the missing directories, parents first, and returns the length of what
      existed. If no call is refused, it succeeds exactly when something is missing and the longest existing
      part is a directory; on failure only the first missing directories have been created. The buffer is
      left as it was. */
  method CreateDirectory(fs: FileSystem, path: array<char>, length: nat, ghost t: string) returns (rc: int)
    requires fs.Sound() && length == |t| && t != "" && Holds(path[..], t)
    modifies fs, path
    ensures fs.Sound() && path[..] == old(path[..]) && fs.owned == old(fs.owned)
    ensures if rc >= 0 then
              && !There(old(fs.nodes), t)
              && rc == Existing(old(fs.nodes), t)
              && AllMade(old(fs.nodes), fs.nodes, old(fs.created), fs.created, t)
            else SomeMade(old(fs.nodes), fs.nodes, old(fs.created), fs.created, t)
    ensures rc >= 0 ==> Reachable(old(fs.nodes), t)
    ensures old(fs.clock) <= fs.clock
    ensures rc < 0 && !There(old(fs.nodes), t) && Reachable(old(fs.nodes), t) ==> fs.RefusedSince(old(fs.clock))
    decreases length, 0
  {
    ghost var nodes, created, up := fs.nodes, fs.created, ParentText(t);
    HeldText(path[..], t);
    var lpar := ParentLength(path, length, t);
    var lroot: int := 0;
    if lpar > 0 {
      lroot := EnsureParent(fs, path, lpar, t);
      if lroot < 0 {
        PartlyMade(nodes, fs.nodes, created, fs.created, t);
        if !There(nodes, t) { ReachableParent(nodes, t); }
        return lroot;
      }
    } else {
      MadeNothing(nodes, created, up);
    }
    assert AllMade(nodes, fs.nodes, created, fs.created, up);
    rc := MakeLast(fs, path, t, nodes, created);
    if rc == 0 {
      rc := lroot;
    }
  }

  /** The last part of create_directory: t itself. */
  method MakeLast(fs: FileSystem, path: array<char>, ghost t: string, ghost before: Nodes, ghost created: seq<string>)
    returns (rc: int)
    requires fs.Sound() && ValidNodes(before) && t != "" && Holds(path[..], t)
    requires AllMade(before, fs.nodes, created, fs.created, ParentText(t))
    modifies fs
    ensures fs.Sound() && fs.owned == old(fs.owned) && old(fs.clock) <= fs.clock
    ensures if rc == 0 then
              !There(before, t) && Reachable(before, t) && AllMade(before, fs.nodes, created, fs.created, t)
            else rc == -1 && SomeMade(before, fs.nodes, created, fs.created, t)
    ensures rc < 0 && !There(before, t) && Reachable(before, t) ==> fs.RefusedSince(old(fs.clock))
  {
    ghost var after, now, up := fs.nodes, fs.created, ParentText(t);
    HeldText(path[..], t);
    ParentMade(before, after, created, now, t);
    assert SomeMade(before, after, created, now, up);
    PartlyMade(before, after, created, now, t);
    rc := fs.Mkdir(CStr(path[..]));
    if rc == 0 {
      Unmade(before, after, t, up);
      MadeLast(before, after, created, now, t);
    }
  }

  /** The parent being made, t can be created exactly when it is missing and reachable. */
  lemma ParentMade(before: Nodes, after: Nodes, created: seq<string>, now: seq<string>, t: string)
    requires ValidNodes(before) && ValidNodes(after) && t != "" && t[|t| - 1] != '/'
    requires AllMade(before, after, created, now, ParentText(t))
    ensures !There(before, t) ==> !There(after, t) && (IsDirectory(after, ParentText(t)) <==> Reachable(before, t))
  {
    if !There(before, t) {
      StillMissing(before, after, created, now, t);
      ReachableParent(before, t);
      MadeDirectory(before, after, created, now, ParentText(t));
    }
  }

  lemma HeldText(buffer: string, t: string)
    requires Holds(buffer, t)
    ensures |t| <= |buffer| && buffer[..|t|] == t && (t != "" ==> t[|t| - 1] != '/')
  {
    assert CStr(buffer)[..|t|] == t;
  }

  /** What has been made for the parent, when t exists or not. */
  lemma PartlyMade(before: Nodes, after: Nodes, created: seq<string>, now: seq<string>, t: string)
    requires ValidNodes(before) && t != "" && t[|t| - 1] != '/' && SomeMade(before, after, created, now, ParentText(t))
    ensures SomeMade(before, after, created, now, t)
  {
    var k: nat :| Made(before, after, created, now, ParentText(t), k);
    if There(before, t) {
      InDirectory(before, t);
      assert Missing(before, ParentText(t)) == [];
      assert after == before && now == created + [];
      MadeNothing(before, created, t);
      assert now == created;
    } else {
      MadeAbove(before, after, created, now, t, k);
    }
  }

  /** What can be created now did not exist before. */
  lemma Unmade(before: Nodes, after: Nodes, t: string, up: string)
    requires after == WithDirectories(before, Missing(before, up)[..|Missing(before, up)|]) && !There(after, t)
    ensures !There(before, t)
  {
    WithKeeps(before, Missing(before, up)[..|Missing(before, up)|]);
  }

  /** The two loops that look for the directory of the first length characters. */
  method ParentLength(path: array<char>, length: nat, ghost t: string) returns (lpar: nat)
    requires length == |t| <= path.Length && t == path[..length]
    ensures lpar == ParentLen(t, length)
  {
    lpar := length;
    while lpar > 0 && path[lpar - 1] != '/'
      invariant lpar <= length && NameStart(t, lpar) == NameStart(t, length)
    {
      assert t[lpar - 1] == path[lpar - 1];
      lpar := lpar - 1;
    }
    assert lpar > 0 ==> t[lpar - 1] == path[lpar - 1];
    while lpar > 0 && path[lpar - 1] == '/'
      invariant lpar <= length && TrimEnd(t, lpar) == ParentLen(t, length)
    {
      assert t[lpar - 1] == path[lpar - 1];
      lpar := lpar - 1;
    }
    assert lpar > 0 ==> t[lpar - 1] == path[lpar - 1];
  }

  /** The directories from t up to those longer than lroot, children first. */
  function Upward(t: string, lroot: nat): seq<string>
    decreases |t|
  {
    if t != "" && ParentLen(t, |t|) > lroot then [t] + Upward(ParentText(t), lroot) else [t]
  }

  lemma UpwardSteps(before: seq<string>, t: string, lroot: nat)
    requires t != ""
    ensures before + Upward(t, lroot) ==
            if ParentLen(t, |t|) > lroot then before + [t] + Upward(ParentText(t), lroot) else before + [t]
  {
  }

  /** The last part of setup_directory: the directory of t, seen through the cut buffer. */
  method SetupParent(fs: FileSystem, path: array<char>, lpar: nat, lroot: nat, ghost t: string)
    requires t != "" && lpar == ParentLen(t, |t|) > 0 && Holds(path[..], t)
    modifies fs`owned, path
    ensures path[..] == old(path[..])
    ensures fs.owned == old(fs.owned) + Upward(ParentText(t), lroot)
    decreases lpar, 1
  {
    ghost var buffer := path[..];
    CutAt(buffer, t, lpar);
    path[lpar] := '\0';
    assert path[..] == buffer[lpar := '\0'];
    SetupDirectory(fs, path, lpar, lroot, ParentText(t));
    path[lpar] := '/';
    assert path[..] == buffer;
  }

  /** setup_directory: sets the directories longer than lroot, children first. */
  method SetupDirectory(fs: FileSystem, path: array<char>, length: nat, lroot: nat, ghost t: string)
    requires length == |t| && t != "" && Holds(path[..], t)
    modifies fs`owned, path
    ensures path[..] == old(path[..])
    ensures fs.owned == old(fs.owned) + Upward(t, lroot)
    decreases length, 0
  {
    UpwardSteps(fs.owned, t, lroot);
    fs.Own(CStr(path[..]));
    HeldText(path[..], t);
    var lpar := ParentLength(path, length, t);
    if lpar > lroot {
      SetupParent(fs, path, lpar, lroot, t);
    }
  }

  function Reverse(ts: seq<string>): seq<string> {
    if ts == [] then [] else [ts[|ts| - 1]] + Reverse(ts[..|ts| - 1])
  }

  /** What is set up is what has been created, in reverse order. */
  lemma {:induction false} SetUpIsCreated(nodes: Nodes, t: string)
    requires ValidNodes(nodes) && t != "" && !There(nodes, t)
    ensures Upward(t, Existing(nodes, t)) == Reverse(Missing(nodes, t))
    decreases |t|
  {
    var up := ParentText(t);
    if up == "" || There(nodes, up) {
      assert Missing(nodes, t) == [t];
      assert Reverse([t]) == [t] + Reverse([]);
    } else {
      ExistingShorter(nodes, up);
      SetUpIsCreated(nodes, up);
      assert Missing(nodes, t)[..|Missing(nodes, t)| - 1] == Missing(nodes, up);
    }
  }

  lemma ExistingShorter(nodes: Nodes, t: string)
    requires t != "" && !There(nodes, t)
    ensures Existing(nodes, t) < |t|
  {
  }

  /** ensure_directory: on success, exactly the directories that have been created, parents first, are
      set up, children first. */
  method EnsureDirectory(fs: FileSystem, path: array<char>, length: nat) returns (rc: int)
    requires fs.Sound() && length == |CStr(path[..])|
    modifies fs, path
    ensures fs.Sound() && path[..] == old(path[..])
    ensures var t := Trim(CStr(old(path[..])));
            && (t == "" ==> rc == -1)
            && SomeMade(old(fs.nodes), fs.nodes, old(fs.created), fs.created, t)
            && (rc >= 0 ==>
                  && AllMade(old(fs.nodes), fs.nodes, old(fs.created), fs.created, t)
                  && fs.owned == old(fs.owned) + Reverse(fs.created[|old(fs.created)|..]))
            && (rc < 0 ==> fs.owned == old(fs.owned))
            && (rc >= 0 ==> t != "" && !There(old(fs.nodes), t) && Reachable(old(fs.nodes), t))
            && (rc < 0 && t != "" && !There(old(fs.nodes), t) && Reachable(old(fs.nodes), t) ==>
                  fs.RefusedSince(old(fs.clock)))
  {
    ghost var t, nodes, created := Trim(CStr(path[..])), fs.nodes, fs.created;
    MadeNothing(nodes, created, t);
    var lenpath := TrimmedLength(path, length);
    if lenpath == 0 {
      return -1;
    }
    rc := CreateDirectory(fs, path, lenpath, t);
    if rc >= 0 {
      SetupDirectory(fs, path, lenpath, rc, t);
      SetUpIsCreated(nodes, t);
      AllCreated(nodes, fs.nodes, created, fs.created, t);
      rc := 0;
    }
  }

  lemma AllCreated(before: Nodes, after: Nodes, created: seq<string>, now: seq<string>, t: string)
    requires AllMade(before, after, created, now, t)
    ensures now[|created|..] == Missing(before, t)
    ensures SomeMade(before, after, created, now, t)
  {
    assert Missing(before, t)[..|Missing(before, t)|] == Missing(before, t);
  }

  /** Removes the slashes at the end. */
  method TrimmedLength(path: array<char>, length: nat) returns (r: nat)
    requires length == |CStr(path[..])|
    ensures r == |Trim(CStr(path[..]))| && Holds(path[..], CStr(path[..])[..r])
    ensures CStr(path[..])[..r] == Trim(CStr(path[..]))
  {
    ghost var s := CStr(path[..]);
    r := length;
    while r > 0 && path[r - 1] == '/'
      invariant r <= length && TrimEnd(s, r) == TrimEnd(s, |s|)
    {
      assert s[r - 1] == path[r - 1];
      r := r - 1;
    }
    assert r > 0 ==> s[r - 1] == path[r - 1];
  }
}
