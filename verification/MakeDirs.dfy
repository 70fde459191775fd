/** make_directories of red-conf: the same creation as create_directory, by a loop from an existing base. */
module MakeDirs {
  import opened Wrappers
  import opened Strings
  import opened FileTree
  import opened Directories

  /** Length of the part that must exist: None when the arguments are refused. A relative path without
      base is refused, so that the source's search of its first name is never reached. */
  function BaseLength(path: string, base: nat, length: nat): (r: Option<nat>)
    requires base <= |path| && length <= |path|
    ensures r.Some? ==>
              0 < r.value <= length && (r.value == length || path[r.value] == '/' || (r.value == 1 && path[0] == '/'))
  {
    var idx := if base > 0 && path[base - 1] == '/' then base - 1 else base;
    if length == 0 || idx > length || (idx < length && path[idx] != '/') then None
    else if idx > 0 then Some(idx)
    else Some(1)
  }

  /** The length reported as existing. */
  function Reported(nodes: Nodes, t: string, base: nat): nat {
    if Existing(nodes, t) < base then base else Existing(nodes, t)
  }

  /** idx is at the end of a name, or after the slash that starts the path. */
  predicate AtEnd(path: string, idx: nat, length: nat) {
    0 < idx <= length <= |path| && (idx == length || path[idx] == '/' || (idx == 1 && path[0] == '/'))
  }

  /** The name after idx, and the directory in which it is. */
  lemma NextName(path: string, idx: nat, start: nat, end: nat, length: nat)
    requires AtEnd(path, idx, length) && idx <= start < end <= length
    requires (forall i | idx <= i < start :: path[i] == '/') && (forall i | start <= i < end :: path[i] != '/')
    ensures Trim(path[..end]) == path[..end] && ParentText(path[..end]) == Trim(path[..idx])
  {
    var t := path[..end];
    assert t[end - 1] != '/';
    assert start > 0 && path[start - 1] == '/';
    assert t[start - 1] == '/' && forall i | start <= i < end :: t[i] != '/';
    assert NameStart(t, end) == start;
    TrimEndOf(t, path[..idx], idx);
    SkipSlashes(t, idx, start);
    assert t[..TrimEnd(t, idx)] == path[..idx][..TrimEnd(t, idx)];
  }

  lemma {:induction false} SkipSlashes(t: string, idx: nat, start: nat)
    requires idx <= start <= |t| && forall i | idx <= i < start :: t[i] == '/'
    ensures TrimEnd(t, start) == TrimEnd(t, idx)
  {
    if idx >= start {
    } else {
      SkipSlashes(t, idx, start - 1);
    }
  }

  lemma {:induction false} AncestorMissing(nodes: Nodes, t: string, k: nat)
    requires ValidNodes(nodes) && (t != "" ==> t[|t| - 1] != '/')
    requires k <= |t| && TrimEnd(t, k) == k && (k < |t| ==> t[k] == '/')
    requires t[..k] != "" && !There(nodes, t[..k])
    ensures Missing(nodes, t[..k]) <= Missing(nodes, t)
    decreases |t|
  {
    if k == |t| {
      assert t[..k] == t;
    } else {
      var up := ParentText(t);
      BelowParent(t, k);
      AncestorMissing(nodes, up, k);
      if There(nodes, t) {
        InDirectory(nodes, t);
        AncestorsAreDirectories(nodes, up, k);
      }
    }
  }

  /** What is made for an ancestor is a part of what is to make. */
  lemma AncestorMade(before: Nodes, after: Nodes, created: seq<string>, now: seq<string>, t: string, k: nat)
    requires ValidNodes(before) && (t != "" ==> t[|t| - 1] != '/')
    requires k <= |t| && TrimEnd(t, k) == k && (k < |t| ==> t[k] == '/')
    requires AllMade(before, after, created, now, t[..k])
    ensures SomeMade(before, after, created, now, t)
  {
    AncestorFirst(before, t, k);
    MadeFirst(before, after, created, now, t[..k], t);
  }

  /** What is missing of an ancestor comes first. */
  lemma AncestorFirst(nodes: Nodes, t: string, k: nat)
    requires ValidNodes(nodes) && (t != "" ==> t[|t| - 1] != '/')
    requires k <= |t| && TrimEnd(t, k) == k && (k < |t| ==> t[k] == '/')
    ensures Missing(nodes, t[..k]) <= Missing(nodes, t)
  {
    if t[..k] == "" || There(nodes, t[..k]) {
    } else {
      AncestorMissing(nodes, t, k);
    }
  }

  lemma MadeFirst(before: Nodes, after: Nodes, created: seq<string>, now: seq<string>, up: string, t: string)
    requires Missing(before, up) <= Missing(before, t) && AllMade(before, after, created, now, up)
    ensures SomeMade(before, after, created, now, t)
  {
    var n := |Missing(before, up)|;
    assert Missing(before, t)[..n] == Missing(before, up)[..n];
    assert Made(before, after, created, now, t, n);
  }

  /** The text of tmp up to its zero. */
  ghost predicate Copied(tmp: string, path: string, idx: nat) {
    idx < |tmp| && idx <= |path| && tmp[..idx] == path[..idx]
  }

  /** Copies slashes, or a name. */
  method CopyRun(path: string, tmp: array<char>, idx: nat, length: nat, slashes: bool) returns (end: nat)
    requires idx <= length <= |path| && length < tmp.Length && Copied(tmp[..], path, idx)
    modifies tmp
    ensures idx <= end <= length && Copied(tmp[..], path, end)
    ensures forall i | idx <= i < end :: (path[i] == '/') == slashes
    ensures end < length ==> (path[end] == '/') != slashes
  {
    end := idx;
    while end < length && (path[end] == '/') == slashes
      invariant idx <= end <= length && Copied(tmp[..], path, end)
      invariant forall i | idx <= i < end :: (path[i] == '/') == slashes
    {
      ghost var before := tmp[..];
      tmp[end] := path[end];
      assert tmp[..][..end + 1] == before[..end] + [path[end]];
      end := end + 1;
    }
  }

  /** Ends the text of tmp. */
  method Terminate(path: string, tmp: array<char>, idx: nat)
    requires Copied(tmp[..], path, idx) && '\0' !in path[..idx]
    modifies tmp
    ensures Copied(tmp[..], path, idx) && CStr(tmp[..]) == path[..idx]
  {
    ghost var before := tmp[..];
    tmp[idx] := '\0';
    assert tmp[..][..idx] == before[..idx];
    CStrIs(tmp[..], idx);
  }

  /** cur is a directory; what was missing of it, which is nothing as long as chk is set, has been created. */
  ghost predicate Reached(before: Nodes, after: Nodes, created: seq<string>, now: seq<string>, cur: string, chk: bool) {
    && AllMade(before, after, created, now, cur)
    && IsDirectory(after, cur)
    && (chk <==> Missing(before, cur) == [])
  }

  /** Checks the directory that tmp names, or creates it once one was missing. It fails on a file or on a
      refused call. */
  method MakeOne(fs: FileSystem, tmp: array<char>, checking: bool, ghost before: Nodes, ghost created: seq<string>,
                 ghost cur: string, ghost next: string)
    returns (rc: int, chk: bool)
    requires fs.Sound() && ValidNodes(before)
    requires next != "" && CStr(tmp[..]) == next && Trim(next) == next && ParentText(next) == cur
    requires Reached(before, fs.nodes, created, fs.created, cur, checking)
    modifies fs
    ensures fs.Sound() && fs.owned == old(fs.owned)
    ensures rc == 0 || rc == -1
    ensures if rc == 0 then Reached(before, fs.nodes, created, fs.created, next, chk)
            else fs.nodes == old(fs.nodes) && fs.created == old(fs.created)
    ensures rc == 0 ==> Existing(before, next) == (if chk then |next| else Existing(before, cur))
    ensures chk ==> checking
    ensures old(fs.clock) <= fs.clock && (rc < 0 ==> fs.RefusedSince(old(fs.clock)) || IsFile(before, next))
  {
    chk := checking;
    if chk {
      var there;
      rc, there := CheckOne(fs, tmp, before, created, cur, next);
      if rc < 0 || there {
        return;
      }
      chk := false;
    } else {
      NothingBelow(before, fs.nodes, created, fs.created, next);
    }
    ghost var after, now := fs.nodes, fs.created;
    rc := fs.Mkdir(CStr(tmp[..]));
    if rc == 0 {
      MadeOne(before, after, created, now, cur, next);
    }
  }

  /** A directory created in the one reached is reached. */
  lemma MadeOne(before: Nodes, after: Nodes, created: seq<string>, now: seq<string>, cur: string, next: string)
    requires next != "" && ParentText(next) == cur && !There(after, next) && AllMade(before, after, created, now, cur)
    ensures Reached(before, after[Canon(next) := Directory], created, now + [next], next, false)
    ensures Existing(before, next) == Existing(before, cur)
  {
    Unmade(before, after, next, cur);
    MadeLast(before, after, created, now, next);
  }

  /** The check of a name as long as nothing was missing. */
  method CheckOne(fs: FileSystem, tmp: array<char>, ghost before: Nodes, ghost created: seq<string>, ghost cur: string,
                  ghost next: string)
    returns (rc: int, there: bool)
    requires fs.Sound() && next != "" && CStr(tmp[..]) == next && Trim(next) == next
    requires AllMade(before, fs.nodes, created, fs.created, cur) && Missing(before, cur) == []
    modifies fs`clock
    ensures (rc == 0 || rc == -1) && old(fs.clock) <= fs.clock
    ensures fs.nodes == before && fs.created == created
    ensures if rc < 0 then IsFile(before, next)
            else if there then Reached(before, fs.nodes, created, fs.created, next, true)
                    && Existing(before, next) == |next|
            else There(before, next) ==> fs.RefusedSince(old(fs.clock))
  {
    Unchanged(before, fs.nodes, created, fs.created, cur);
    var errno, kind;
    rc, errno, kind := fs.Stat(CStr(tmp[..]));
    if rc < 0 {
      return 0, false;
    }
    if kind == File {
      return -1, true;
    }
    MadeNothing(before, created, next);
    return 0, true;
  }

  /** What is below a directory that was missing is missing. */
  lemma NothingBelow(before: Nodes, after: Nodes, created: seq<string>, now: seq<string>, next: string)
    requires ValidNodes(before) && next != "" && next[|next| - 1] != '/'
             && AllMade(before, after, created, now, ParentText(next))
    requires Missing(before, ParentText(next)) != []
    ensures !There(after, next)
  {
    if There(before, next) { InDirectory(before, next); }
    StillMissing(before, after, created, now, next);
  }

  lemma Unchanged(before: Nodes, after: Nodes, created: seq<string>, now: seq<string>, t: string)
    requires AllMade(before, after, created, now, t) && Missing(before, t) == []
    ensures after == before && now == created
  {
    assert created + [] == created;
  }

  /** The arguments are accepted, the base and the longest existing part are directories. */
  predicate CanMake(nodes: Nodes, path: string, base: nat, length: nat)
    requires base <= |path| && length <= |path|
  {
    var start := BaseLength(path, base, length);
    start.Some? && IsDirectory(nodes, Trim(path[..start.value])) && Reachable(nodes, Trim(path[..length]))
  }

  /** make_directories: on success what was missing has been created, parents first, exactly as
      create_directory does, and the length of what existed is reported. If no call is refused, it succeeds
      exactly when the base and the longest existing part are directories. */
  method MakeDirectories(fs: FileSystem, path: string, base: nat, length: nat) returns (rc: int, existing: Option<nat>)
    requires fs.Sound() && base <= |path| && length <= |path| && '\0' !in path[..length]
    modifies fs
    ensures fs.Sound() && (rc == 0 || rc == -1) && fs.owned == old(fs.owned)
    ensures BaseLength(path, base, length) == None ==>
              rc == -1 && fs.nodes == old(fs.nodes) && fs.created == old(fs.created)
    ensures SomeMade(old(fs.nodes), fs.nodes, old(fs.created), fs.created, Trim(path[..length]))
    ensures rc == 0 ==>
              var t, start := Trim(path[..length]), BaseLength(path, base, length).value;
              && IsDirectory(old(fs.nodes), Trim(path[..start]))
              && AllMade(old(fs.nodes), fs.nodes, old(fs.created), fs.created, t)
              && IsDirectory(fs.nodes, t)
              && existing == Some(Reported(old(fs.nodes), t, start))
    ensures rc == 0 ==> CanMake(old(fs.nodes), path, base, length)
    ensures old(fs.clock) <= fs.clock
    ensures rc < 0 && CanMake(old(fs.nodes), path, base, length) ==> fs.RefusedSince(old(fs.clock))
  {
    ghost var before, created, whole := fs.nodes, fs.created, Trim(path[..length]);
    MadeNothing(before, created, whole);
    existing := None;
    var start := BaseLength(path, base, length);
    if start.None? {
      return -1, existing;
    }
    var idx := start.value;
    var tmp := CopyBase(path, idx, length);
    var there := CheckBase(fs, tmp, Trim(path[..idx]));
    if !there {
      return -1, existing;
    }
    existing := Some(idx);
    rc, existing := Advance(fs, path, tmp, idx, length, existing.value);
  }

  /** The base is a directory. */
  method CheckBase(fs: FileSystem, tmp: array<char>, ghost t: string) returns (there: bool)
    requires Trim(CStr(tmp[..])) == t
    modifies fs`clock
    ensures old(fs.clock) <= fs.clock && (there ==> IsDirectory(fs.nodes, t))
    ensures !there && IsDirectory(fs.nodes, t) ==> fs.RefusedSince(old(fs.clock))
  {
    var rc, errno, kind := fs.Stat(CStr(tmp[..]));
    there := rc == 0 && kind == Directory;
  }

  /** The copy of the base. */
  method CopyBase(path: string, idx: nat, length: nat) returns (tmp: array<char>)
    requires idx <= length <= |path| && '\0' !in path[..length]
    ensures fresh(tmp) && tmp.Length == length + 1 && Copied(tmp[..], path, idx) && CStr(tmp[..]) == path[..idx]
  {
    tmp := new char[length + 1](i requires 0 <= i <= length => if i < idx then path[i] else '\0');
    assert tmp[..][..idx] == path[..idx];
    PrefixText(path, idx, length);
    Terminate(path, tmp, idx);
  }

  lemma PrefixText(path: string, idx: nat, length: nat)
    requires idx <= length <= |path| && '\0' !in path[..length]
    ensures '\0' !in path[..idx]
  {
    assert path[..idx] == path[..length][..idx];
  }

  /** The loop has come to idx. */
  ghost predicate At(before: Nodes, after: Nodes, created: seq<string>, now: seq<string>, path: string, idx: nat,
                     start: nat, chk: bool, existing: Option<nat>)
    requires idx <= |path|
  {
    var cur := Trim(path[..idx]);
    Reached(before, after, created, now, cur, chk) && existing == Some(Reported(before, cur, start))
  }

  /** Copies the name at start, which follows idx. */
  method CopyName(path: string, tmp: array<char>, idx: nat, start: nat, length: nat) returns (end: nat)
    requires AtEnd(path, idx, length) && length < tmp.Length && '\0' !in path[..length]
    requires idx <= start < length && path[start] != '/' && (forall i | idx <= i < start :: path[i] == '/')
    requires Copied(tmp[..], path, start)
    modifies tmp
    ensures start < end && AtEnd(path, end, length) && Copied(tmp[..], path, end)
    ensures CStr(tmp[..]) == path[..end] && Trim(path[..end]) == path[..end]
            && ParentText(path[..end]) == Trim(path[..idx])
  {
    end := CopyRun(path, tmp, start, length, false);
    NextName(path, idx, start, end, length);
    PrefixText(path, end, length);
    Terminate(path, tmp, end);
  }

  /** Checks or creates the directory of the name at from, which follows idx. */
  method AdvanceOne(fs: FileSystem, path: string, tmp: array<char>, idx: nat, from: nat, length: nat, chk: bool,
                    existing: Option<nat>, ghost before: Nodes, ghost created: seq<string>, ghost start: nat)
    returns (rc: int, end: nat, chk': bool, existing': Option<nat>)
    requires fs.Sound() && ValidNodes(before) && AtEnd(path, idx, length)
    requires length < tmp.Length && '\0' !in path[..length]
    requires idx <= from < length && path[from] != '/' && (forall i | idx <= i < from :: path[i] == '/')
    requires Copied(tmp[..], path, from) && start <= idx
    requires At(before, fs.nodes, created, fs.created, path, idx, start, chk, existing)
    modifies fs, tmp
    ensures fs.Sound() && (rc == 0 || rc == -1) && fs.owned == old(fs.owned)
    ensures idx < end && AtEnd(path, end, length) && Copied(tmp[..], path, end)
    ensures if rc == 0 then At(before, fs.nodes, created, fs.created, path, end, start, chk', existing')
            else fs.nodes == old(fs.nodes) && fs.created == old(fs.created)
    ensures Trim(path[..end]) == path[..end] && old(fs.clock) <= fs.clock
    ensures rc < 0 ==> fs.RefusedSince(old(fs.clock)) || IsFile(before, path[..end])
  {
    end := CopyName(path, tmp, idx, from, length);
    rc, chk' := MakeOne(fs, tmp, chk, before, created, Trim(path[..idx]), path[..end]);
    existing' := if chk' then Some(end) else existing;
    if rc == 0 {
      AtNext(before, fs.nodes, created, fs.created, path, idx, end, start, chk', existing);
    }
  }

  /** From the name before to the name reached. */
  lemma AtNext(before: Nodes, after: Nodes, created: seq<string>, now: seq<string>, path: string, idx: nat, end: nat,
               start: nat, chk: bool, existing: Option<nat>)
    requires start <= idx < end <= |path| && Trim(path[..end]) == path[..end]
    requires existing == Some(Reported(before, Trim(path[..idx]), start))
    requires Reached(before, after, created, now, path[..end], chk)
    requires Existing(before, path[..end]) == if chk then end else Existing(before, Trim(path[..idx]))
    ensures At(before, after, created, now, path, end, start, chk, if chk then Some(end) else existing)
  {
  }

  /** The loop of make_directories, from a directory that exists. */
  method Advance(fs: FileSystem, path: string, tmp: array<char>, start: nat, length: nat, reported: nat)
    returns (rc: int, existing: Option<nat>)
    requires fs.Sound() && AtEnd(path, start, length) && length < tmp.Length && '\0' !in path[..length]
    requires Copied(tmp[..], path, start) && IsDirectory(fs.nodes, Trim(path[..start])) && reported == start
    modifies fs, tmp
    ensures fs.Sound() && (rc == 0 || rc == -1) && fs.owned == old(fs.owned)
    ensures SomeMade(old(fs.nodes), fs.nodes, old(fs.created), fs.created, Trim(path[..length]))
    ensures rc == 0 ==>
              var t := Trim(path[..length]);
              && AllMade(old(fs.nodes), fs.nodes, old(fs.created), fs.created, t)
              && IsDirectory(fs.nodes, t)
              && existing == Some(Reported(old(fs.nodes), t, start))
    ensures rc == 0 ==> Reachable(old(fs.nodes), Trim(path[..length]))
    ensures old(fs.clock) <= fs.clock
    ensures rc < 0 && Reachable(old(fs.nodes), Trim(path[..length])) ==> fs.RefusedSince(old(fs.clock))
  {
    ghost var before, created := fs.nodes, fs.created;
    var idx: nat, chk := start, true;
    existing := Some(reported);
    MadeNothing(before, created, Trim(path[..start]));
    while true
      invariant fs.Sound() && fs.owned == old(fs.owned) && old(fs.clock) <= fs.clock
      invariant start <= idx && AtEnd(path, idx, length) && Copied(tmp[..], path, idx)
      invariant At(before, fs.nodes, created, fs.created, path, idx, start, chk, existing)
      decreases length - idx
    {
      var name := CopyRun(path, tmp, idx, length, true);
      SomeAdvance(before, fs.nodes, created, fs.created, path, idx, name, length);
      if name == length {
        return 0, existing;
      }
      rc, idx, chk, existing := AdvanceOne(fs, path, tmp, idx, name, length, chk, existing, before, created, start);
      if rc < 0 {
        if IsFile(before, path[..idx]) { BlockedWhole(before, path, idx, length); }
        return;
      }
    }
  }

  /** What is made when the loop has come to idx, which is followed by slashes up to name. */
  lemma SomeAdvance(before: Nodes, after: Nodes, created: seq<string>, now: seq<string>, path: string, idx: nat,
                    name: nat, length: nat)
    requires ValidNodes(before) && ValidNodes(after)
    requires AtEnd(path, idx, length) && idx <= name <= length && forall i | idx <= i < name :: path[i] == '/'
    requires AllMade(before, after, created, now, Trim(path[..idx])) && IsDirectory(after, Trim(path[..idx]))
    ensures SomeMade(before, after, created, now, Trim(path[..length]))
    ensures name == length ==> Trim(path[..idx]) == Trim(path[..length]) && Reachable(before, Trim(path[..length]))
  {
    var cur, whole := Trim(path[..idx]), Trim(path[..length]);
    SkipWhole(path, idx, name, length);
    TrimmedEnd(path[..length]);
    AncestorMade(before, after, created, now, whole, |cur|);
    if name == length {
      MadeDirectory(before, after, created, now, whole);
    }
  }

  lemma BlockedWhole(nodes: Nodes, path: string, idx: nat, length: nat)
    requires ValidNodes(nodes) && AtEnd(path, idx, length) && Trim(path[..idx]) == path[..idx]
    requires IsFile(nodes, path[..idx])
    ensures !Reachable(nodes, Trim(path[..length]))
  {
    var cur, whole := path[..idx], Trim(path[..length]);
    assert cur <= whole && (|cur| < |whole| ==> whole[|cur|] == '/') by { SkipWhole(path, idx, idx, length); }
    TrimmedEnd(path[..length]);
    FileBlocks(nodes, whole, cur);
  }

  lemma TrimmedEnd(s: string)
    ensures Trim(s) != "" ==> Trim(s)[|Trim(s)| - 1] != '/'
  {
  }

  /** What has been reached is an ancestor of the whole path, or all of it. */
  lemma SkipWhole(path: string, idx: nat, name: nat, length: nat)
    requires AtEnd(path, idx, length) && idx <= name <= length && forall i | idx <= i < name :: path[i] == '/'
    ensures var cur, whole := Trim(path[..idx]), Trim(path[..length]);
            && |cur| <= |whole| && whole[..|cur|] == cur
            && TrimEnd(whole, |cur|) == |cur|
            && (|cur| < |whole| ==> whole[|cur|] == '/')
            && (name == length ==> cur == whole)
  {
    var a, b := path[..idx], path[..length];
    var n := TrimEnd(b, length);
    TrimEndOf(a, b, idx);
    var c := TrimEnd(b, idx);
    assert a[..c] == b[..c];
    if name == length {
      SkipSlashes(b, idx, length);
    } else {
      TrimAbove(b, idx, length);
    }
    assert c <= n;
    TrimEndOf(b, b[..n], c);
  }

  lemma {:induction false} TrimAbove(t: string, idx: nat, length: nat)
    requires idx <= length <= |t|
    ensures TrimEnd(t, idx) <= TrimEnd(t, length)
    ensures TrimEnd(t, TrimEnd(t, idx)) == TrimEnd(t, idx)
  {
    if idx >= length {
    } else {
      TrimAbove(t, idx, length - 1);
    }
  }
}
