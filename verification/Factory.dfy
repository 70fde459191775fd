/** The factory of rednodes of red-conf: a buffer that holds the path of a root and, below it, of a node. */
module Factory {
  import opened Strings
  import opened FileTree
  import opened Directories
  import opened MakeDirs

  const SIZE: nat := 512

  datatype Status = Ok | ClearedError | RootTooLong | RootNotAbsolute | NodeTooLong | AtRoot

  /** Errors by their number, which contracts spell out. */
  const ROOT_NOT_EXIST: int := 5
  const MK_DIR: int := 8
  const PATH_TOO_LONG: int := 16

  /** What a factory holds: no root, or a root and a node below it, without the slashes that end them. */
  datatype Place = Cleared | Located(root: string, node: string) {
    /** The path of the node, with the slash that ends it. */
    function Text(): (t: string)
      requires Located?
      ensures |t| == |root| + 1 + if node == "" then 0 else |node| + 1
    {
      root + "/" + if node == "" then "" else node + "/"
    }

    ghost predicate Valid() {
      Located? ==>
        && (root != "" ==> root[0] == '/' && root[|root| - 1] != '/')
        && (node != "" ==> node[0] != '/')
        && |Text()| < SIZE
    }
  }

  // ---- the calls, as functions ----

  datatype Call = Clear | SetRoot(text: string) | SetNode(text: string)

  /** The text without the slashes that start it. */
  function TrimStart(s: string): (r: string)
    ensures |r| <= |s| && (r != "" ==> r[0] != '/' && r[|r| - 1] == s[|s| - 1])
    ensures s[|s| - |r|..] == r && forall i | 0 <= i < |s| - |r| :: s[i] == '/'
  {
    if s != "" && s[0] == '/' then TrimStart(s[1..]) else s
  }

  function RootStatus(root: string): Status {
    if root == "" then Ok
    else if |root| + 1 >= SIZE then RootTooLong
    else if root[0] != '/' then RootNotAbsolute
    else Ok
  }

  function NodeStatus(place: Place, node: string): Status {
    if place.Cleared? then ClearedError
    else if node != "" && |place.root| + 1 + |node| + 1 >= SIZE then NodeTooLong
    else Ok
  }

  function RootStep(place: Place, root: string): (Place, Status) {
    (if RootStatus(root) == Ok then Located(root, "") else place, RootStatus(root))
  }

  function NodeStep(place: Place, node: string): (Place, Status) {
    (if NodeStatus(place, node) == Ok then Located(place.root, node) else place, NodeStatus(place, node))
  }

  /** What a factory holds after a call, and what the call replies. */
  function Step(place: Place, call: Call): (Place, Status) {
    match call
    case Clear => (Cleared, Ok)
    case SetRoot(text) => RootStep(place, Trim(text))
    case SetNode(text) => NodeStep(place, TrimStart(Trim(text)))
  }

  function Run(place: Place, calls: seq<Call>): Place {
    if calls == [] then place else Step(Run(place, calls[..|calls| - 1]), calls[|calls| - 1]).0
  }

  ghost predicate Slashes(s: string) {
    forall i | 0 <= i < |s| :: s[i] == '/'
  }

  /** Where slashes end, or start, is unique. */
  lemma CutOnce(t: string, m: nat, n: nat)
    requires m <= |t| && n <= |t|
    ensures (m > 0 ==> t[m - 1] != '/') && Slashes(t[m..]) && (n > 0 ==> t[n - 1] != '/') && Slashes(t[n..]) ==> m == n
    ensures (m < |t| ==> t[m] != '/') && Slashes(t[..m]) && (n < |t| ==> t[n] != '/') && Slashes(t[..n]) ==> m == n
  {
    assert m < n ==> t[n - 1] == t[m..][n - 1 - m] && t[m] == t[..n][m];
    assert n < m ==> t[m - 1] == t[n..][m - 1 - n] && t[n] == t[..m][n];
  }

  /** A text that does not end with a slash, before slashes. */
  lemma TrimBefore(s: string, after: string)
    requires Slashes(after) && (s != "" ==> s[|s| - 1] != '/')
    ensures Trim(s + after) == s
  {
    var t := s + after;
    assert t[|s|..] == after && t[..|s|] == s;
    assert |s| > 0 ==> t[|s| - 1] == s[|s| - 1];
    CutOnce(t, TrimEnd(t, |t|), |s|);
  }

  /** A text that does not start with a slash, after slashes. */
  lemma TrimAfter(before: string, s: string)
    requires Slashes(before) && (s != "" ==> s[0] != '/')
    ensures TrimStart(before + s) == s
  {
    var t := before + s;
    assert t[..|before|] == before && t[|before|..] == s;
    assert |before| < |t| ==> t[|before|] == s[0];
    var k := |t| - |TrimStart(t)|;
    assert k < |t| ==> t[k] == t[k..][0];
    CutOnce(t, k, |before|);
  }

  /** Slashes around a text. */
  lemma TrimAround(before: string, s: string, after: string)
    requires Slashes(before) && Slashes(after) && (s != "" ==> s[0] != '/' && s[|s| - 1] != '/')
    ensures TrimStart(Trim(before + s + after)) == s
  {
    if s == "" {
      assert before + s + after == "" + (before + after);
      TrimBefore("", before + after);
    } else {
      TrimBefore(before + s, after);
      TrimAfter(before, s);
    }
  }

  /** Setting a root: the slashes that end the text do not count; it must be empty or absolute and, with a
      slash, shorter than 512 characters. The node is then the root itself. */
  lemma SetRootMeaning(place: Place, root: string, after: string)
    requires Slashes(after) && (root != "" ==> root[|root| - 1] != '/')
    ensures Step(place, SetRoot(root + after)) ==
            if |root| + 1 >= 512 then (place, RootTooLong)
            else if root != "" && root[0] != '/' then (place, RootNotAbsolute)
            else (Located(root, ""), Ok)
  {
    TrimBefore(root, after);
  }

  /** Setting a node: the slashes around the text do not count; the whole path, with its slashes, must be
      shorter than 512 characters. The root is kept. */
  lemma SetNodeMeaning(place: Place, before: string, node: string, after: string)
    requires Slashes(before) && Slashes(after) && (node != "" ==> node[0] != '/' && node[|node| - 1] != '/')
    ensures Step(place, SetNode(before + node + after)) ==
            if place.Cleared? then (place, ClearedError)
            else if node != "" && |place.root| + 1 + |node| + 1 >= 512 then (place, NodeTooLong)
            else (Located(place.root, node), Ok)
  {
    assert TrimStart(Trim(before + node + after)) == node by { TrimAround(before, node, after); }
  }

  /** What a factory can hold after calls: moreover its node does not end with a slash. */
  ghost predicate Canonical(place: Place) {
    place.Valid() && (place.Located? && place.node != "" ==> place.node[|place.node| - 1] != '/')
  }

  lemma StepCanonical(place: Place, call: Call)
    requires Canonical(place)
    ensures Canonical(Step(place, call).0)
  {
    match call
    case Clear =>
    case SetRoot(text) =>
      var root := Trim(text);
      assert root != "" ==> root[|root| - 1] != '/';
      assert Located(root, "").Text() == root + "/";
    case SetNode(text) =>
      if place.Located? { NodeCanonical(place, text); }
  }

  lemma NodeCanonical(place: Place, text: string)
    requires Canonical(place) && place.Located?
    ensures Canonical(Step(place, SetNode(text)).0)
  {
    var node := TrimStart(Trim(text));
    assert node != "" ==> node[|node| - 1] != '/';
    assert Located(place.root, node).Valid() || NodeStatus(place, node) == NodeTooLong;
  }

  lemma {:induction false} RunCanonical(place: Place, calls: seq<Call>)
    requires Canonical(place)
    ensures Canonical(Run(place, calls))
  {
    if calls == [] {
    } else {
      RunCanonical(place, calls[..|calls| - 1]);
      StepCanonical(Run(place, calls[..|calls| - 1]), calls[|calls| - 1]);
    }
  }

  /** Slashes more or less around a text. */
  lemma TrimSlash(s: string)
    requires s != "" ==> s[|s| - 1] != '/'
    ensures Trim(s) == s && Trim(s + "/") == s
  {
    var t := s + "/";
    assert t[..|s|] == s;
    TrimEndOf(t, s, |s|);
  }

  /** Whatever the calls that have been made, the texts that a factory holds give any other factory
      the same place, and none of the two calls fails. */
  lemma SettingAgain(calls: seq<Call>, other: Place)
    requires Run(Cleared, calls).Located?
    ensures var place := Run(Cleared, calls);
            var half := Step(other, SetRoot(place.root + "/"));
            && half == (Located(place.root, ""), Ok)
            && Step(half.0, SetNode(place.node + "/")) == (place, Ok)
  {
    RunCanonical(Cleared, calls);
    CanonicalAgain(Run(Cleared, calls), other);
  }

  lemma CanonicalAgain(place: Place, other: Place)
    requires place.Located? && Canonical(place)
    ensures Step(other, SetRoot(place.root + "/")) == (Located(place.root, ""), Ok)
    ensures Step(Located(place.root, ""), SetNode(place.node + "/")) == (place, Ok)
  {
    assert Trim(place.root + "/") == place.root && RootStatus(place.root) == Ok by { TrimSlash(place.root); }
    assert Trim(place.node + "/") == place.node by { TrimSlash(place.node); }
    assert TrimStart(place.node) == place.node;
  }

  /** The name that ends a text which is not made of slashes. */
  function LastName(t: string): string {
    Trim(t)[NameStart(Trim(t), |Trim(t)|)..]
  }

  // ---- the buffer ----

  method TrimLength(text: string) returns (length: nat)
    ensures length == TrimEnd(text, |text|)
  {
    length := |text|;
    while length > 0 && text[length - 1] == '/'
      invariant length <= |text| && TrimEnd(text, length) == TrimEnd(text, |text|)
    {
      length := length - 1;
    }
  }

  method SkipStart(text: string) returns (first: nat)
    ensures first <= |text| && text[first..] == TrimStart(text)
  {
    first := 0;
    while first < |text| && text[first] == '/'
      invariant first <= |text| && TrimStart(text[first..]) == TrimStart(text)
    {
      assert text[first..][1..] == text[first + 1..];
      first := first + 1;
    }
    assert first < |text| ==> text[first..][0] != '/';
  }

  method TrimBoth(text: string) returns (node: string)
    ensures node == TrimStart(Trim(text))
  {
    var length := TrimLength(text);
    var first := SkipStart(text[..length]);
    return text[..length][first..];
  }

  /** The two loops that find the last name of a path. */
  method SplitText(t: string) returns (off: nat, len: nat)
    ensures off + len <= |t| && t[..off] == Above(t) && t[off..off + len] == LastName(t)
  {
    len := TrimLength(t);
    off := len;
    while off > 0 && t[off - 1] != '/'
      invariant off <= len && NameStart(t, off) == NameStart(t, len)
    {
      off := off - 1;
    }
    TrimEndOf(t, Trim(t), len);
    len := len - off;
    assert Trim(t)[off..] == t[off..off + len];
  }

  // ---- creating directories ----

  /** The buffer starts with the path t, which goes through a root of length root with its final slash. */
  ghost predicate Starts(path: string, root: nat, t: string) {
    && 0 < root <= |t| < |path| && path[..|t|] == t && '\0' !in t
    && path[root - 1] == '/' && (root > 1 ==> path[root - 2] != '/')
  }

  predicate RootThere(nodes: Nodes, t: string, root: nat)
    requires 0 < root <= |t|
  {
    root == 1 || There(nodes, t[..root - 1])
  }

  /** What is missing of u can be created, below a root that is a directory. */
  predicate Creatable(nodes: Nodes, t: string, root: nat, u: string)
    requires 0 < root <= |t|
  {
    IsDirectory(nodes, t[..root - 1]) && Reachable(nodes, u)
  }

  /** What the creation of u replies, when no call is refused. */
  ghost predicate Replies(nodes: Nodes, t: string, root: nat, u: string, rc: int)
    requires 0 < root <= |t|
  {
    && (rc == 0 <==> Creatable(nodes, t, root, u))
    && (rc == 8 <==> RootThere(nodes, t, root) && !Creatable(nodes, t, root, u))
    && (rc == -5 <==> !RootThere(nodes, t, root))
  }

  /** Below /r, where n is a file, the creation of the directory n replies a positive number. */
  lemma PositiveError(rc: int)
    ensures var nodes: Nodes := map["/r" := Directory, "/r/n" := File];
            ValidNodes(nodes) && (Replies(nodes, "/r/n/", 3, "/r/n", rc) ==> rc == 8)
  {
    var nodes: Nodes, t, file := map["/r" := Directory, "/r/n" := File], "/r/n/", "/r/n";
    PlainTexts();
    assert t[..2] == "/r" && file[..4] == file;
    assert Fits(nodes, "/r") && Fits(nodes, file);
  }

  lemma PlainTexts()
    ensures Canon("/r") == "/r" && Canon("/r/n") == "/r/n" && ParentText("/r") == "" && ParentText("/r/n") == "/r"
  {
    CanonFirst();
    CanonSecond();
    CanonOfParts("", true, "r");
    CanonOfParts("/r", true, "n");
    assert "" + "/" + "r" == "/r" && "/r" + "/" + "n" == "/r/n";
  }

  lemma CanonFirst()
    ensures Canon("/r") == "/r"
  {
    assert "/r"[..1] == "/" && "/r"[1..] == "r";
    CanonName("/r", 1);
  }

  lemma CanonSecond()
    ensures Canon("/r/n") == "/r/n"
  {
    CanonFirst();
    assert "/r/n"[..2] == "/r" && "/r/n"[3..] == "n";
    CanonSlashes("/r/n", 2, 3);
    CanonName("/r/n", 3);
  }

  /** The root exists; the buffer is cut then restored. */
  method RootExists(fs: FileSystem, path: array<char>, root: nat, ghost t: string) returns (there: bool)
    requires Starts(path[..], root, t)
    modifies fs`clock, path
    ensures path[..] == old(path[..]) && old(fs.clock) <= fs.clock
    ensures there ==> RootThere(fs.nodes, t, root)
    ensures !there && RootThere(fs.nodes, t, root) ==> fs.RefusedSince(old(fs.clock))
  {
    if root <= 1 {
      return true;
    }
    ghost var all := path[..];
    path[root - 1] := '\0';
    assert path[..] == all[root - 1 := '\0'];
    assert all[..root - 1] == t[..root - 1];
    CutRoot(all, root - 1);
    var rc, errno, kind := fs.Stat(CStr(path[..]));
    path[root - 1] := '/';
    assert path[..] == all;
    return rc == 0;
  }

  /** make_directories below the root, on the text t that starts the buffer. */
  method MakeBelow(fs: FileSystem, text: string, root: nat, length: nat, ghost t: string) returns (rc: int)
    requires fs.Sound() && Starts(text, root, t) && length == |t|
    modifies fs
    ensures fs.Sound() && fs.owned == old(fs.owned) && (rc == 0 || rc == -1)
    ensures SomeMade(old(fs.nodes), fs.nodes, old(fs.created), fs.created, Trim(t))
    ensures rc == 0 ==>
              && IsDirectory(old(fs.nodes), t[..root - 1]) && Reachable(old(fs.nodes), Trim(t))
              && AllMade(old(fs.nodes), fs.nodes, old(fs.created), fs.created, Trim(t))
              && IsDirectory(fs.nodes, Trim(t))
    ensures old(fs.clock) <= fs.clock
    ensures rc < 0 && IsDirectory(old(fs.nodes), t[..root - 1]) && Reachable(old(fs.nodes), Trim(t)) ==>
              fs.RefusedSince(old(fs.clock))
  {
    RootTrimmed(text, root, length);
    assert text[..root - 1] == t[..root - 1];
    var existing;
    rc, existing := MakeDirectories(fs, text, root, length);
  }

  /** create_directories, for the path t of a node or a longer one: it never refuses the lengths of a
      factory, and creates what is missing of t below a root that exists. If no call is refused, it succeeds
      exactly when the root and the longest existing part are directories, and says exactly when the root is
      missing. Unlike every other one, the error of the creation is positive. */
  method CreateDirectories(fs: FileSystem, path: array<char>, root: nat, length: nat, ghost t: string) returns (rc: int)
    requires fs.Sound() && Starts(path[..], root, t) && length == |t|
    modifies fs, path
    ensures path[..] == old(path[..]) && fs.Sound() && fs.owned == old(fs.owned)
    ensures SomeMade(old(fs.nodes), fs.nodes, old(fs.created), fs.created, Trim(t))
    ensures rc == 0 ==>
              && Creatable(old(fs.nodes), t, root, Trim(t))
              && AllMade(old(fs.nodes), fs.nodes, old(fs.created), fs.created, Trim(t))
              && IsDirectory(fs.nodes, Trim(t))
    ensures rc == 0 || (rc == 8 && RootThere(old(fs.nodes), t, root))
            || (rc == -5 && fs.nodes == old(fs.nodes) && fs.created == old(fs.created))
    ensures old(fs.clock) <= fs.clock
    ensures Replies(old(fs.nodes), t, root, Trim(t), rc) || fs.RefusedSince(old(fs.clock))
  {
    var there := RootExists(fs, path, root, t);
    if !there {
      MadeNothing(fs.nodes, fs.created, Trim(t));
      return -ROOT_NOT_EXIST;
    }
    var made := MakeBelow(fs, path[..], root, length, t);
    if made < 0 {
      return MK_DIR;
    }
    return 0;
  }

  /** The directory of t exists, or the reply says why it does not, or a call has been refused. */
  ghost predicate ParentCreated(rc: int, before: Nodes, after: Nodes, created: seq<string>, now: seq<string>,
                                root: nat, t: string, refused: bool)
    requires 0 < root <= |t|
  {
    && SomeMade(before, after, created, now, ParentText(t))
    && (rc == 0 ==> AllMade(before, after, created, now, ParentText(t)) && IsDirectory(after, ParentText(t)))
    && (Replies(before, t, root, ParentText(t), rc) || refused)
  }

  /** create_parent_directories: the directory of t exists or is created. */
  method CreateParentDirectories(fs: FileSystem, path: array<char>, root: nat, size: nat, ghost t: string)
    returns (rc: int)
    requires fs.Sound() && Starts(path[..], root, t) && size == |t|
    modifies fs, path
    ensures path[..] == old(path[..]) && fs.Sound() && fs.owned == old(fs.owned)
    ensures ParentCreated(rc, old(fs.nodes), fs.nodes, old(fs.created), fs.created, root, t,
                          fs.RefusedSince(old(fs.clock)))
  {
    var length := DirectoryLength(path, root, size, t);
    rc := CreateDirectories(fs, path, root, length, t[..length]);
  }

  /** The loop that looks for the last slash. */
  method DirectoryLength(path: array<char>, root: nat, size: nat, ghost t: string) returns (length: nat)
    requires Starts(path[..], root, t) && size == |t|
    ensures root <= length <= size && Trim(t[..length]) == ParentText(t)
    ensures Starts(path[..], root, t[..length]) && t[..length][..root - 1] == t[..root - 1]
  {
    length := size;
    while length > root && path[length - 1] != '/'
      invariant root <= length <= size && NameStart(t, length) == NameStart(t, size)
    {
      assert t[length - 1] == path[..][length - 1];
      length := length - 1;
    }
    assert t[length - 1] == path[..][length - 1] == '/';
    DirectoryText(t, length);
    assert path[..][..length] == t[..length];
  }

  // ---- what a buffer holds ----

  ghost predicate Fine(buffer: string, root: nat, node: nat) {
    && |buffer| == SIZE
    && if root == 0 then node == 0 else
         && root <= node < SIZE
         && buffer[root - 1] == '/' && buffer[node - 1] == '/'
         && (root > 1 ==> buffer[0] == '/' && buffer[root - 2] != '/')
         && (root < node ==> buffer[root] != '/')
  }

  ghost function Held(buffer: string, root: nat, node: nat): (place: Place)
    requires Fine(buffer, root, node)
    ensures place.Valid()
  {
    if root == 0 then Cleared
    else Located(buffer[..root - 1], if root == node then "" else buffer[root..node - 1])
  }

  /** The buffer starts with the path of the node. */
  lemma HeldPath(buffer: string, root: nat, node: nat)
    requires Fine(buffer, root, node) && root > 0
    ensures buffer[..node] == Held(buffer, root, node).Text()
  {
    assert buffer[..node] == buffer[..root - 1] + "/" + buffer[root..node];
    assert root < node ==> buffer[root..node] == buffer[root..node - 1] + "/";
  }

  /** What follows the path of the node does not matter. */
  lemma HeldSame(before: string, after: string, root: nat, node: nat)
    requires Fine(before, root, node) && |after| == SIZE && after[..node] == before[..node]
    ensures Fine(after, root, node) && Held(after, root, node) == Held(before, root, node)
  {
    if root > 0 {
      assert forall i | 0 <= i < node :: after[i] == after[..node][i] == before[i];
      assert after[..root - 1] == before[..root - 1];
      assert root < node ==> after[root..node - 1] == before[root..node - 1];
    }
  }

  lemma HeldStarts(buffer: string, root: nat, node: nat, t: string)
    requires Fine(buffer, root, node) && 0 < root <= node <= |t| < SIZE && buffer[..|t|] == t && '\0' !in t
    ensures Starts(buffer, root, t) && buffer[..node] == t[..node]
  {
  }

  lemma SubpathText(before: string, after: string, node: nat, subpath: string)
    requires node + |subpath| < |before| == |after| && '\0' !in before[..node] && '\0' !in subpath
    requires after[..node] == before[..node] && after[node..node + |subpath| + 1] == subpath + "\0"
    ensures var size := node + |subpath|; after[..size] == CStr(after) == before[..node] + subpath
  {
    var size := node + |subpath|;
    assert after[..size] == after[..node] + after[node..node + |subpath| + 1][..|subpath|];
    assert after[size] == after[node..size + 1][|subpath|];
    CStrIs(after, size);
  }

  lemma RootHeld(buffer: string, root: string)
    requires |buffer| == SIZE && |root| + 1 < SIZE && (root != "" ==> root[0] == '/' && root[|root| - 1] != '/')
    requires buffer[..|root|] == root && buffer[|root|] == '/'
    ensures Fine(buffer, |root| + 1, |root| + 1) && Held(buffer, |root| + 1, |root| + 1) == Located(root, "")
  {
  }

  lemma NodeHeld(before: string, after: string, root: nat, was: nat, node: string)
    requires Fine(before, root, was) && root > 0 && node != "" && node[0] != '/' && root + |node| + 1 < SIZE
    requires |after| == SIZE && after[..root] == before[..root]
    requires after[root..root + |node|] == node && after[root + |node|] == '/'
    ensures Fine(after, root, root + |node| + 1)
    ensures Held(after, root, root + |node| + 1) == Located(Held(before, root, was).root, node)
  {
    assert forall i | 0 <= i < root :: after[i] == after[..root][i] == before[i];
    assert after[root] == node[0];
    assert after[..root - 1] == before[..root - 1];
  }

  /** The beginning of the path of a node, up to a slash, is that of a node below the same root. */
  lemma HeldBeginning(before: string, after: string, root: nat, node: nat, length: nat)
    requires Fine(before, root, node) && 0 < root <= length <= node && before[length - 1] == '/'
    requires |after| == SIZE && after[..length] == before[..length]
    ensures Fine(after, root, length)
    ensures Held(after, root, length).Located? && Held(after, root, length).root == Held(before, root, node).root
    ensures Held(after, root, length).Text() == before[..length]
  {
    assert forall i | 0 <= i < length :: after[i] == after[..length][i] == before[i];
    assert after[..root - 1] == before[..root - 1];
    HeldPath(after, root, length);
  }

  /** memcpy */
  method CopyText(path: array<char>, start: nat, text: string)
    requires start + |text| <= path.Length
    modifies path
    ensures path[..start] == old(path[..start]) && path[start..start + |text|] == text
    ensures forall i | start + |text| <= i < path.Length :: path[i] == old(path[i])
  {
    forall i | 0 <= i < |text| { path[start + i] := text[i]; }
  }

  class RednodeFactory {
    var path: array<char>
    var rootLength: nat
    var nodeLength: nat

    ghost predicate Valid()
      reads this, path
    {
      Fine(path[..], rootLength, nodeLength)
    }

    ghost function Holds(): (place: Place)
      requires Valid()
      reads this, path
      ensures place.Valid()
    {
      Held(path[..], rootLength, nodeLength)
    }

    /** rednode_factory_clear */
    constructor ()
      ensures Valid() && Holds() == Cleared && fresh(path)
    {
      path, rootLength, nodeLength := new char[SIZE](_ => '\0'), 0, 0;
    }

    method DoClear()
      requires Valid()
      modifies this, path
      ensures Valid() && path == old(path) && Holds() == Cleared
    {
      forall i | 0 <= i < path.Length { path[i] := '\0'; }
      rootLength, nodeLength := 0, 0;
    }

    /** rednode_factory_set_root_len */
    method DoSetRoot(text: string) returns (status: Status)
      requires Valid()
      modifies this, path
      ensures Valid() && path == old(path)
      ensures (Holds(), status) == Step(old(Holds()), SetRoot(text))
      ensures status != Ok ==> path[..] == old(path[..])
    {
      var length := TrimLength(text);
      if length > 0 {
        if length + 1 >= path.Length {
          return RootTooLong;
        }
        if text[0] != '/' {
          return RootNotAbsolute;
        }
      }
      StoreRoot(text[..length]);
      return Ok;
    }

    method StoreRoot(root: string)
      requires Valid() && |root| + 1 < SIZE && (root != "" ==> root[0] == '/' && root[|root| - 1] != '/')
      modifies this, path
      ensures Valid() && path == old(path) && Holds() == Located(root, "")
    {
      var length := |root|;
      CopyText(path, 0, root);
      path[length] := '/';
      assert path[..][..length] == path[..length] == root;
      RootHeld(path[..], root);
      length := length + 1;
      rootLength, nodeLength := length, length;
    }

    /** rednode_factory_set_node_len */
    method DoSetNode(text: string) returns (status: Status)
      requires Valid()
      modifies this, path
      ensures Valid() && path == old(path)
      ensures (Holds(), status) == Step(old(Holds()), SetNode(text))
      ensures status != Ok ==> path[..] == old(path[..])
    {
      var node := TrimBoth(text);
      status := PutNode(node);
    }

    method PutNode(node: string) returns (status: Status)
      requires Valid() && (node != "" ==> node[0] != '/')
      modifies this`nodeLength, path
      ensures Valid() && (Holds(), status) == NodeStep(old(Holds()), node)
      ensures status != Ok ==> path[..] == old(path[..])
    {
      if rootLength == 0 {
        return ClearedError;
      } else if node == "" {
        nodeLength := rootLength;
      } else if |node| + 1 + rootLength >= path.Length {
        return NodeTooLong;
      } else {
        StoreNode(node);
      }
      return Ok;
    }

    method StoreNode(node: string)
      requires Valid() && rootLength > 0 && rootLength + |node| + 1 < SIZE && node != "" && node[0] != '/'
      modifies this`nodeLength, path
      ensures Valid() && Holds() == Located(old(Holds()).root, node)
    {
      var length := |node| + rootLength;
      CopyText(path, rootLength, node);
      path[length] := '/';
      assert path[..][..rootLength] == path[..rootLength] == old(path[..])[..rootLength];
      assert path[..][rootLength..length] == path[rootLength..length] == node;
      NodeHeld(old(path[..]), path[..], rootLength, nodeLength, node);
      nodeLength := length + 1;
    }

    method Do(call: Call)
      requires Valid()
      modifies this, path
      ensures Valid() && path == old(path) && Holds() == Step(old(Holds()), call).0
    {
      match call {
        case Clear => DoClear();
        case SetRoot(text) => var _ := DoSetRoot(text);
        case SetNode(text) => var _ := DoSetNode(text);
      }
    }

    /** Any sequence of calls: the place that the buffer holds is the one that the calls give. */
    method Perform(calls: seq<Call>)
      requires Valid()
      modifies this, path
      ensures Valid() && path == old(path) && Holds() == Run(old(Holds()), calls)
    {
      var i := 0;
      while i < |calls|
        invariant i <= |calls| && Valid() && path == old(path)
        invariant Holds() == Run(old(Holds()), calls[..i])
      {
        Do(calls[i]);
        assert calls[..i + 1][..i] == calls[..i];
        i := i + 1;
      }
      assert calls[..i] == calls;
    }

    /** The first part of set_subpath_path: the subpath follows the path of the node. */
    method PutSubpath(subpath: string) returns (fits: bool, size: nat)
      requires Valid() && '\0' !in subpath && '\0' !in path[..nodeLength]
      modifies path
      ensures Valid() && Holds() == old(Holds()) && path[..nodeLength] == old(path[..nodeLength])
      ensures fits <==> nodeLength + |subpath| < SIZE
      ensures fits ==>
                size == nodeLength + |subpath| && path[..size] == CStr(path[..]) == old(path[..nodeLength]) + subpath
      ensures fits ==> '\0' !in path[..size]
      ensures !fits ==> path[..] == old(path[..])
    {
      size := |subpath|;
      if size + nodeLength >= path.Length {
        return false, size;
      }
      CopyText(path, nodeLength, subpath + "\0");
      HeldSame(old(path[..]), path[..], rootLength, nodeLength);
      size := size + nodeLength;
      SubpathText(old(path[..]), path[..], nodeLength, subpath);
      return true, size;
    }

    /** The last part of set_subpath_path: the directories of the path t that the buffer holds. */
    method MakeParent(fs: FileSystem, size: nat, createdirs: bool, ghost t: string) returns (rc: int)
      requires Valid() && rootLength > 0 && nodeLength <= size < SIZE && path[..size] == t && '\0' !in t && fs.Sound()
      modifies fs, path
      ensures path[..] == old(path[..]) && path[..nodeLength] == old(path[..nodeLength])
      ensures fs.Sound() && fs.owned == old(fs.owned) && rootLength <= |t|
      ensures if createdirs then
                ParentCreated(rc, old(fs.nodes), fs.nodes, old(fs.created), fs.created, rootLength, t,
                              fs.RefusedSince(old(fs.clock)))
              else rc == 0 && fs.nodes == old(fs.nodes) && fs.created == old(fs.created)
    {
      if !createdirs {
        return 0;
      }
      ghost var all := path[..];
      assert path[..nodeLength] == all[..nodeLength] && all[..size] == t;
      HeldStarts(all, rootLength, nodeLength, t);
      rc := CreateParentDirectories(fs, path, rootLength, size, t);
      assert path[..nodeLength] == path[..][..nodeLength];
    }

    /** set_subpath_path: the buffer holds the path of the node followed by the subpath; the directory
        of that path exists when its creation was asked for. */
    method SetSubpath(fs: FileSystem, subpath: string, createdirs: bool) returns (rc: int)
      requires Valid() && rootLength > 0 && '\0' !in subpath && '\0' !in path[..nodeLength] && fs.Sound()
      modifies fs, path
      ensures Valid() && Holds() == old(Holds()) && path[..nodeLength] == old(path[..nodeLength])
      ensures fs.Sound() && fs.owned == old(fs.owned)
      ensures var t := old(path[..nodeLength]) + subpath;
              if |t| >= 512 then
                rc == -16 && path[..] == old(path[..]) && fs.nodes == old(fs.nodes)
                && fs.created == old(fs.created)
              else
                && CStr(path[..]) == t
                && if createdirs then
                     ParentCreated(rc, old(fs.nodes), fs.nodes, old(fs.created), fs.created, rootLength, t,
                                   fs.RefusedSince(old(fs.clock)))
                   else rc == 0 && fs.nodes == old(fs.nodes) && fs.created == old(fs.created)
    {
      var fits, size := PutSubpath(subpath);
      if !fits {
        return -PATH_TOO_LONG;
      }
      rc := MakeParent(fs, size, createdirs, path[..size]);
    }

    /** The parent of the node and the last name of its path, as rednode_factory_create_node finds them. */
    method Split() returns (off: nat, len: nat)
      requires Valid() && rootLength > 0
      ensures off + len <= nodeLength && path[..off] == Above(path[..nodeLength])
      ensures path[..nodeLength][off..off + len] == LastName(path[..nodeLength])
      ensures if nodeLength == rootLength then off < rootLength else rootLength <= off && path[off - 1] == '/'
    {
      var t := path[..nodeLength];
      SplitAtRoot(t, rootLength);
      off, len := SplitText(t);
      assert path[..off] == t[..off];
    }

    /** The directory of length off - 1 is a rednode. */
    method IsRednode(accessible: string -> bool, statusPath: string, off: nat) returns (b: bool)
      requires Valid() && 0 < off <= nodeLength && path[off - 1] == '/'
      ensures b == accessible(path[..off] + statusPath)
    {
      assert path[..off - 1] + "/" + statusPath == path[..off] + statusPath;
      b := accessible(path[..off - 1] + "/" + statusPath);
    }

    /** The part of rednode_factory_create_node for the legacy mode: a factory for the parent when
        the parent is not yet a rednode. */
    method LegacyParent(accessible: string -> bool, statusPath: string)
      returns (status: Status, parent: RednodeFactory?)
      requires Valid() && rootLength > 0
      ensures status == if Holds().node == "" then AtRoot else Ok
      ensures status != Ok ==> parent == null
      ensures status == Ok ==> (parent == null <==> accessible(Above(path[..nodeLength]) + statusPath))
      ensures parent != null ==>
                && fresh(parent) && fresh(parent.path) && parent.Valid() && parent.Holds().Located?
                && parent.Holds().root == Holds().root && parent.Holds().Text() == Above(path[..nodeLength])
    {
      parent := null;
      var off, len := Split();
      if off < rootLength {
        return AtRoot, null;
      }
      var found := IsRednode(accessible, statusPath, off);
      if !found {
        parent := Derive(off);
      }
      return Ok, parent;
    }

    /** The factory that create_root_node makes. */
    method Derive(length: nat) returns (parent: RednodeFactory)
      requires Valid() && 0 < rootLength <= length <= nodeLength && path[length - 1] == '/'
      ensures Holds().Located?
      ensures fresh(parent) && fresh(parent.path) && parent.Valid() && parent.Holds().Located?
      ensures parent.Holds().root == Holds().root && parent.Holds().Text() == path[..length]
    {
      parent := new RednodeFactory();
      parent.rootLength, parent.nodeLength := rootLength, length;
      CopyText(parent.path, 0, path[..length]);
      HeldBeginning(path[..], parent.path[..], rootLength, nodeLength, length);
    }
  }

  /** The directory of a path, with the slash that ends it. */
  function Above(t: string): string {
    t[..NameStart(t, TrimEnd(t, |t|))]
  }

  /** The path of a node is that of its parent followed by a name; it has a parent below the root exactly
      when it is not the root. */
  lemma SplitAtRoot(t: string, rootLength: nat)
    requires 0 < rootLength <= |t| && t[rootLength - 1] == '/' && (rootLength < |t| ==> t[rootLength] != '/')
    requires t[|t| - 1] == '/'
    ensures |Above(t)| < rootLength <==> |t| == rootLength
    ensures |t| > rootLength ==> t[|Above(t)| - 1] == '/' && Trim(t) == Above(t) + LastName(t) && LastName(t) != ""
  {
    var end := TrimEnd(t, |t|);
    TrimEndOf(t, Trim(t), end);
    if |t| > rootLength {
      assert end > rootLength;
      assert NameStart(t, end) >= rootLength;
    }
  }

  /** The path of the root ends where the buffer is cut. */
  lemma CutRoot(path: string, length: nat)
    requires 0 < length < |path| && path[length - 1] != '/' && '\0' !in path[..length]
    ensures Trim(CStr(path[length := '\0'])) == path[..length]
  {
    var cut := path[length := '\0'];
    assert cut[..length] == path[..length];
    CStrIs(cut, length);
  }

  /** What is before the last name is the directory of a path. */
  lemma DirectoryText(t: string, length: nat)
    requires length <= |t| && length == NameStart(t, |t|)
    ensures Trim(t[..length]) == ParentText(t)
  {
    TrimEndOf(t, t[..length], length);
  }

  /** The text of the root, for make_directories. */
  lemma RootTrimmed(path: string, rootLength: nat, length: nat)
    requires 0 < rootLength <= length <= |path| && path[rootLength - 1] == '/'
             && (rootLength > 1 ==> path[rootLength - 2] != '/')
    ensures var base := BaseLength(path, rootLength, length);
            base.Some? && Trim(path[..base.value]) == path[..rootLength - 1]
  {
    var root := path[..rootLength - 1];
    TrimSlash(root);
    assert path[..rootLength] == root + "/";
    assert rootLength == 1 ==> path[..1] == root + "/";
  }
}
