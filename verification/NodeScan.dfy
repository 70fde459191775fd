/** Discovering the rednodes that lead to a path: RedNodesScan. */
module NodeScan {
  import opened Wrappers
  import opened Strings
  import opened Config
  import opened FileTree

  const MAXPATHLEN: nat := 512
  const STATUS := ".rednode.yaml"

  /** What loading the rednode of a path gives. */
  datatype Loaded = Found(config: Config, confadmin: Option<Config>) | Missing | Broken

  predicate DoubleSlash(s: string, i: nat)
    requires 0 < i < |s|
  {
    s[i - 1] == '/' && s[i] == '/'
  }

  /** An absolute path, other than the root, without empty names. */
  ghost predicate Proper(s: string) {
    s != "" && s[0] == '/' && '\0' !in s && Trim(s) != "" && forall i: nat | 0 < i < |s| :: !DoubleSlash(s, i)
  }

  lemma ProperPart(s: string, n: nat)
    requires Proper(s) && 0 < n <= |s| && s[n - 1] != '/'
    ensures Proper(s[..n]) && Trim(s[..n]) == s[..n]
  {
    var t := s[..n];
    assert TrimEnd(t, n) == n;
    forall i: nat | 0 < i < |t| ensures !DoubleSlash(t, i) {
      assert !DoubleSlash(s, i);
    }
  }

  /** The paths of the directories above t, nearest first, without the root. */
  function Ancestors(t: string): seq<string>
    decreases |t|
  {
    if t == "" || ParentText(t) == "" then [] else [ParentText(t) + "/"] + Ancestors(ParentText(t))
  }

  /** The parent of a proper path is what precedes its last slash. */
  lemma ProperParent(t: string)
    requires Proper(t) && Trim(t) == t
    ensures var m := NameStart(t, |t|); 0 < m < |t| && t[m - 1] == '/' && ParentText(t) == t[..m - 1]
    ensures ParentText(t) != "" ==>
              Proper(ParentText(t)) && Trim(ParentText(t)) == ParentText(t) && 2 <= |ParentText(t)|
  {
    var m := NameStart(t, |t|);
    assert t[|t| - 1] != '/';
    assert m > 0 by { assert t[0] == '/'; }
    if m > 1 {
      assert !DoubleSlash(t, m - 1);
      assert TrimEnd(t, m) == m - 1;
      ProperPart(t, m - 1);
    }
  }

  /** They are the beginnings of t that a slash ends, other than the first slash, the longest first. */
  lemma {:induction false} AncestorsExact(t: string, u: string)
    requires Proper(t) && Trim(t) == t
    ensures u in Ancestors(t) <==> u < t && 1 < |u| && u[|u| - 1] == '/'
    ensures forall i, j | 0 <= i < j < |Ancestors(t)| :: |Ancestors(t)[j]| < |Ancestors(t)[i]| <= |t|
    decreases |t|
  {
    ProperParent(t);
    var m, up := NameStart(t, |t|), ParentText(t);
    if u < t && 1 < |u| && u[|u| - 1] == '/' {
      assert u == t[..|u|] && t[|u| - 1] == '/';
      assert |u| <= m;
    }
    if up == "" {
      assert m == 1;
    } else {
      assert up + "/" == t[..m];
      AncestorsExact(up, u);
      forall j | 0 <= j < |Ancestors(up)| ensures |Ancestors(up)[j]| < |up + "/"| {
        AncestorsExact(up, Ancestors(up)[j]);
      }
      assert u < t && |u| < m ==> u <= up;
    }
  }

  /** The node of a path, if it is a rednode. */
  function Made(path: string, loaded: Loaded): seq<Node> {
    if loaded.Found? then [Node(path, loaded.confadmin, Some(loaded.config))] else []
  }

  /** The rednodes among paths, in order; None when one of them cannot be loaded. */
  function Kept(load: string -> Loaded, paths: seq<string>): Option<seq<Node>> {
    if paths == [] then Some([])
    else if load(paths[0]) == Broken || Kept(load, paths[1..]).None? then None
    else Some(Made(paths[0], load(paths[0])) + Kept(load, paths[1..]).value)
  }

  lemma {:induction false} KeptExact(load: string -> Loaded, paths: seq<string>)
    ensures Kept(load, paths).None? <==> exists p | p in paths :: load(p) == Broken
    ensures Kept(load, paths).Some? ==>
              forall p, config, confadmin ::
                Node(p, confadmin, Some(config)) in Kept(load, paths).value <==>
                  p in paths && load(p) == Found(config, confadmin)
  {
    if paths == [] {
    } else {
      KeptExact(load, paths[1..]);
    }
  }

  /** They are in the order of the paths: those of a list, then those of what follows it. */
  lemma {:induction false} KeptInOrder(load: string -> Loaded, a: seq<string>, b: seq<string>)
    ensures Kept(load, a + b) == if Kept(load, a).None? || Kept(load, b).None? then None
                                 else Some(Kept(load, a).value + Kept(load, b).value)
  {
    if a == [] {
      assert a + b == b;
      assert Kept(load, b).Some? ==> [] + Kept(load, b).value == Kept(load, b).value;
    } else {
      KeptInOrder(load, a[1..], b);
      assert (a + b)[0] == a[0] && (a + b)[1..] == a[1..] + b;
      if Kept(load, a[1..]).Some? && Kept(load, b).Some? {
        var made := Made(a[0], load(a[0]));
        assert made + (Kept(load, a[1..]).value + Kept(load, b).value) ==
               made + Kept(load, a[1..]).value + Kept(load, b).value;
      }
    }
  }

  class RedNode {
    const node: Node
    var parent: RedNode?
    var firstChild: RedNode?
    var leaf: RedNode?

    constructor (node: Node)
      ensures this.node == node && parent == null && firstChild == null && leaf == null
    {
      this.node, parent, firstChild, leaf := node, null, null, null;
    }
  }

  /** The nodes are a chain from a leaf. */
  ghost predicate Linked(nodes: seq<RedNode>)
    reads nodes
  {
    && nodes != []
    && (forall i, j | 0 <= i < j < |nodes| :: nodes[i] != nodes[j])
    && (forall i | 0 <= i < |nodes| :: nodes[i].leaf == nodes[0])
    && (forall i, j | 0 <= i < j < |nodes| && j == i + 1 ::
          nodes[i].parent == nodes[j] && nodes[j].firstChild == nodes[i])
    && nodes[|nodes| - 1].parent == null && nodes[0].firstChild == null
  }

  /** The chain that the nodes form, as the mergers read it. */
  ghost function Chain(nodes: seq<RedNode>): seq<Node> {
    seq(|nodes|, i requires 0 <= i < |nodes| => nodes[i].node)
  }

  /** The buffer holds s as a C string. */
  ghost predicate Holds(buffer: string, s: string) {
    |s| < |buffer| && buffer[..|s|] == s && buffer[|s|] == '\0'
  }

  /** PopDownRedpath: what remains is the path of the parent, with a slash. */
  method PopDownRedpath(path: array<char>, ghost s: string) returns (idx: int)
    requires Proper(s) && Holds(path[..], s)
    modifies path
    ensures Holds(path[..], ParentText(Trim(s)) + "/")
    ensures idx == |ParentText(Trim(s))|
  {
    ghost var t := Trim(s);
    TrimProper(s);
    CStrIs(path[..], |s|);
    var len := |CStr(path[..])|;
    assert path[..][len - 1] == s[len - 1];
    if path[len - 1] == '/' {
      ghost var before := path[..];
      path[len - 1] := '\0';
      assert path[..][..len - 1] == before[..len - 1] == t;
    }
    CStrIs(path[..], |t|);
    idx := EraseName(path, |CStr(path[..])|, t);
  }

  /** The loop of PopDownRedpath. */
  method EraseName(path: array<char>, len: nat, ghost t: string) returns (idx: int)
    requires Proper(t) && Trim(t) == t && len == |t| && Holds(path[..], t)
    modifies path
    ensures Holds(path[..], ParentText(t) + "/") && idx == |ParentText(t)|
  {
    ghost var m := NameStart(t, |t|);
    ProperParent(t);
    idx := len - 1;
    while path[idx] != '/' && path[idx] != '\0'
      invariant m - 1 <= idx < len && path[idx + 1] == '\0'
      invariant path[..idx + 1] == t[..idx + 1]
      decreases idx
    {
      ghost var before := path[..idx + 1];
      path[idx] := '\0';
      idx := idx - 1;
      assert path[..idx + 1] == before[..idx + 1];
    }
    assert path[..idx + 1][idx] == path[idx] == t[idx];
    assert t[..m] == ParentText(t) + "/";
  }

  /** A slash at the end changes nothing. */
  lemma TrimProper(s: string)
    requires Proper(s)
    ensures var t := Trim(s);
            && Proper(t) && Trim(t) == t
            && (if s[|s| - 1] == '/' then |t| == |s| - 1 else t == s)
  {
    var n := TrimEnd(s, |s|);
    ProperPart(s, n);
    if n < |s| - 1 {
      assert DoubleSlash(s, |s| - 1);
    }
  }

  /** kept is the chain so far, after the leaf, with what remains to try. */
  ghost predicate Progress(load: string -> Loaded, kept: Option<seq<Node>>, leaf: Node, chain: seq<Node>,
                           rest: seq<string>) {
    && chain != [] && chain[0] == leaf
    && kept == if Kept(load, rest).None? then None else Some(chain[1..] + Kept(load, rest).value)
  }

  /** The buffer holds a path whose ancestors remain to try. */
  ghost predicate AtPath(buffer: string, rest: seq<string>) {
    exists s :: Proper(s) && Holds(buffer, s) && rest == Ancestors(Trim(s))
  }

  /** Goes to the next ancestor, if any. */
  method NextAncestor(nodepath: array<char>, ghost rest: seq<string>) returns (index: int)
    requires AtPath(nodepath[..], rest)
    modifies nodepath
    ensures index <= 1 <==> rest == []
    ensures index > 1 ==> CStr(nodepath[..]) == rest[0] && AtPath(nodepath[..], rest[1..])
  {
    ghost var s :| Proper(s) && Holds(nodepath[..], s) && rest == Ancestors(Trim(s));
    ghost var t := Trim(s);
    TrimProper(s);
    ProperParent(t);
    index := PopDownRedpath(nodepath, s);
    if index > 1 {
      Above(t);
      CStrIs(nodepath[..], |rest[0]|);
      assert rest[1..] == Ancestors(Trim(rest[0]));
    }
  }

  /** RedNodesDigToRoot */
  method DigToRoot(load: string -> Loaded, redpath: string, leaf: RedNode) returns (ok: bool, ghost nodes: seq<RedNode>)
    requires Proper(redpath) && |redpath| <= MAXPATHLEN
    requires leaf.leaf == leaf && leaf.parent == null && leaf.firstChild == null
    modifies leaf
    ensures ok <==> Kept(load, Ancestors(Trim(redpath))).Some?
    ensures Linked(nodes) && nodes[0] == leaf
    ensures ok ==> Chain(nodes) == [leaf.node] + Kept(load, Ancestors(Trim(redpath))).value
  {
    ghost var all := Ancestors(Trim(redpath));
    var nodepath := new char[MAXPATHLEN + 1](i => if 0 <= i < |redpath| then redpath[i] else '\0');
    assert nodepath[..][..|redpath|] == redpath;
    ProgressStarts(load, all, leaf.node);
    assert Chain([leaf]) == [leaf.node];
    ok, nodes := DigFrom(load, nodepath, leaf, all, Kept(load, all));
  }

  /** The loop of RedNodesDigToRoot. */
  method DigFrom(load: string -> Loaded, nodepath: array<char>, leaf: RedNode, ghost all: seq<string>,
                 ghost kept: Option<seq<Node>>)
    returns (ok: bool, ghost nodes: seq<RedNode>)
    requires AtPath(nodepath[..], all) && Scanning(load, kept, leaf, leaf, [leaf], all)
    modifies leaf, nodepath
    ensures Linked(nodes) && nodes[0] == leaf
    ensures if ok then kept.Some? && Chain(nodes) == [leaf.node] + kept.value else kept.None?
  {
    var child := leaf;
    nodes := [leaf];
    ghost var rest := all;
    ok := true;
    while ok
      invariant ok ==> AtPath(nodepath[..], rest) && Scanning(load, kept, leaf, child, nodes, rest)
      invariant !ok ==> Linked(nodes) && nodes[0] == leaf && kept.None?
      invariant child == leaf || fresh(child)
      decreases ok, |rest|
    {
      var last;
      last, ok, child, nodes := DigOne(load, nodepath, leaf, child, kept, nodes, rest);
      if last {
        return;
      }
      rest := rest[1..];
    }
  }

  /** One turn of the loop: last is set at the root. */
  method DigOne(load: string -> Loaded, nodepath: array<char>, leaf: RedNode, child: RedNode,
                ghost kept: Option<seq<Node>>, ghost nodes: seq<RedNode>, ghost rest: seq<string>)
    returns (last: bool, ok: bool, next: RedNode, ghost linked: seq<RedNode>)
    requires AtPath(nodepath[..], rest) && Scanning(load, kept, leaf, child, nodes, rest)
    modifies nodepath, child
    ensures next == child || fresh(next)
    ensures !last && ok ==>
              rest != [] && AtPath(nodepath[..], rest[1..]) && Scanning(load, kept, leaf, next, linked, rest[1..])
    ensures !(!last && ok) ==> Linked(linked) && linked[0] == leaf
    ensures !ok ==> !last && rest != [] && kept.None?
    ensures last ==> kept.Some? && Chain(linked) == [leaf.node] + kept.value
  {
    var index := NextAncestor(nodepath, rest);
    assert Scanning(load, kept, leaf, child, nodes, rest);
    last, ok, next, linked := index <= 1, true, child, nodes;
    if last {
      assert rest == [];
      EndChain(load, kept, leaf, child, nodes);
    } else {
      assert rest != [] && CStr(nodepath[..]) == rest[0];
      ok, next, linked := TryNode(load, kept, CStr(nodepath[..]), leaf, child, nodes, rest);
    }
  }

  ghost predicate Scanning(load: string -> Loaded, kept: Option<seq<Node>>, leaf: RedNode, child: RedNode,
                           nodes: seq<RedNode>, rest: seq<string>)
    reads nodes
  {
    Linked(nodes) && nodes[0] == leaf && child == nodes[|nodes| - 1]
    && Progress(load, kept, leaf.node, Chain(nodes), rest)
  }

  /** The root is reached. */
  method EndChain(load: string -> Loaded, ghost kept: Option<seq<Node>>, leaf: RedNode, child: RedNode,
                  ghost nodes: seq<RedNode>)
    requires Scanning(load, kept, leaf, child, nodes, [])
    modifies child
    ensures Linked(nodes) && nodes[0] == leaf && kept.Some? && Chain(nodes) == [leaf.node] + kept.value
  {
    ProgressEnds(load, kept, leaf.node, Chain(nodes));
    child.parent := null;
  }

  /** Loads the node of a path and links it. */
  method TryNode(load: string -> Loaded, ghost kept: Option<seq<Node>>, path: string, leaf: RedNode, child: RedNode,
                 ghost nodes: seq<RedNode>, ghost rest: seq<string>)
    returns (ok: bool, last: RedNode, ghost linked: seq<RedNode>)
    requires Scanning(load, kept, leaf, child, nodes, rest) && rest != [] && path == rest[0]
    modifies child
    ensures last == child || fresh(last)
    ensures if ok then Scanning(load, kept, leaf, last, linked, rest[1..])
            else Linked(linked) && linked[0] == leaf && kept.None?
  {
    ProgressStep(load, kept, leaf.node, Chain(nodes), rest);
    ok, last, linked := true, child, nodes;
    match load(path)
    case Found(config, confadmin) =>
      last := new RedNode(Node(path, confadmin, Some(config)));
      linked := Link(leaf, child, last, nodes);
    case Missing =>
      assert Chain(nodes) + [] == Chain(nodes);
    case Broken =>
      ok := false;
  }

  /** Links the parent. */
  method Link(leaf: RedNode, child: RedNode, parent: RedNode, ghost nodes: seq<RedNode>)
    returns (ghost linked: seq<RedNode>)
    requires Linked(nodes) && nodes[0] == leaf && child == nodes[|nodes| - 1] && parent !in nodes
    requires parent.parent == null
    modifies child, parent
    ensures Linked(linked) && linked == nodes + [parent] && Chain(linked) == Chain(nodes) + [parent.node]
  {
    child.parent := parent;
    parent.firstChild := child;
    parent.leaf := leaf;
    return nodes + [parent];
  }

  /** The path to try next is the nearest ancestor. */
  lemma Above(t: string)
    requires Proper(t) && Trim(t) == t && ParentText(t) != ""
    ensures var s := ParentText(t) + "/";
            Proper(s) && Trim(s) == ParentText(t) && Ancestors(t) == [s] + Ancestors(Trim(s))
  {
    ProperParent(t);
    var up := ParentText(t);
    var s := up + "/";
    assert s[..|up|] == up;
    TrimEndOf(s, up, |up|);
    forall i: nat | 0 < i < |s| ensures !DoubleSlash(s, i) {
      if i < |up| { assert !DoubleSlash(up, i); }
    }
  }

  lemma ProgressStarts(load: string -> Loaded, all: seq<string>, leaf: Node)
    ensures Progress(load, Kept(load, all), leaf, [leaf], all)
  {
    if Kept(load, all).Some? {
      assert [leaf][1..] + Kept(load, all).value == Kept(load, all).value;
    }
  }

  lemma ProgressEnds(load: string -> Loaded, kept: Option<seq<Node>>, leaf: Node, chain: seq<Node>)
    requires Progress(load, kept, leaf, chain, [])
    ensures kept.Some? && chain == [leaf] + kept.value
  {
    assert chain[1..] + [] == chain[1..];
  }

  lemma ProgressStep(load: string -> Loaded, kept: Option<seq<Node>>, leaf: Node, chain: seq<Node>, rest: seq<string>)
    requires Progress(load, kept, leaf, chain, rest) && rest != []
    ensures if load(rest[0]) == Broken then kept.None?
            else Progress(load, kept, leaf, chain + Made(rest[0], load(rest[0])), rest[1..])
  {
    if Kept(load, rest[1..]).Some? {
      var made, later := Made(rest[0], load(rest[0])), Kept(load, rest[1..]).value;
      assert (chain + made)[1..] + later == chain[1..] + (made + later);
    }
  }

  /** RedNodesScan: succeeds exactly when the leaf is a rednode and no directory above it, the root being
      never tried, is a rednode that cannot be loaded. The chain has the leaf then the rednodes above it,
      nearest first. Loading fails for a path too long for its status file. */
  method RedNodesScan(load: string -> Loaded, redpath: string) returns (leaf: RedNode?, ghost nodes: seq<RedNode>)
    requires Proper(redpath) && (load(redpath).Found? ==> |redpath| + 1 + |STATUS| < MAXPATHLEN)
    ensures leaf != null <==> load(redpath).Found? && Kept(load, Ancestors(Trim(redpath))).Some?
    ensures leaf != null ==>
              && Linked(nodes) && nodes[0] == leaf
              && Chain(nodes) == [Node(redpath, load(redpath).confadmin, Some(load(redpath).config))]
                                 + Kept(load, Ancestors(Trim(redpath))).value
  {
    nodes := [];
    var result := load(redpath);
    if !result.Found? {
      return null, nodes;
    }
    var redleaf := new RedNode(Node(redpath, result.confadmin, Some(result.config)));
    redleaf.leaf := redleaf;
    var ok;
    ok, nodes := DigToRoot(load, redpath, redleaf);
    return if ok then redleaf else null, nodes;
  }
}
