/** In which order merged exports are mounted. */
module ExportOrder {
  import opened Wrappers
  import opened Strings
  import opened Config
  import opened Chains
  import opened MergeStep
  import opened Sorting
  import opened ListMix

  /** Exports are delivered in the strict order of the mount points under which they are recorded,
      hence a recorded mount point comes before those it is a proper prefix of. */
  lemma ExportsSorted(expand: (nat, string) -> string, chain: seq<Node>, i: nat, j: nat)
    requires i < |Sort(Merged(ExportPolicy(expand), Visits(ExportPolicy(expand), chain)))|
    requires j < |Sort(Merged(ExportPolicy(expand), Visits(ExportPolicy(expand), chain)))|
    ensures var ds := Sort(Merged(ExportPolicy(expand), Visits(ExportPolicy(expand), chain)));
            (i < j <==> StrLess(ds[i].name, ds[j].name)) && (ds[i].name < ds[j].name ==> i < j)
  {
    var p := ExportPolicy(expand);
    var ms := Merged(p, Visits(p, chain));
    MergedExactly(p, Visits(p, chain));
    SortFacts(ms);
    var ds := Sort(ms);
    StrLessTotal(ds[i].name, ds[j].name);
    if ds[i].name < ds[j].name { PrefixLess(ds[i].name, ds[j].name); }
  }

  /** Meeting definition j replaces a normal winner by an admin one. */
  ghost predicate Backpatches(p: Policy<Export>, vs: seq<Visit<Export>>, j: nat)
    requires j < |vs|
  {
    var w := Winner(p, vs[..j], VisitName(p, vs[j]));
    w < j && vs[j].admin && !vs[w].admin
  }

  /** The replacing definition keeps the spelling of the definition met first. */
  ghost predicate KeepsSpelling(p: Policy<Export>, vs: seq<Visit<Export>>, j: nat)
    requires j < |vs|
  {
    forall i | 0 <= i < |vs| && FirstMeeting(p, vs, VisitName(p, vs[j]), i) ::
      VisitName(p, vs[i]) == VisitName(p, vs[j])
  }

  /** The mount point of a merged export, in the context of its own node. */
  function OwnName(p: Policy<Export>, d: Def<Export>): string {
    p.name(d.depth, d.entry)
  }

  lemma FirstOfMerged(p: Policy<Export>, vs: seq<Visit<Export>>, t: nat) returns (i: nat, w: nat)
    requires t < |Merged(p, vs)|
    ensures i < |vs| && FirstMeeting(p, vs, Merged(p, vs)[t].name, i) && VisitName(p, vs[i]) == Merged(p, vs)[t].name
    ensures w < |vs| && w == Winner(p, vs, Merged(p, vs)[t].name)
    ensures OwnName(p, Merged(p, vs)[t]) == VisitName(p, vs[w])
  {
    MergedAt(p, vs, t);
    DiscoveredFirst(p, vs, t);
    i := Discovered(p, vs)[t];
    assert Named(p, vs[i], VisitName(p, vs[i]));
    w := Winner(p, vs, Merged(p, vs)[t].name);
  }

  /** Back-patching changes the definition and not the recorded mount point. So every export is
      sorted under its own mount point if and only if no back-patching changes the spelling. */
  lemma SortedUnderOwnName(p: Policy<Export>, vs: seq<Visit<Export>>)
    ensures (forall d | d in Merged(p, vs) :: OwnName(p, d) == d.name)
       <==> (forall j | 0 <= j < |vs| && Backpatches(p, vs, j) :: KeepsSpelling(p, vs, j))
  {
    if forall d | d in Merged(p, vs) :: OwnName(p, d) == d.name {
      forall j | 0 <= j < |vs| && Backpatches(p, vs, j) ensures KeepsSpelling(p, vs, j) {
        OwnIsKept(p, vs, j);
      }
    }
    if forall j | 0 <= j < |vs| && Backpatches(p, vs, j) :: KeepsSpelling(p, vs, j) {
      forall d | d in Merged(p, vs) ensures OwnName(p, d) == d.name {
        var t :| 0 <= t < |Merged(p, vs)| && Merged(p, vs)[t] == d;
        KeptIsOwn(p, vs, t);
      }
    }
  }

  lemma OwnIsKept(p: Policy<Export>, vs: seq<Visit<Export>>, j: nat)
    requires forall d | d in Merged(p, vs) :: OwnName(p, d) == d.name
    requires j < |vs| && Backpatches(p, vs, j)
    ensures KeepsSpelling(p, vs, j)
  {
    var name := VisitName(p, vs[j]);
    var t := DiscoveredCovers(p, vs, j);
    MergedAt(p, vs, t);
    var i, w := FirstOfMerged(p, vs, t);
    BackpatchWins(p, vs, j);
    WinnerOfSame(p, vs, name, Merged(p, vs)[t].name);
    assert Merged(p, vs)[t] in Merged(p, vs);
  }

  lemma KeptIsOwn(p: Policy<Export>, vs: seq<Visit<Export>>, t: nat)
    requires forall j | 0 <= j < |vs| && Backpatches(p, vs, j) :: KeepsSpelling(p, vs, j)
    requires t < |Merged(p, vs)|
    ensures OwnName(p, Merged(p, vs)[t]) == Merged(p, vs)[t].name
  {
    var i, w := FirstOfMerged(p, vs, t);
    if w != i {
      LateWinnerBackpatches(p, vs, Merged(p, vs)[t].name, i);
      assert FirstMeeting(p, vs, VisitName(p, vs[w]), i);
    }
  }

  lemma BackpatchWins(p: Policy<Export>, vs: seq<Visit<Export>>, j: nat)
    requires j < |vs| && Backpatches(p, vs, j)
    ensures Winner(p, vs, VisitName(p, vs[j])) == j
  {
    var name, ws := VisitName(p, vs[j]), vs[..j];
    assert FirstAt(p, ws, name, true) == j;
    assert forall i | 0 <= i < j :: ws[i] == vs[i];
    assert Named(p, vs[j], name);
    assert FirstAt(p, vs, name, true) == j;
  }

  lemma LateWinnerBackpatches(p: Policy<Export>, vs: seq<Visit<Export>>, name: string, i: nat)
    requires i < |vs| && FirstMeeting(p, vs, name, i)
    requires Winner(p, vs, name) != i
    ensures var w := Winner(p, vs, name); w < |vs| && Backpatches(p, vs, w)
  {
    var w := Winner(p, vs, name);
    assert vs[w].admin && i < w;
    var ws, own := vs[..w], VisitName(p, vs[w]);
    assert ws[i] == vs[i];
    assert forall k | 0 <= k < w :: ws[k] == vs[k];
    WinnerOfSame(p, ws, name, own);
    assert Named(p, ws[i], name);
    assert FirstAt(p, ws, name, true) == w;
  }

  /** The definition met first for a name is merged under its spelling. */
  lemma MergedOfFirst(p: Policy<Export>, vs: seq<Visit<Export>>, i: nat) returns (t: nat)
    requires i < |vs| && FirstMeeting(p, vs, VisitName(p, vs[i]), i)
    ensures t < |Merged(p, vs)|
    ensures Merged(p, vs)[t] == Won(p, vs, i)
  {
    t := DiscoveredCovers(p, vs, i);
    MergedAt(p, vs, t);
    DiscoveredFirst(p, vs, t);
    var first := Discovered(p, vs)[t];
    assert Named(p, vs[first], VisitName(p, vs[i])) && Named(p, vs[i], VisitName(p, vs[first]));
    assert first == i;
  }

  /** The merge list has at t what was won for the first meeting of its name. */
  lemma FirstIsWon(p: Policy<Export>, vs: seq<Visit<Export>>, t: nat)
    requires t < |Merged(p, vs)|
    ensures var i := Discovered(p, vs)[t];
            FirstMeeting(p, vs, VisitName(p, vs[i]), i) && Merged(p, vs)[t] == Won(p, vs, i)
  {
    MergedAt(p, vs, t);
    DiscoveredFirst(p, vs, t);
  }

  /** At the first place where they differ, a is in lower case and b in upper case. */
  ghost predicate Inverted(a: string, b: string) {
    exists k: nat :: InvertedAt(a, b, k)
  }

  predicate InvertedAt(a: string, b: string, k: nat) {
    k < |a| && k < |b| && a[..k] == b[..k] && 'A' <= b[k] <= 'Z' && a[k] == Lower(b[k])
  }

  /** Texts nested but for the case are in order unless they are inverted. */
  lemma {:induction false} OrderByCase(a: string, b: string)
    requires Fold(a) < Fold(b)
    ensures StrLess(a, b) <==> !Inverted(a, b)
  {
    if a == "" {
    } else {
      assert Fold(a)[0] == Fold(b)[0];
      if a[0] == b[0] {
        assert Fold(a[1..]) == Fold(a)[1..] && Fold(b[1..]) == Fold(b)[1..];
        OrderByCase(a[1..], b[1..]);
        InvertedLater(a, b);
      } else {
        assert a[..0] == b[..0];
        assert forall k | 0 < k < |a| :: a[..k][0] != b[..k][0];
        assert InvertedAt(a, b, 0) <==> Inverted(a, b);
      }
    }
  }

  lemma InvertedLater(a: string, b: string)
    requires a != "" && b != "" && a[0] == b[0]
    ensures Inverted(a, b) <==> Inverted(a[1..], b[1..])
  {
    if Inverted(a, b) {
      var k: nat :| InvertedAt(a, b, k);
      assert k > 0;
      InvertedTail(a, b, k);
      assert InvertedAt(a[1..], b[1..], k - 1);
    }
    if Inverted(a[1..], b[1..]) {
      var k: nat :| InvertedAt(a[1..], b[1..], k);
      InvertedTail(a, b, k + 1);
      assert InvertedAt(a, b, k + 1);
    }
  }

  lemma InvertedTail(a: string, b: string, k: nat)
    requires a != "" && b != "" && a[0] == b[0] && 0 < k < |a| && k < |b|
    ensures InvertedAt(a, b, k) <==> InvertedAt(a[1..], b[1..], k - 1)
  {
    assert a[..k] == [a[0]] + a[1..][..k - 1] && b[..k] == [b[0]] + b[1..][..k - 1];
    assert a[1..][..k - 1] == a[..k][1..] && b[1..][..k - 1] == b[..k][1..];
  }

  /** Mount points are first met at i and j, those of their winners are nested, and what was met is inverted. */
  ghost predicate Misplaced(p: Policy<Export>, vs: seq<Visit<Export>>, i: nat, j: nat)
    requires i < |vs| && j < |vs|
  {
    var a, b := VisitName(p, vs[i]), VisitName(p, vs[j]);
    && FirstMeeting(p, vs, a, i) && FirstMeeting(p, vs, b, j)
    && OwnName(p, Won(p, vs, i)) < OwnName(p, Won(p, vs, j))
    && Inverted(a, b)
  }

  /** Deliveries put a mount point before those it is a proper prefix of. */
  ghost predicate Nested(p: Policy<Export>, ds: seq<Def<Export>>) {
    forall i, j | 0 <= i < |ds| && 0 <= j < |ds| && OwnName(p, ds[i]) < OwnName(p, ds[j]) :: i < j
  }

  /** Two merged exports with nested mount points are in order unless what was met first is inverted. */
  lemma NestedNames(p: Policy<Export>, vs: seq<Visit<Export>>, s: nat, t: nat)
    requires s < |Merged(p, vs)| && t < |Merged(p, vs)|
    requires OwnName(p, Merged(p, vs)[s]) < OwnName(p, Merged(p, vs)[t])
    ensures StrLess(Merged(p, vs)[s].name, Merged(p, vs)[t].name) <==>
              !Inverted(Merged(p, vs)[s].name, Merged(p, vs)[t].name)
  {
    var i, w := FirstOfMerged(p, vs, s);
    var j, x := FirstOfMerged(p, vs, t);
    var a, b := Merged(p, vs)[s].name, Merged(p, vs)[t].name;
    var u, v := VisitName(p, vs[w]), VisitName(p, vs[x]);
    assert Fold(u) == Fold(a) && Fold(v) == Fold(b);
    assert Fold(u) == Fold(v)[..|u|];
    OrderByCase(a, b);
  }

  /** Exports are mounted parents first if and only if no pair of them is misplaced. */
  lemma PrefixFirstExactly(expand: (nat, string) -> string, chain: seq<Node>)
    ensures var p := ExportPolicy(expand);
            var vs := Visits(p, chain);
            Nested(p, Sort(Merged(p, vs))) <==> forall i, j | 0 <= i < |vs| && 0 <= j < |vs| :: !Misplaced(p, vs, i, j)
  {
    var p := ExportPolicy(expand);
    var vs := Visits(p, chain);
    var ms := Merged(p, vs);
    var ds := Sort(ms);
    SortFacts(ms);
    if forall i, j | 0 <= i < |vs| && 0 <= j < |vs| :: !Misplaced(p, vs, i, j) {
      forall i, j | 0 <= i < |ds| && 0 <= j < |ds| && OwnName(p, ds[i]) < OwnName(p, ds[j])
        ensures i < j
      {
        var s := SortedFrom(ms, i);
        var t := SortedFrom(ms, j);
        NestedNames(p, vs, s, t);
        FirstIsWon(p, vs, s);
        FirstIsWon(p, vs, t);
        assert !Misplaced(p, vs, Discovered(p, vs)[s], Discovered(p, vs)[t]);
        ExportsSorted(expand, chain, i, j);
      }
    }
    if Nested(p, ds) {
      forall i, j | 0 <= i < |vs| && 0 <= j < |vs|
        ensures !Misplaced(p, vs, i, j)
      {
        if Misplaced(p, vs, i, j) {
          var s := MergedOfFirst(p, vs, i);
          var t := MergedOfFirst(p, vs, j);
          NestedNames(p, vs, s, t);
          var k := SortedTo(ms, s);
          var l := SortedTo(ms, t);
          ExportsSorted(expand, chain, k, l);
          assert false;
        }
      }
    }
  }

  /** When no back-patching changes a spelling, exports are delivered in the strict order of their
      own mount points, parents first. */
  lemma PrefixFirst(expand: (nat, string) -> string, chain: seq<Node>, i: nat, j: nat)
    requires var p := ExportPolicy(expand);
             forall k | 0 <= k < |Visits(p, chain)| && Backpatches(p, Visits(p, chain), k) ::
               KeepsSpelling(p, Visits(p, chain), k)
    requires i < |Sort(Merged(ExportPolicy(expand), Visits(ExportPolicy(expand), chain)))|
    requires j < |Sort(Merged(ExportPolicy(expand), Visits(ExportPolicy(expand), chain)))|
    ensures var p := ExportPolicy(expand);
            var ds := Sort(Merged(p, Visits(p, chain)));
            && (i < j <==> StrLess(OwnName(p, ds[i]), OwnName(p, ds[j])))
            && Nested(p, ds)
  {
    var p := ExportPolicy(expand);
    var vs := Visits(p, chain);
    SortedUnderOwnName(p, vs);
    SortFacts(Merged(p, vs));
    var ds := Sort(Merged(p, vs));
    forall k | 0 <= k < |ds| ensures OwnName(p, ds[k]) == ds[k].name {
      var t := SortedFrom(Merged(p, vs), k);
    }
    ExportsSorted(expand, chain, i, j);
    forall k, l | 0 <= k < |ds| && 0 <= l < |ds| && OwnName(p, ds[k]) < OwnName(p, ds[l])
      ensures k < l
    {
      ExportsSorted(expand, chain, k, l);
    }
  }

  lemma SortedFrom(ms: seq<Def<Export>>, i: nat) returns (t: nat)
    requires i < |Sort(ms)|
    ensures t < |ms| && ms[t] == Sort(ms)[i]
  {
    SortFacts(ms);
    assert Sort(ms)[i] in multiset(Sort(ms));
    t :| t < |ms| && ms[t] == Sort(ms)[i];
  }

  lemma SortedTo(ms: seq<Def<Export>>, t: nat) returns (i: nat)
    requires t < |ms|
    ensures i < |Sort(ms)| && Sort(ms)[i] == ms[t]
  {
    SortFacts(ms);
    assert ms[t] in multiset(ms);
    i :| i < |Sort(ms)| && Sort(ms)[i] == ms[t];
  }

  // ---- a chain whose exports are not mounted in prefix order ----

  const SMALL := Export("/a", None, 8)
  const INNER := Export("/A/b", None, 8)
  const BIG := Export("/A", None, 8)

  function Exporting(exports: seq<Export>): Option<Config> {
    Some(Config(Tag(NoScalars(), None, None, Share(None, None, None, None, None, None, None), []), [], exports))
  }

  /** The leaf exports /a and /A/b, the admin of its parent exports /A. */
  function Respelled(): seq<Node> {
    [Node("/r/n", None, Exporting([SMALL, INNER])), Node("/r", Exporting([BIG]), Exporting([]))]
  }

  function Plain(): Policy<Export> {
    ExportPolicy((d, s) => s)
  }

  lemma {:induction false} NoneSkipped(p: Policy<Export>, es: seq<Export>, depth: nat, admin: bool, index: nat)
    requires index <= |es| && forall e | e in es :: !p.skip(depth, e)
    ensures LevelFrom(p, es, depth, admin, index) ==
              seq(|es| - index, i requires 0 <= i < |es| - index => Visit(depth, admin, es[index + i]))
    decreases |es| - index
  {
    if index >= |es| {
    } else {
      NoneSkipped(p, es, depth, admin, index + 1);
    }
  }

  lemma RespelledVisits()
    ensures Visits(Plain(), Respelled()) == [Visit(0, false, SMALL), Visit(0, false, INNER), Visit(1, true, BIG)]
  {
    var p, chain := Plain(), Respelled();
    assert RED_EXPORT_PRIVATES == 0x11 && (8 as bv32) & 0x11 == 0;
    assert !Private(BIG);
    NoneSkipped(p, [SMALL, INNER], 0, false, 0);
    NoneSkipped(p, [BIG], 1, true, 0);
    assert LevelFrom(p, [SMALL, INNER], 0, false, 0) == [Visit(0, false, SMALL), Visit(0, false, INNER)];
    assert LevelFrom(p, [BIG], 1, true, 0) == [Visit(1, true, BIG)];
    assert VisitsFrom(p, chain, 2) == [];
    assert VisitsFrom(p, chain, 1) == [Visit(1, true, BIG)];
    assert VisitsFrom(p, chain, 0) == [Visit(0, false, SMALL), Visit(0, false, INNER)] + VisitsFrom(p, chain, 1);
  }

  lemma Spellings()
    ensures EqNoCase("/A", "/a") && !EqNoCase("/A/b", "/a")
  {
    assert Fold("/A") == "/a" == Fold("/a");
    assert |Fold("/A/b")| == 4;
  }

  lemma Grows(vs: seq<Visit<Export>>, v: Visit<Export>, ds: seq<Def<Export>>)
    requires InOrder(vs + [v]) && NoClash(Plain(), vs)
    requires Step(Plain(), Merged(Plain(), vs), v) == Some(ds)
    ensures NoClash(Plain(), vs + [v]) && Merged(Plain(), vs + [v]) == ds
  {
    StepKeepsMerge(Plain(), vs, v);
    NoClashGrows(Plain(), vs, v);
  }

  const DSMALL := Def("/a", SMALL, 0, false)
  const DINNER := Def("/A/b", INNER, 0, false)
  const DBIG := Def("/a", BIG, 1, true)

  lemma RespelledLeaf()
    ensures var vs := [Visit(0, false, SMALL), Visit(0, false, INNER)];
            NoClash(Plain(), vs) && Merged(Plain(), vs) == [DINNER, DSMALL]
  {
    Spellings();
    var va, vb := Visit(0, false, SMALL), Visit(0, false, INNER);
    assert VisitName(Plain(), va) == "/a" && VisitName(Plain(), vb) == "/A/b";
    assert [] + [va] == [va] && [DSMALL] + [] == [DSMALL];
    Grows([], va, [DSMALL]);
    FindAt([DSMALL], "/A/b", 1);
    assert [va] + [vb] == [va, vb] && [DINNER] + [DSMALL] == [DINNER, DSMALL];
    Grows([va], vb, [DINNER, DSMALL]);
  }

  lemma RespelledMerge()
    ensures var vs := Visits(Plain(), Respelled());
            NoClash(Plain(), vs) && Merged(Plain(), vs) == [DINNER, DBIG]
  {
    RespelledVisits();
    RespelledLeaf();
    Spellings();
    var vs, v := [Visit(0, false, SMALL), Visit(0, false, INNER)], Visit(1, true, BIG);
    assert vs + [v] == Visits(Plain(), Respelled());
    VisitsFromInOrder(Plain(), Respelled(), 0);
    assert VisitName(Plain(), v) == "/A";
    FindAt([DINNER, DSMALL], "/A", 1);
    assert [DINNER, DSMALL][1 := DBIG] == [DINNER, DBIG];
    Grows(vs, v, [DINNER, DBIG]);
  }

  /** The parent's admin respells /a of the leaf as /A: /A is then mounted after /A/b, and hides it. */
  lemma PrefixLast()
    ensures NoClash(Plain(), Visits(Plain(), Respelled()))
    ensures Sort(Merged(Plain(), Visits(Plain(), Respelled()))) == [DINNER, DBIG]
    ensures OwnName(Plain(), DBIG) < OwnName(Plain(), DINNER)
  {
    RespelledMerge();
    assert StrLess("/A/b", "/a");
    assert Sort([DBIG]) == Insert(DBIG, []) == [DBIG];
    assert [DINNER, DBIG][1..] == [DBIG];
    assert Sort([DINNER, DBIG]) == Insert(DINNER, [DBIG]);
  }
}
