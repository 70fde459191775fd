/** The ordering of merged exports by recorded mount point (the qsort of the sources). */
module Sorting {
  import opened Strings
  import opened Chains

  ghost predicate Sorted<E>(ds: seq<Def<E>>) {
    forall i, j | 0 <= i < j < |ds| :: StrLess(ds[i].name, ds[j].name)
  }

  ghost predicate Distinct<E>(ds: seq<Def<E>>) {
    forall i, j | 0 <= i < j < |ds| :: ds[i].name != ds[j].name
  }

  function Insert<E>(d: Def<E>, ds: seq<Def<E>>): (r: seq<Def<E>>)
    ensures |r| == |ds| + 1
  {
    if ds == [] || StrLess(d.name, ds[0].name) then [d] + ds else [ds[0]] + Insert(d, ds[1..])
  }

  function Sort<E>(ds: seq<Def<E>>): (r: seq<Def<E>>)
    ensures |r| == |ds|
  {
    if ds == [] then [] else Insert(ds[0], Sort(ds[1..]))
  }

  lemma {:induction false} InsertPermutes<E>(d: Def<E>, ds: seq<Def<E>>)
    ensures multiset(Insert(d, ds)) == multiset{d} + multiset(ds)
  {
    if ds == [] {
    } else {
      assert ds == [ds[0]] + ds[1..];
      InsertPermutes(d, ds[1..]);
    }
  }

  lemma {:induction false} InsertSorts<E>(d: Def<E>, ds: seq<Def<E>>)
    requires Sorted(ds) && forall i | 0 <= i < |ds| :: ds[i].name != d.name
    ensures Sorted(Insert(d, ds))
  {
    if ds == [] {
    } else {
      StrLessTotal(d.name, ds[0].name);
      if StrLess(d.name, ds[0].name) {
        forall j | 0 < j < |ds|
          ensures StrLess(d.name, ds[j].name)
        {
          StrLessTransitive(d.name, ds[0].name, ds[j].name);
        }
      } else {
        InsertSorts(d, ds[1..]);
        InsertPermutes(d, ds[1..]);
        var tail := Insert(d, ds[1..]);
        forall j | 0 <= j < |tail|
          ensures StrLess(ds[0].name, tail[j].name)
        {
          assert tail[j] in multiset(tail);
        }
      }
    }
  }

  /** Sorting permutes, and orders strictly when names are distinct. */
  lemma {:induction false} SortFacts<E>(ds: seq<Def<E>>)
    ensures multiset(Sort(ds)) == multiset(ds)
    ensures Distinct(ds) ==> Sorted(Sort(ds))
  {
    if ds == [] {
    } else {
      assert ds == [ds[0]] + ds[1..];
      SortFacts(ds[1..]);
      var r := Sort(ds[1..]);
      InsertPermutes(ds[0], r);
      if Distinct(ds) {
        forall i | 0 <= i < |r|
          ensures r[i].name != ds[0].name
        {
          assert r[i] in multiset(r);
        }
        InsertSorts(ds[0], r);
      }
    }
  }
}
