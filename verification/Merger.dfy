/** The walk shared by mergeConfVar, mergeConfCapa and mergeConfExp: winners are kept in a linked
    list whose items live as long as the recursion that discovered them, winners are back-patched
    in place, and the list is delivered to the callback at the bottom of the recursion. */
module Merger {
  import opened Wrappers
  import opened Strings
  import opened Config
  import opened Chains
  import opened MergeStep
  import opened Sorting

  /** One call of the callback. */
  datatype Delivery<+E> = Delivery(def: Def<E>, index: nat, count: nat)

  /** The calls made for a list when call i of the callback returns answer(i): in order, with
      indexes from 0 and a constant count, until the first non-zero answer. */
  ghost predicate Delivered<E(!new)>(ds: seq<Def<E>>, answer: nat -> int, calls: seq<Delivery<E>>, rc: int) {
    && |calls| <= |ds|
    && (forall i | 0 <= i < |calls| :: calls[i] == Delivery(ds[i], i, |ds|))
    && (forall i | 0 <= i < |calls| - 1 :: answer(i) == 0)
    && rc == (if calls == [] then 0 else answer(|calls| - 1))
    && (|calls| < |ds| ==> rc != 0)
  }

  datatype Turning = End | Refused | Recorded | Backmerged

  class Link<E> {
    /** spelling met first */
    const name: string
    const next: Link?<E>
    var entry: E
    var depth: nat
    var admin: bool

    constructor (name: string, entry: E, depth: nat, admin: bool, next: Link?<E>)
      ensures this.name == name && this.next == next
      ensures this.entry == entry && this.depth == depth && this.admin == admin
    {
      this.name, this.next := name, next;
      this.entry, this.depth, this.admin := entry, depth, admin;
    }

    function Value(): Def<E>
      reads this
    {
      Def(name, entry, depth, admin)
    }
  }

  /** What remains to be met from a position of the walk. */
  function Rest<E>(p: Policy<E>, chain: seq<Node>, depth: nat, admin: bool, index: nat): seq<Visit<E>>
    requires depth < |chain|
  {
    LevelFrom(p, Entries(p, chain[depth], admin), depth, admin, index)
    + (if admin then LevelFrom(p, Entries(p, chain[depth], false), depth, false, 0) else [])
    + VisitsFrom(p, chain, depth + 1)
  }

  /** The three moves of the walk, in terms of what remains. */
  lemma RestMoves<E>(p: Policy<E>, chain: seq<Node>, depth: nat, admin: bool, index: nat)
    requires depth < |chain|
    ensures var es := Entries(p, chain[depth], admin);
            var rest := Rest(p, chain, depth, admin, index);
            if index < |es| then
              rest == (if p.skip(depth, es[index]) then [] else [Visit(depth, admin, es[index])])
                      + Rest(p, chain, depth, admin, index + 1)
            else if admin then rest == Rest(p, chain, depth, false, 0)
            else if depth + 1 < |chain| then rest == Rest(p, chain, depth + 1, true, 0)
            else rest == []
  {
  }

  /** The search of the next definition to process: None at the end of the chain. */
  method Next<E>(p: Policy<E>, chain: seq<Node>, depth: nat, admin: bool, index: nat)
    returns (v: Option<Visit<E>>, depth': nat, admin': bool, index': nat)
    requires depth < |chain|
    ensures depth' < |chain|
    ensures v.Some? ==> v.value.depth == depth' && v.value.admin == admin'
    ensures match v
            case None => Rest(p, chain, depth, admin, index) == []
            case Some(x) => Rest(p, chain, depth, admin, index) == [x] + Rest(p, chain, depth', admin', index')
  {
    depth', admin', index' := depth, admin, index;
    while true
      invariant depth' < |chain|
      invariant Rest(p, chain, depth, admin, index) == Rest(p, chain, depth', admin', index')
      decreases |chain| - depth', admin', |Entries(p, chain[depth'], admin')| - index'
    {
      RestMoves(p, chain, depth', admin', index');
      var es := Entries(p, chain[depth'], admin');
      if index' < |es| {
        var e := es[index'];
        index' := index' + 1;
        if !p.skip(depth', e) {
          return Some(Visit(depth', admin', e)), depth', admin', index';
        }
      } else if admin' {
        admin', index' := false, 0;
      } else if depth' + 1 == |chain| {
        return None, depth', admin', index';
      } else {
        depth', admin', index' := depth' + 1, true, 0;
      }
    }
  }

  class Merger<E(!new)> {
    const policy: Policy<E>
    const chain: seq<Node>
    const sorted: bool
    const answer: nat -> int
    var head: Link?<E>
    var count: nat
    var calls: seq<Delivery<E>>
    ghost var spine: seq<Link<E>>

    constructor (policy: Policy<E>, chain: seq<Node>, sorted: bool, answer: nat -> int)
      ensures this.policy == policy && this.chain == chain && this.sorted == sorted && this.answer == answer
      ensures spine == [] && Linked() && calls == []
    {
      this.policy, this.chain, this.sorted, this.answer := policy, chain, sorted, answer;
      head, count, calls, spine := null, 0, [], [];
    }

    static function LinkAt(links: seq<Link<E>>, i: nat): Link?<E> {
      if i < |links| then links[i] else null
    }

    ghost predicate Linked()
      reads this`head, this`count, this`spine
    {
      && count == |spine|
      && head == LinkAt(spine, 0)
      && (forall i | 0 <= i < |spine| :: spine[i].next == LinkAt(spine, i + 1))
      && (forall i, j | 0 <= i < j < |spine| :: spine[i] != spine[j])
    }

    static ghost function ValuesOf(links: seq<Link<E>>): (ds: seq<Def<E>>)
      reads links
      ensures |ds| == |links|
    {
      seq(|links|, i requires 0 <= i < |links| reads links => links[i].Value())
    }

    ghost function Values(): (ds: seq<Def<E>>)
      reads this`spine, spine
      ensures |ds| == |spine|
    {
      ValuesOf(spine)
    }

    /** What the callback gets when no definition is refused. */
    ghost function Result(): seq<Def<E>> {
      var ds := Merged(policy, Visits(policy, chain));
      if sorted then Sort(ds) else ds
    }

    /** The items of the list, from the head. */
    method Collect() returns (list: seq<Def<E>>)
      requires Linked()
      ensures list == Values()
    {
      list := [];
      var link := head;
      while link != null
        invariant |list| <= |spine| && link == LinkAt(spine, |list|)
        invariant forall i | 0 <= i < |list| :: list[i] == Values()[i]
        decreases |spine| - |list|
      {
        list, link := list + [link.Value()], link.next;
      }
    }

    /** Gives the list to the callback. */
    method Call(list: seq<Def<E>>) returns (rc: int)
      requires |list| == count && calls == []
      modifies this`calls
      ensures Delivered(list, answer, calls, rc)
    {
      rc := 0;
      var index: nat := 0;
      while rc == 0 && index < count
        invariant index <= count == |list| && index == |calls|
        invariant forall i | 0 <= i < index :: calls[i] == Delivery(list[i], i, |list|)
        invariant forall i | 0 <= i < index - 1 :: answer(i) == 0
        invariant rc == if index == 0 then 0 else answer(index - 1)
      {
        calls := calls + [Delivery(list[index], index, count)];
        rc := answer(index);
        index := index + 1;
      }
    }

    /** At the bottom of the recursion, gives the list, sorted if needed, to the callback. */
    method Send() returns (rc: int)
      requires Linked() && calls == []
      modifies this`calls
      ensures Delivered(if sorted then Sort(Values()) else Values(), answer, calls, rc)
    {
      var list := Collect();
      if sorted {
        list := Sort(list);
      }
      rc := Call(list);
    }

    /** Index of the list where the name is found, the length of the list otherwise. */
    method Lookup(name: string) returns (link: Link?<E>, ghost t: nat)
      requires Linked()
      ensures link == LinkAt(spine, Find(Values(), name))
      ensures t == Find(Values(), name)
    {
      link, t := head, 0;
      while link != null && !EqNoCase(link.name, name)
        invariant t <= |spine|
        invariant link == LinkAt(spine, t)
        invariant forall i | 0 <= i < t :: !EqNoCase(Values()[i].name, name)
        decreases |spine| - t
      {
        assert spine[t].Value() == Values()[t];
        link, t := link.next, t + 1;
      }
      assert t < |spine| ==> Values()[t].name == link.name;
      FindAt(Values(), name, t);
    }

    /** Back-merging of a definition whose name is already in the list. */
    method Backmerge(link: Link<E>, ghost t: nat, v: Visit<E>) returns (refused: bool)
      requires Linked() && t < |spine| && spine[t] == link
      requires t == Find(Values(), VisitName(policy, v))
      modifies link
      ensures refused == Step(policy, old(Values()), v).None?
      ensures !refused ==> Step(policy, old(Values()), v).value == Values()
    {
      ghost var ds := Values();
      assert ds[t] == link.Value();
      refused := false;
      if link.depth == v.depth {
        if link.admin == v.admin {
          refused := policy.twice(link.entry, v.entry);
        }
      } else if v.admin {
        if link.admin {
          refused := policy.badly(link.entry, v.entry);
        } else {
          // nearer normal definitions do not resist a farther admin one
          link.entry, link.depth, link.admin := v.entry, v.depth, v.admin;
          assert Values() == ds[t := link.Value()];
        }
      } else if !link.admin {
        refused := policy.badly(link.entry, v.entry);
      }
    }

    /** Steps to the next definition of the walk, of which done is the part already met. */
    method Fetch(depth: nat, admin: bool, index: nat, ghost done: seq<Visit<E>>)
      returns (found: Option<Visit<E>>, depth': nat, admin': bool, index': nat)
      requires At(done, depth, admin, index)
      ensures found.None? ==> done == Visits(policy, chain)
      ensures found.Some? ==>
                var v := found.value;
                && v.depth == depth' && v.admin == admin'
                && depth' < |chain|
                && |Rest(policy, chain, depth', admin', index')| < |Rest(policy, chain, depth, admin, index)|
                && var next := Step(policy, Merged(policy, done), v);
                   if next.Some? then
                     next.value == Merged(policy, done + [v]) && At(done + [v], depth', admin', index')
                   else !NoClash(policy, Visits(policy, chain))
    {
      found, depth', admin', index' := Next(policy, chain, depth, admin, index);
      if found.Some? {
        Advance(done, found.value, Rest(policy, chain, depth', admin', index'));
      }
    }

    /** done has been met without refusal, and the walk goes on from the given position. */
    ghost predicate At(done: seq<Visit<E>>, depth: nat, admin: bool, index: nat) {
      && depth < |chain|
      && done + Rest(policy, chain, depth, admin, index) == Visits(policy, chain)
      && NoClash(policy, done)
    }

    /** A name not met yet: its item becomes the head of the list. */
    method Add(v: Visit<E>)
      requires Linked() && Find(Values(), VisitName(policy, v)) == |spine|
      modifies this`head, this`count, this`spine
      ensures Linked() && spine != [] && fresh(spine[0]) && spine == [spine[0]] + old(spine)
      ensures Step(policy, old(Values()), v) == Some(Values())
    {
      ghost var ds, links := Values(), spine;
      assert links == [] || head == links[0];
      var item := new Link(VisitName(policy, v), v.entry, v.depth, v.admin, head);
      assert ValuesOf([item] + links) == [item.Value()] + ds;
      LinksGrow(item, links);
      head, count, spine := item, count + 1, [item] + links;
    }

    /** Adding an item in front keeps the shape of the list. */
    static lemma LinksGrow(item: Link<E>, links: seq<Link<E>>)
      requires forall i | 0 <= i < |links| :: links[i].next == LinkAt(links, i + 1)
      requires forall i, j | 0 <= i < j < |links| :: links[i] != links[j]
      requires item !in links && item.next == LinkAt(links, 0)
      ensures var all := [item] + links;
              && (forall i | 0 <= i < |all| :: all[i].next == LinkAt(all, i + 1))
              && (forall i, j | 0 <= i < j < |all| :: all[i] != all[j])
    {
    }

    /** The list is the merge of the part of the walk already met. */
    ghost predicate Holds(done: seq<Visit<E>>, depth: nat, admin: bool, index: nat)
      reads this, spine
    {
      Linked() && At(done, depth, admin, index) && Values() == Merged(policy, done)
    }

    ghost function Left(depth: nat, admin: bool, index: nat): nat
      requires depth < |chain|
    {
      |Rest(policy, chain, depth, admin, index)|
    }

    /** One turn of the loop of mergeConfXxx: ends the walk, records a new name, back-merges a
        name already met, or refuses. */
    method Turn(depth: nat, admin: bool, index: nat, ghost done: seq<Visit<E>>)
      returns (turn: Turning, depth': nat, admin': bool, index': nat, ghost done': seq<Visit<E>>)
      requires Holds(done, depth, admin, index) && calls == []
      modifies this, spine
      ensures calls == []
      ensures turn.End? ==> Linked() && Values() == Merged(policy, Visits(policy, chain))
                            && NoClash(policy, Visits(policy, chain))
      ensures turn.Refused? ==> !NoClash(policy, Visits(policy, chain))
      ensures turn.Recorded? || turn.Backmerged? ==>
                Holds(done', depth', admin', index') && Left(depth', admin', index') < Left(depth, admin, index)
      ensures turn.Recorded? ==> spine != [] && fresh(spine[0]) && spine == [spine[0]] + old(spine)
      ensures turn.Backmerged? ==> spine == old(spine)
    {
      var found;
      found, depth', admin', index' := Fetch(depth, admin, index, done);
      done' := done;
      if found.None? {
        turn := End;
        return;
      }
      var v := found.value;
      done' := done + [v];
      ghost var next := Step(policy, Values(), v);
      turn := Meet(v);
      assert next == if turn.Refused? then None else Some(Values());
    }

    /** Processes a definition met by the walk. */
    method Meet(v: Visit<E>) returns (turn: Turning)
      requires Linked()
      modifies this`head, this`count, this`spine, spine
      ensures Linked() && !turn.End?
      ensures Step(policy, old(Values()), v) == if turn.Refused? then None else Some(Values())
      ensures turn.Recorded? ==> spine != [] && fresh(spine[0]) && spine == [spine[0]] + old(spine)
      ensures turn.Backmerged? ==> spine == old(spine)
    {
      var link, t := Lookup(VisitName(policy, v));
      if link == null {
        Add(v);
        turn := Recorded;
      } else {
        var refused := Backmerge(link, t, v);
        turn := if refused then Refused else Backmerged;
      }
    }

    /** The loop of mergeConfXxx, up to its first turn that is not a back-merge. */
    method Walk(depth0: nat, admin0: bool, index0: nat, ghost done0: seq<Visit<E>>)
      returns (turn: Turning, depth: nat, admin: bool, index: nat, ghost done: seq<Visit<E>>)
      requires Holds(done0, depth0, admin0, index0) && calls == []
      modifies this, spine
      ensures calls == [] && !turn.Backmerged?
      ensures turn.End? ==> Linked() && Values() == Merged(policy, Visits(policy, chain))
                            && NoClash(policy, Visits(policy, chain))
      ensures turn.Refused? ==> !NoClash(policy, Visits(policy, chain))
      ensures turn.Recorded? ==>
                && Holds(done, depth, admin, index) && Left(depth, admin, index) < Left(depth0, admin0, index0)
                && spine != [] && fresh(spine[0]) && spine == [spine[0]] + old(spine)
    {
      turn, depth, admin, index, done := Backmerged, depth0, admin0, index0, done0;
      while turn.Backmerged?
        invariant calls == []
        invariant turn.Backmerged? ==>
                    Holds(done, depth, admin, index) && spine == old(spine)
                    && Left(depth, admin, index) <= Left(depth0, admin0, index0)
        invariant turn.End? ==> Linked() && Values() == Merged(policy, Visits(policy, chain))
                                && NoClash(policy, Visits(policy, chain))
        invariant turn.Refused? ==> !NoClash(policy, Visits(policy, chain))
        invariant turn.Recorded? ==>
                    && Holds(done, depth, admin, index) && Left(depth, admin, index) < Left(depth0, admin0, index0)
                    && spine != [] && fresh(spine[0]) && spine == [spine[0]] + old(spine)
        decreases if turn.Backmerged? then 1 + Left(depth, admin, index) else 0
      {
        turn, depth, admin, index, done := Turn(depth, admin, index, done);
      }
    }

    /** mergeConfXxx: the rest of the walk from the given position. Recording a new name recurses,
        which keeps its item alive until the list is delivered. */
    method Merge(depth0: nat, admin0: bool, index0: nat, ghost done0: seq<Visit<E>>) returns (rc: int)
      requires Holds(done0, depth0, admin0, index0) && calls == []
      modifies this, spine
      ensures if NoClash(policy, Visits(policy, chain)) then Delivered(Result(), answer, calls, rc)
              else rc == -1 && calls == []
      decreases Left(depth0, admin0, index0)
    {
      var turn, depth, admin, index, done := Walk(depth0, admin0, index0, done0);
      if turn.End? {
        rc := Send();
      } else if turn.Refused? {
        rc := -1;
      } else {
        rc := Merge(depth, admin, index, done);
      }
    }

    /** Meeting one definition, in terms of the whole walk. */
    lemma Advance(done: seq<Visit<E>>, v: Visit<E>, rest: seq<Visit<E>>)
      requires done + ([v] + rest) == Visits(policy, chain)
      ensures (done + [v]) + rest == Visits(policy, chain)
      ensures var next := Step(policy, Merged(policy, done), v);
              if next.Some? then next.value == Merged(policy, done + [v])
                                 && (NoClash(policy, done) ==> NoClash(policy, done + [v]))
              else !NoClash(policy, Visits(policy, chain))
    {
      var vs := Visits(policy, chain);
      assert done + ([v] + rest) == (done + [v]) + rest;
      VisitsFromInOrder(policy, chain, 0);
      assert InOrder(done + [v]) by {
        assert forall i | 0 <= i < |done + [v]| :: (done + [v])[i] == vs[i];
      }
      StepKeepsMerge(policy, done, v);
      NoClashGrows(policy, done, v);
      if Clash(policy, done + [v], |done|) {
        assert vs[..|done|] == done == (done + [v])[..|done|] && vs[|done|] == v;
        assert Clash(policy, vs, |done|);
      }
    }
  }
}
