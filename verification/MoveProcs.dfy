/** moveProcs: the processes of a cgroup go to another one, as far as their list is read whole. */
module MoveProcs {
  import opened Wrappers
  import opened Strings
  import opened ProcsText
  import opened CgroupTree

  ghost function Procs(t: Tree, p: Path): set<nat> {
    if p in t then t[p].procs else {}
  }

  ghost predicate SameProcs(before: Tree, after: Tree) {
    forall p :: Procs(after, p) == Procs(before, p)
  }

  /** Only processes have moved. */
  ghost predicate SameShape(before: Tree, after: Tree) {
    && after.Keys == before.Keys
    && forall p | p in before :: after[p].subtree == before[p].subtree && after[p].settings == before[p].settings
  }

  /** Some processes have gone from a cgroup to another one, and no other process has moved. */
  ghost predicate Transferred(before: Tree, after: Tree, from: Path, to: Path) {
    && Procs(after, from) <= Procs(before, from)
    && Procs(after, to) == Procs(before, to) + (Procs(before, from) - Procs(after, from))
    && forall p | p != from && p != to :: Procs(after, p) == Procs(before, p)
  }

  /** Some processes have gone to a cgroup, and no process is lost. */
  ghost predicate Gathered(before: Tree, after: Tree, to: Path) {
    AllProcs(after) == AllProcs(before) && forall p | p != to :: Procs(after, p) <= Procs(before, p)
  }

  /** Each process is where it was, or where processes have been gathered. */
  lemma GatheredPlace(before: Tree, after: Tree, to: Path, p: Path, x: nat)
    requires Gathered(before, after, to) && OnePlace(before) && x in Procs(before, p)
    ensures x in Procs(after, p) || x in Procs(after, to)
  {
    assert x in AllProcs(before);
    var q :| q in after && x in after[q].procs;
    assert x in Procs(after, q);
    if q != to {
      assert x in Procs(before, q);
      assert q == p;
    }
  }

  /** No read of the list of these processes ends inside a number, in whatever order they are listed. */
  ghost predicate WholeReads(k: Kernel, procs: set<nat>)
    reads k
  {
    forall pids | Lists(pids, procs) :: Whole(Listing(Numbers(pids)), k.asks, k.readings)
  }

  /** It is so when one read can return any list of them. */
  lemma ShortIsWhole(k: Kernel, procs: set<nat>)
    requires k.asks(k.readings) >= SIZE
    requires forall pids | Lists(pids, procs) :: |Listing(Numbers(pids))| <= SIZE
    ensures WholeReads(k, procs)
  {
    forall pids | Lists(pids, procs) ensures Whole(Listing(Numbers(pids)), k.asks, k.readings) {
      FitsIsWhole(Numbers(pids), k.asks, k.readings);
    }
  }

  // ---- writes ----

  /** The process of a text that is written. */
  ghost predicate Accepted(parses: string -> Option<nat>, t: Tree, text: string) {
    parses(text).Some? && parses(text).value in AllProcs(t)
  }

  /** The tree once these texts have been written to a cgroup. */
  ghost function Attached(parses: string -> Option<nat>, t: Tree, to: Path, texts: seq<string>): (r: Tree)
    requires to in t
    ensures r.Keys == t.Keys
  {
    if texts == [] then t
    else
      var prior := Attached(parses, t, to, texts[..|texts| - 1]);
      match parses(texts[|texts| - 1])
      case None => prior
      case Some(pid) => Moved(prior, to, pid)
  }

  lemma MovedGathers(before: Tree, t: Tree, to: Path, pid: nat)
    requires to in t && Gathered(before, t, to) && pid in AllProcs(t)
    ensures Gathered(before, Moved(t, to, pid), to) && SameShape(t, Moved(t, to, pid))
  {
    var after := Moved(t, to, pid);
    forall x | x in AllProcs(t) ensures x in AllProcs(after) {
      var p :| p in t && x in t[p].procs;
      assert x in after[if x == pid then to else p].procs;
    }
    forall x | x in AllProcs(after) ensures x in AllProcs(t) {
      var p :| p in after && x in after[p].procs;
    }
    forall p | p != to ensures Procs(after, p) <= Procs(before, p) {
      assert Procs(after, p) <= Procs(t, p);
    }
  }

  lemma MovedOnePlace(t: Tree, to: Path, pid: nat)
    requires to in t && OnePlace(t)
    ensures OnePlace(Moved(t, to, pid))
  {
  }

  lemma MovedOne(before: Tree, t: Tree, from: Path, to: Path, pid: nat)
    requires OnePlace(t) && from in t && to in t && from != to && pid in t[from].procs
    requires Transferred(before, t, from, to)
    ensures Transferred(before, Moved(t, to, pid), from, to) && Moved(t, to, pid)[from].procs == t[from].procs - {pid}
  {
    var after := Moved(t, to, pid);
    forall p | p != from && p != to ensures Procs(after, p) == Procs(before, p) {
      assert p in t ==> pid !in t[p].procs;
    }
    assert pid in Procs(before, from);
  }

  /** The n first processes of a list have been moved. */
  ghost predicate MovedTo(t: Tree, after: Tree, from: Path, to: Path, pids: seq<nat>, n: nat) {
    && from in after && to in after && from != to && n <= |pids|
    && OnePlace(after) && Transferred(t, after, from, to) && Lists(pids[n..], after[from].procs)
  }

  lemma TransferOne(t: Tree, prior: Tree, from: Path, to: Path, pids: seq<nat>, n: nat)
    requires n < |pids| && MovedTo(t, prior, from, to, pids, n)
    ensures MovedTo(t, Moved(prior, to, pids[n]), from, to, pids, n + 1)
  {
    var left := pids[n..];
    assert left[0] == pids[n] && left[0] in left;
    MovedOne(t, prior, from, to, pids[n]);
    MovedOnePlace(prior, to, pids[n]);
    assert pids[n + 1..] == left[1..];
    assert forall i | 0 < i < |left| :: left[i] != left[0];
    assert forall x :: x in left[1..] <==> x in left && x != left[0];
  }

  /** Writing the first n numbers of a list transfers their processes. */
  lemma {:induction false} NumbersTransfer(parses: string -> Option<nat>, t: Tree, from: Path, to: Path,
                                           pids: seq<nat>, n: nat)
    requires ParsesDigits(parses)
    requires OnePlace(t) && from in t && to in t && from != to && Lists(pids, t[from].procs) && n <= |pids|
    ensures MovedTo(t, Attached(parses, t, to, Numbers(pids)[..n]), from, to, pids, n)
  {
    if n == 0 {
      assert pids[0..] == pids;
    } else {
      NumbersTransfer(parses, t, from, to, pids, n - 1);
      var texts := Numbers(pids)[..n];
      assert texts[..n - 1] == Numbers(pids)[..n - 1] && texts[n - 1] == Digits(pids[n - 1]);
      TransferOne(t, Attached(parses, t, to, texts[..n - 1]), from, to, pids, n - 1);
    }
  }

  // ---- the loops ----

  /** What a tree is once texts have been written. */
  type Trace = (Tree, seq<string>) -> bool

  /** It stays true when one text more is written. */
  ghost predicate Steps(inv: Trace, parses: string -> Option<nat>, to: Path) {
    forall t, done, text | inv(t, done) && to in t && Accepted(parses, t, text) ::
      inv(Moved(t, to, parses(text).value), done + [text])
  }

  /** OneRead and Texts, as values whose definitions the loops need not know. */
  datatype Reading = Reading(one: (string, nat, string, nat) -> Round, all: (string, nat, string, nat) -> seq<string>)

  ghost predicate Reads(x: Reading, asks: nat -> nat) {
    && (forall b: string, c: nat, rest: string, n: nat {:trigger OneRead(b, c, rest, n)} |
          |b| == SIZE && n <= |rest| && c + n <= SIZE ::
          x.one(b, c, rest, n) == OneRead(b, c, rest, n))
    && (forall b: string, c: nat, rest: string, i: nat {:trigger Texts(b, c, rest, asks, i)} |
          |b| == SIZE && c <= SIZE ::
          x.all(b, c, rest, i) == Texts(b, c, rest, asks, i))
  }

  lemma SomeReading(asks: nat -> nat) returns (x: Reading)
    ensures Reads(x, asks)
  {
    x := Reading((b: string, c: nat, rest: string, n: nat) =>
                   if |b| == SIZE && n <= |rest| && c + n <= SIZE then OneRead(b, c, rest, n) else Round([], b, c),
                 (b: string, c: nat, rest: string, i: nat) =>
                   if |b| == SIZE && c <= SIZE then Texts(b, c, rest, asks, i) else []);
  }

  /** Texts have been written to a cgroup. */
  ghost predicate Moving(k: Kernel, inv: Trace, to: Path, done: seq<string>)
    reads k
  {
    k.Sound() && to in k.tree && Steps(inv, k.parses, to) && inv(k.tree, done)
  }

  /** Why the text has not been written. */
  ghost predicate Failed(k: Kernel, to: Path, text: string, clock: nat)
    reads k
  {
    Accepted(k.parses, k.tree, text) && CanHold(k.machine, k.tree, to) ==> k.RefusedSince(clock)
  }

  /** Writes one text. */
  method WriteOne(k: Kernel, to: Path, text: string, ghost inv: Trace, ghost done: seq<string>, ghost start: nat)
    returns (rc: int)
    requires Moving(k, inv, to, done) && start <= k.clock
    modifies k`clock, k`tree
    ensures start <= k.clock && (rc == 0 || rc == -1)
    ensures Moving(k, inv, to, if rc == 0 then done + [text] else done)
    ensures rc < 0 ==> Failed(k, to, text, start)
  {
    rc := k.WriteProcs(to, text);
  }

  /** The scan of what has been read, which gives all. */
  method ScanBuffer(k: Kernel, to: Path, buffer: array<char>, carried: nat, count: nat, ghost all: Scanned,
                    ghost inv: Trace, ghost done: seq<string>, ghost start: nat)
    returns (rc: int, pidpos: nat, ghost texts: seq<string>)
    requires Moving(k, inv, to, done) && start <= k.clock
    requires buffer.Length == SIZE && carried <= count <= SIZE && all == Scan(buffer[..], 0, carried, count)
    modifies k`clock, k`tree, buffer
    ensures Moving(k, inv, to, done + texts) && start <= k.clock && (rc == 0 || rc == -1)
    ensures if rc == 0 then texts == all.texts && buffer[..] == all.buffer && pidpos == all.pidpos
            else texts < all.texts && Failed(k, to, all.texts[|texts|], start)
  {
    var rpos := carried;
    rc, pidpos, texts := 0, 0, [];
    assert done + [] == done;
    while rpos < count
      invariant Moving(k, inv, to, done + texts) && start <= k.clock
      invariant pidpos <= rpos <= count
      invariant ScannedTo(all, texts, Scan(buffer[..], pidpos, rpos, count))
    {
      if buffer[rpos] == '\n' {
        ghost var text;
        rc, text := WriteLine(k, to, buffer, pidpos, rpos, count, inv, done, all, texts, start);
        if rc != 0 {
          return;
        }
        texts, pidpos := texts + [text], rpos + 1;
      }
      rpos := rpos + 1;
    }
    assert texts + [] == texts;
  }

  /** A newline is replaced, and what precedes it is written. */
  method WriteLine(k: Kernel, to: Path, buffer: array<char>, pidpos: nat, rpos: nat, ghost count: nat, ghost inv: Trace,
                   ghost done: seq<string>, ghost all: Scanned, ghost texts: seq<string>, ghost start: nat)
    returns (rc: int, ghost text: string)
    requires Moving(k, inv, to, done + texts) && start <= k.clock
    requires pidpos <= rpos < count <= buffer.Length && buffer[rpos] == '\n'
    requires ScannedTo(all, texts, Scan(buffer[..], pidpos, rpos, count))
    modifies k`clock, k`tree, buffer
    ensures start <= k.clock && (rc == 0 || rc == -1)
    ensures if rc == 0 then
              && Moving(k, inv, to, done + (texts + [text]))
              && ScannedTo(all, texts + [text], Scan(buffer[..], rpos + 1, rpos + 1, count))
            else Moving(k, inv, to, done + texts) && texts < all.texts && Failed(k, to, all.texts[|texts|], start)
  {
    ScannedOne(all, texts, buffer[..], pidpos, rpos, count);
    var line := CutLine(buffer, pidpos, rpos);
    text := line;
    rc := WriteOne(k, to, line, inv, done + texts, start);
    assert (done + texts) + [text] == done + (texts + [text]);
  }

  method CutLine(buffer: array<char>, pidpos: nat, rpos: nat) returns (text: string)
    requires pidpos <= rpos < buffer.Length
    modifies buffer
    ensures buffer[..] == old(buffer[..])[rpos := '\0'] && text == CStr(buffer[..][pidpos..])
  {
    buffer[rpos] := '\0';
    assert buffer[pidpos..] == buffer[..][pidpos..];
    text := CStr(buffer[pidpos..]);
  }

  /** read */
  method FillBuffer(buffer: array<char>, rest: string, n: nat)
    requires buffer.Length == SIZE && n <= |rest| && n <= SIZE
    modifies buffer
    ensures buffer[..] == Filled(old(buffer[..]), rest, n)
  {
    forall i | 0 <= i < n { buffer[i] := rest[i]; }
  }

  /** memmove */
  method CarryBuffer(buffer: array<char>, pidpos: nat, rpos: nat)
    requires pidpos <= rpos <= buffer.Length
    modifies buffer
    ensures buffer[..] == Carried(old(buffer[..]), pidpos, rpos)
  {
    forall i | 0 <= i < rpos - pidpos { buffer[i] := buffer[pidpos + i]; }
  }

  /** The scan has written texts, and what remains to scan gives the rest of all. */
  ghost predicate ScannedTo(all: Scanned, texts: seq<string>, rest: Scanned) {
    all == rest.(texts := texts + rest.texts)
  }

  lemma ScannedOne(all: Scanned, texts: seq<string>, b: string, pidpos: nat, rpos: nat, count: nat)
    requires pidpos <= rpos < count <= |b| && b[rpos] == '\n' && ScannedTo(all, texts, Scan(b, pidpos, rpos, count))
    ensures var cut := b[rpos := '\0'];
            var text := CStr(cut[pidpos..]);
            && texts < all.texts && all.texts[|texts|] == text
            && ScannedTo(all, texts + [text], Scan(cut, rpos + 1, rpos + 1, count))
  {
    var cut := b[rpos := '\0'];
    var more := Scan(cut, rpos + 1, rpos + 1, count).texts;
    assert texts + ([CStr(cut[pidpos..])] + more) == (texts + [CStr(cut[pidpos..])]) + more;
  }

  /** A read of n characters, their scan, and the move of what remains, which give r. */
  method ReadRound(k: Kernel, to: Path, buffer: array<char>, carried: nat, rest: string, n: nat, ghost r: Round,
                   ghost inv: Trace, ghost done: seq<string>, ghost start: nat)
    returns (rc: int, left: nat, ghost texts: seq<string>)
    requires Moving(k, inv, to, done) && start <= k.clock
    requires buffer.Length == SIZE && n <= |rest| && carried + n <= SIZE && r == OneRead(buffer[..], carried, rest, n)
    modifies k`clock, k`tree, buffer
    ensures Moving(k, inv, to, done + texts) && start <= k.clock && (rc == 0 || rc == -1)
    ensures if rc == 0 then texts == r.texts && buffer[..] == r.buffer && left == r.carried
            else texts < r.texts && Failed(k, to, r.texts[|texts|], start)
  {
    ghost var b := buffer[..];
    FillBuffer(buffer, rest, n);
    ghost var all := Scan(buffer[..], 0, carried, carried + n);
    ReadScans(b, carried, rest, n, all);
    var pidpos;
    rc, pidpos, texts := ScanBuffer(k, to, buffer, carried, carried + n, all, inv, done, start);
    left := 0;
    if rc == 0 {
      CarryBuffer(buffer, pidpos, carried + n);
      left := carried + n - pidpos;
    }
  }

  lemma ReadScans(b: string, carried: nat, rest: string, n: nat, all: Scanned)
    requires |b| == SIZE && n <= |rest| && carried + n <= SIZE
    requires all == Scan(Filled(b, rest, n), 0, carried, carried + n)
    ensures OneRead(b, carried, rest, n) ==
            Round(all.texts, Carried(all.buffer, all.pidpos, carried + n), carried + n - all.pidpos)
  {
  }

  /** What moveProcs has read, and the texts that it has written. */
  datatype Moves = Moves(pids: seq<nat>, buffer: string, written: seq<string>) {
    /** The texts to write. */
    ghost function All(asks: nat -> nat, i: nat): seq<string>
      requires |buffer| == SIZE
    {
      Texts(buffer, 0, Listing(Numbers(pids)), asks, i)
    }
  }

  /** moveProcs. What it writes is what the reads make of the list; so the processes of the cgroup are moved
      when no read ends inside a number, and otherwise other ones may be, but none is lost. */
  method MoveAll(k: Kernel, from: Path, to: Path) returns (rc: int, ghost moves: Moves)
    requires k.Sound() && from in k.tree && to in k.tree && from != to
    modifies k`clock, k`tree, k`readings
    ensures k.Sound() && SameShape(old(k.tree), k.tree) && Gathered(old(k.tree), k.tree, to)
    ensures (rc == 0 || rc == -1) && old(k.clock) <= k.clock
    ensures Lists(moves.pids, old(k.tree)[from].procs) && |moves.buffer| == SIZE
    ensures var all := moves.All(k.asks, old(k.readings)); moves.written <= all && (rc == 0 ==> moves.written == all)
    ensures k.tree == Attached(k.parses, old(k.tree), to, moves.written)
    ensures old(WholeReads(k, k.tree[from].procs)) ==>
              && Transferred(old(k.tree), k.tree, from, to)
              && (rc == 0 ==> k.tree[from].procs == {})
              && (rc < 0 && CanHold(k.machine, old(k.tree), to) ==> k.RefusedSince(old(k.clock)))
  {
    ghost var t := k.tree;
    var buffer := new char[SIZE];
    ghost var start, clock := k.readings, k.clock;
    var text;
    ghost var pids;
    rc, text, pids := k.ListProcs(from);
    moves := Moves(pids, buffer[..], []);
    ghost var all := moves.All(k.asks, start);
    ghost var inv: Trace := WrittenSince(k.parses, t, to);
    WrittenSteps(k.parses, t, to);
    assert inv(t, []);
    if rc == 0 {
      rc, moves := MoveListed(k, to, buffer, text, moves, all, inv);
    }
    assert Written(k.parses, t, k.tree, to, moves.written);
    WrittenTransfer(k.parses, t, from, to, moves, all);
    if Whole(Listing(Numbers(pids)), k.asks, start) {
      WritesExactly(moves.buffer, pids, k.asks, start);
      SameHold(k.machine, t, k.tree, to);
    }
  }

  lemma SameHold(m: Machine, before: Tree, after: Tree, p: Path)
    requires SameShape(before, after)
    ensures CanHold(m, before, p) <==> CanHold(m, after, p)
  {
  }

  ghost predicate Written(parses: string -> Option<nat>, t: Tree, after: Tree, to: Path, done: seq<string>) {
    to in t && after == Attached(parses, t, to, done) && Gathered(t, after, to) && SameShape(t, after)
  }

  ghost function WrittenSince(parses: string -> Option<nat>, t: Tree, to: Path): Trace {
    (after, done) => Written(parses, t, after, to, done)
  }

  lemma WrittenSteps(parses: string -> Option<nat>, t: Tree, to: Path)
    ensures Steps(WrittenSince(parses, t, to), parses, to)
  {
    var inv := WrittenSince(parses, t, to);
    forall now, done, text | inv(now, done) && to in now && Accepted(parses, now, text)
      ensures inv(Moved(now, to, parses(text).value), done + [text])
    {
      WrittenOne(parses, t, now, to, done, text);
    }
  }

  lemma WrittenOne(parses: string -> Option<nat>, t: Tree, now: Tree, to: Path, done: seq<string>, text: string)
    requires Written(parses, t, now, to, done) && to in now && Accepted(parses, now, text)
    ensures Written(parses, t, Moved(now, to, parses(text).value), to, done + [text])
  {
    assert (done + [text])[..|done|] == done;
    MovedGathers(t, now, to, parses(text).value);
  }

  /** The loop of moveProcs on the text of the list. */
  method MoveListed(k: Kernel, to: Path, buffer: array<char>, text: string, ghost moves: Moves, ghost all: seq<string>,
                    ghost inv: Trace)
    returns (rc: int, ghost moved: Moves)
    requires Moving(k, inv, to, []) && buffer.Length == SIZE && moves.buffer == buffer[..]
    requires text == Listing(Numbers(moves.pids)) && all == moves.All(k.asks, k.readings)
    modifies k`clock, k`tree, k`readings, buffer
    ensures old(k.clock) <= k.clock && (rc == 0 || rc == -1) && Moving(k, inv, to, moved.written)
    ensures moved == moves.(written := moved.written) && moved.written <= all
    ensures Ended(k, to, rc, moved.written, all, old(k.clock))
  {
    ghost var x := SomeReading(k.asks);
    ghost var ts;
    rc, ts := ReadLoop(k, to, buffer, text, x, all, inv);
    moved := moves.(written := ts);
  }

  method ReadLoop(k: Kernel, to: Path, buffer: array<char>, text: string, ghost x: Reading, ghost all: seq<string>,
                  ghost inv: Trace)
    returns (rc: int, ghost ts: seq<string>)
    requires Moving(k, inv, to, []) && buffer.Length == SIZE
    requires Reads(x, k.asks) && all == x.all(buffer[..], 0, text, k.readings)
    modifies k`clock, k`tree, k`readings, buffer
    ensures old(k.clock) <= k.clock && (rc == 0 || rc == -1) && Moving(k, inv, to, ts)
            && Ended(k, to, rc, ts, all, old(k.clock))
  {
    ghost var start := k.clock;
    var rpos: nat, rest := 0, text;
    ts := [];
    assert ts + all == all;
    rc := 0;
    var ended := false;
    while !ended
      invariant ended ==> rc == 0 || rc == -1
      invariant Moving(k, inv, to, ts) && start <= k.clock
      invariant !ended ==> ToRead(x, k.readings, buffer[..], rpos, rest, ts, all)
      invariant ended ==> Ended(k, to, rc, ts, all, start)
      decreases !ended, |rest|
    {
      ended, rc, rpos, rest, ts := Turn(k, to, buffer, rpos, rest, x, inv, ts, all, start);
    }
  }

  /** One turn of the loop. */
  method Turn(k: Kernel, to: Path, buffer: array<char>, rpos: nat, rest: string, ghost x: Reading, ghost inv: Trace,
              ghost ts: seq<string>, ghost all: seq<string>, ghost start: nat)
    returns (ended: bool, rc: int, rpos': nat, rest': string, ghost ts': seq<string>)
    requires Moving(k, inv, to, ts) && start <= k.clock && Reads(x, k.asks)
    requires buffer.Length == SIZE && ToRead(x, k.readings, buffer[..], rpos, rest, ts, all)
    modifies k`clock, k`tree, k`readings, buffer
    ensures Moving(k, inv, to, ts') && start <= k.clock && (rc == 0 || rc == -1)
    ensures if ended then Ended(k, to, rc, ts', all, start)
            else |rest'| < |rest| && ToRead(x, k.readings, buffer[..], rpos', rest', ts', all)
  {
    ghost var n, r, later := RoundTexts(x, k.asks, k.readings, buffer[..], rpos, rest, ts, all);
    ghost var more;
    ended, rc, rpos', rest', more := ReadTurn(k, to, buffer, rpos, rest, x, n, r, inv, ts, start);
    ts' := ts + more;
    if ended {
      EndedBy(k, to, rc, r.texts, ts, later, all, more, start);
    }
  }

  lemma EndedBy(k: Kernel, to: Path, rc: int, texts: seq<string>, ts: seq<string>, later: seq<string>, all: seq<string>,
                more: seq<string>, start: nat)
    requires all == (ts + texts) + later && more <= texts && (rc == 0 ==> more == texts && later == [])
    requires rc < 0 ==> k.RefusedSince(start) || (more < texts && Failed(k, to, texts[|more|], start))
    ensures Ended(k, to, rc, ts + more, all, start)
  {
    RoundFails(all, ts, texts, later, more);
    assert ts + more <= all;
  }

  /** What has been written, and what remains to read, make all. */
  ghost predicate ToRead(x: Reading, i: nat, b: string, rpos: nat, rest: string, ts: seq<string>, all: seq<string>) {
    |b| == SIZE && rpos <= SIZE && all == ts + x.all(b, rpos, rest, i)
  }

  /** All has been written, or something has failed. */
  ghost predicate Ended(k: Kernel, to: Path, rc: int, ts: seq<string>, all: seq<string>, start: nat)
    reads k
  {
    && ts <= all && (rc == 0 ==> ts == all)
    && (rc < 0 ==> k.RefusedSince(start) || (ts < all && Failed(k, to, all[|ts|], start)))
  }

  /** A turn, where r is what the read makes, and nothing when there is nothing more to read. */
  method ReadTurn(k: Kernel, to: Path, buffer: array<char>, rpos: nat, rest: string, ghost x: Reading, ghost n: nat,
                  ghost r: Round, ghost inv: Trace, ghost ts: seq<string>, ghost start: nat)
    returns (ended: bool, rc: int, rpos': nat, rest': string, ghost more: seq<string>)
    requires Moving(k, inv, to, ts) && start <= k.clock && buffer.Length == SIZE && rpos <= SIZE
    requires n == ReadSize(SIZE - rpos, |rest|, k.asks(k.readings)) && r == RoundOf(x, buffer[..], rpos, rest, n)
    requires Reads(x, k.asks)
    modifies k`clock, k`tree, k`readings, buffer
    ensures Moving(k, inv, to, ts + more) && start <= k.clock && (rc == 0 || rc == -1)
    ensures more <= r.texts && (rc == 0 ==> more == r.texts && (ended <==> n == 0))
    ensures rc < 0 ==> ended && (k.RefusedSince(start) || (more < r.texts && Failed(k, to, r.texts[|more|], start)))
    ensures !ended ==>
              rest' == rest[n..] && rpos' == r.carried && buffer[..] == r.buffer && k.readings == old(k.readings) + 1
  {
    rpos', rest', more := rpos, rest, [];
    assert ts + [] == ts;
    rc := k.ReadSome(SIZE - rpos, |rest|);
    if rc <= 0 {
      return true, rc, rpos, rest, [];
    }
    var size: nat := rc;
    assert r == OneRead(buffer[..], rpos, rest, n);
    rc, rpos', more := ReadRound(k, to, buffer, rpos, rest, size, r, inv, ts, start);
    ended, rest' := rc != 0, rest[size..];
  }

  ghost function RoundOf(x: Reading, b: string, carried: nat, rest: string, n: nat): Round {
    if n == 0 then Round([], b, carried) else x.one(b, carried, rest, n)
  }

  /** What a read makes, and what remains then. */
  lemma RoundTexts(x: Reading, asks: nat -> nat, i: nat, b: string, rpos: nat, rest: string, ts: seq<string>,
                   all: seq<string>)
    returns (n: nat, r: Round, later: seq<string>)
    requires Reads(x, asks) && ToRead(x, i, b, rpos, rest, ts, all)
    ensures n == ReadSize(SIZE - rpos, |rest|, asks(i)) && r == RoundOf(x, b, rpos, rest, n)
            && all == (ts + r.texts) + later
    ensures n == 0 ==> later == []
    ensures n > 0 ==> ToRead(x, i + 1, r.buffer, r.carried, rest[n..], ts + r.texts, all)
  {
    n := ReadSize(SIZE - rpos, |rest|, asks(i));
    assert x.all(b, rpos, rest, i) == Texts(b, rpos, rest, asks, i);
    if n == 0 {
      r, later := Round([], b, rpos), [];
    } else {
      r := OneRead(b, rpos, rest, n);
      later := Texts(r.buffer, r.carried, rest[n..], asks, i + 1);
      TextsNext(b, rpos, rest, asks, i, n, r, later);
      Assoc(ts, r.texts, later);
    }
  }

  lemma Assoc<T>(a: seq<T>, b: seq<T>, c: seq<T>)
    ensures a + (b + c) == (a + b) + c
  {
  }

  lemma RoundFails(all: seq<string>, ts: seq<string>, texts: seq<string>, later: seq<string>, more: seq<string>)
    requires all == (ts + texts) + later && more <= texts
    ensures more < texts ==> ts + more < all && all[|ts + more|] == texts[|more|]
  {
    if more < texts {
      assert all[..|ts + more|] == ts + texts[..|more|];
    }
  }

  /** What has been written, when all to write is the list itself. */
  lemma WrittenTransfer(parses: string -> Option<nat>, t: Tree, from: Path, to: Path, moves: Moves, all: seq<string>)
    requires ParsesDigits(parses)
    requires OnePlace(t) && from in t && to in t && from != to && Lists(moves.pids, t[from].procs)
             && moves.written <= all
    ensures all == Numbers(moves.pids) ==>
              var r := Attached(parses, t, to, moves.written);
              && Transferred(t, r, from, to)
              && (moves.written == all ==> r[from].procs == {})
              && (moves.written < all ==> Accepted(parses, t, all[|moves.written|]))
  {
    if all == Numbers(moves.pids) {
      var n := |moves.written|;
      assert moves.written == Numbers(moves.pids)[..n];
      NumbersTransfer(parses, t, from, to, moves.pids, n);
      if n < |all| {
        assert moves.pids[n] in moves.pids;
      }
    }
  }

  // ---- a list that is not read whole ----

  /** When the processes listed are those of Many, 345 leaves its cgroup, and 12345 stays. */
  lemma AnotherMoved(parses: string -> Option<nat>, t: Tree, from: Path, to: Path, other: Path, moves: Moves,
                     asks: nat -> nat, i: nat)
    requires ParsesDigits(parses) && OnePlace(t) && from in t && to in t && from != to && Lists(Many(), t[from].procs)
    requires other in t && other != to && 345 in t[other].procs
    requires moves.pids == Many() && |moves.buffer| == SIZE && forall j :: asks(j) >= SIZE
    ensures var after := Attached(parses, t, to, moves.All(asks, i));
            12345 in Procs(after, from) && 345 in Procs(after, to) && 345 !in Procs(after, other)
    ensures !Transferred(t, Attached(parses, t, to, moves.All(asks, i)), from, to)
  {
    MovesAnother(moves.buffer, asks, i);
    ManyFacts();
    LastReplaced(parses, t, from, to, other, Many(), moves.All(asks, i));
  }

  /** The last process of a list replaced by another one. */
  lemma LastReplaced(parses: string -> Option<nat>, t: Tree, from: Path, to: Path, other: Path, pids: seq<nat>,
                     all: seq<string>)
    requires ParsesDigits(parses) && OnePlace(t) && from in t && to in t && from != to && Lists(pids, t[from].procs)
    requires other in t && other != to && 345 in t[other].procs && 345 !in pids
    requires |pids| == 34 && pids[33] == 12345 && all == Numbers(pids[..33]) + [Digits(345)]
    ensures var after := Attached(parses, t, to, all);
            12345 in Procs(after, from) && 345 in Procs(after, to) && 345 !in Procs(after, other)
    ensures !Transferred(t, Attached(parses, t, to, all), from, to)
  {
    assert pids == pids[..33] + pids[33..];
    NumbersConcat(pids[..33], pids[33..]);
    assert all[..33] == Numbers(pids)[..33];
    NumbersTransfer(parses, t, from, to, pids, 33);
    assert pids[33..][0] == 12345 && 12345 in pids[33..];
    LastMoved(parses, t, Attached(parses, t, to, all[..33]), from, to, other, all);
  }

  lemma LastMoved(parses: string -> Option<nat>, t: Tree, prior: Tree, from: Path, to: Path, other: Path,
                  all: seq<string>)
    requires ParsesDigits(parses) && OnePlace(t) && from in t && to in t && from != to && all != []
    requires prior == Attached(parses, t, to, all[..|all| - 1]) && all[|all| - 1] == Digits(345)
    requires Transferred(t, prior, from, to) && 12345 in prior[from].procs
    requires other in t && other != to && other != from && 345 in t[other].procs
    ensures var after := Attached(parses, t, to, all);
            12345 in Procs(after, from) && 345 in Procs(after, to) && 345 !in Procs(after, other)
    ensures !Transferred(t, Attached(parses, t, to, all), from, to)
  {
    var after := Attached(parses, t, to, all);
    assert after == Moved(prior, to, 345);
    assert 345 in Procs(t, other) && 345 !in Procs(after, other);
  }
}
