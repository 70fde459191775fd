/** moveProcs: reading a list of processes through a buffer, and what is written for each of them. */
module ProcsText {
  import opened Strings

  /** Cells of the buffer. */
  const SIZE: nat := 200

  function Digits(n: nat): (s: string)
    ensures s != "" && forall c | c in s :: '0' <= c <= '9'
  {
    if n < 10 then [('0' as int + n) as char] else Digits(n / 10) + [('0' as int + n % 10) as char]
  }

  /** A text that can be a line. */
  ghost predicate Line(w: string) {
    w != "" && '\n' !in w && '\0' !in w
  }

  /** The content of cgroup.procs. */
  function Listing(lines: seq<string>): string {
    if lines == [] then "" else lines[0] + "\n" + Listing(lines[1..])
  }

  function Numbers(pids: seq<nat>): (r: seq<string>)
    ensures |r| == |pids| && forall i | 0 <= i < |pids| :: r[i] == Digits(pids[i])
  {
    if pids == [] then [] else [Digits(pids[0])] + Numbers(pids[1..])
  }

  lemma NumbersAreLines(pids: seq<nat>)
    ensures forall w | w in Numbers(pids) :: Line(w)
  {
  }

  /** What one read returns: at least one character when there is room and something to read. */
  function ReadSize(room: nat, left: nat, asked: nat): (n: nat)
    ensures n <= room && n <= left && (n == 0 <==> room == 0 || left == 0)
  {
    var most := if room < left then room else left;
    if asked >= most then most else if asked == 0 then 1 else asked
  }

  /** The texts written while scanning, the buffer then, and the start of what remains. */
  datatype Scanned = Scanned(texts: seq<string>, buffer: string, pidpos: nat)

  function Scan(b: string, pidpos: nat, rpos: nat, count: nat): (r: Scanned)
    requires pidpos <= rpos <= count <= |b|
    ensures |r.buffer| == |b| && pidpos <= r.pidpos <= count
    decreases count - rpos
  {
    if rpos == count then Scanned([], b, pidpos)
    else if b[rpos] == '\n' then
      var cut := b[rpos := '\0'];
      var r := Scan(cut, rpos + 1, rpos + 1, count);
      r.(texts := [CStr(cut[pidpos..])] + r.texts)
    else Scan(b, pidpos, rpos + 1, count)
  }

  /** The move of what remains to the start of the buffer. */
  function Carried(b: string, pidpos: nat, rpos: nat): (r: string)
    requires pidpos <= rpos <= |b|
    ensures |r| == |b|
  {
    b[pidpos..rpos] + b[rpos - pidpos..]
  }

  /** What a read brings in the buffer. */
  function Filled(b: string, rest: string, n: nat): (r: string)
    requires |b| == SIZE && n <= |rest| && n <= SIZE
    ensures |r| == SIZE && r[..n] == rest[..n] && r[n..] == b[n..]
    ensures (forall q | 0 <= q < n :: r[q] == rest[q]) && (forall q | n <= q < SIZE :: r[q] == b[q])
  {
    rest[..n] + b[n..]
  }

  /** What one read makes of a buffer: it puts its n characters at the start, whatever has been carried
      there, and the scan goes on from what has been carried. */
  datatype Round = Round(texts: seq<string>, buffer: string, carried: nat)

  function OneRead(b: string, carried: nat, rest: string, n: nat): (r: Round)
    requires |b| == SIZE && n <= |rest| && carried + n <= SIZE
    ensures |r.buffer| == SIZE && r.carried <= SIZE
  {
    var s := Scan(Filled(b, rest, n), 0, carried, carried + n);
    Round(s.texts, Carried(s.buffer, s.pidpos, carried + n), carried + n - s.pidpos)
  }

  /** All that is written when no write fails. */
  function Texts(b: string, carried: nat, rest: string, asks: nat -> nat, i: nat): seq<string>
    requires |b| == SIZE && carried <= SIZE
    decreases |rest|
  {
    var n := ReadSize(SIZE - carried, |rest|, asks(i));
    if n == 0 then []
    else
      var r := OneRead(b, carried, rest, n);
      r.texts + Texts(r.buffer, r.carried, rest[n..], asks, i + 1)
  }

  lemma TextsNext(b: string, carried: nat, rest: string, asks: nat -> nat, i: nat, n: nat, r: Round, later: seq<string>)
    requires |b| == SIZE && carried <= SIZE && n == ReadSize(SIZE - carried, |rest|, asks(i)) && n > 0
    requires r == OneRead(b, carried, rest, n) && later == Texts(r.buffer, r.carried, rest[n..], asks, i + 1)
    ensures Texts(b, carried, rest, asks, i) == r.texts + later
  {
  }

  /** No read ends inside a line. */
  predicate Whole(rest: string, asks: nat -> nat, i: nat)
    decreases |rest|
  {
    rest == "" ||
    var n := ReadSize(SIZE, |rest|, asks(i));
    rest[n - 1] == '\n' && Whole(rest[n..], asks, i + 1)
  }

  // ---- scanning ----

  ghost predicate NoNewline(b: string, a: nat, z: nat) {
    forall q | a <= q < z && q < |b| :: b[q] != '\n'
  }

  lemma {:induction false} ScanSkips(b: string, pidpos: nat, rpos: nat, k: nat, count: nat)
    requires pidpos <= rpos <= k <= count <= |b| && NoNewline(b, rpos, k)
    ensures Scan(b, pidpos, rpos, count) == Scan(b, pidpos, k, count)
    decreases k - rpos
  {
    if rpos == k {
    } else {
      ScanSkips(b, pidpos, rpos + 1, k, count);
    }
  }

  /** A scan can be cut anywhere. */
  lemma {:induction false} ScanSplit(b: string, pidpos: nat, rpos: nat, m: nat, count: nat)
    requires pidpos <= rpos <= m <= count <= |b|
    ensures var r := Scan(b, pidpos, rpos, m);
            var s := Scan(r.buffer, r.pidpos, m, count);
            Scan(b, pidpos, rpos, count) == s.(texts := r.texts + s.texts)
    decreases m - rpos
  {
    if rpos == m {
      var s := Scan(b, pidpos, m, count);
      assert [] + s.texts == s.texts;
    } else if b[rpos] == '\n' {
      var cut := b[rpos := '\0'];
      ScanSplit(cut, rpos + 1, rpos + 1, m, count);
      var r := Scan(cut, rpos + 1, rpos + 1, m);
      var s := Scan(r.buffer, r.pidpos, m, count);
      assert [CStr(cut[pidpos..])] + (r.texts + s.texts) == ([CStr(cut[pidpos..])] + r.texts) + s.texts;
    } else {
      ScanSplit(b, pidpos, rpos + 1, m, count);
    }
  }

  /** Scanning a line writes it. */
  lemma ScanOne(b: string, pos: nat, w: string, count: nat)
    requires Line(w) && pos + |w| < count <= |b| && b[pos..pos + |w|] == w && b[pos + |w|] == '\n'
    ensures var cut := b[pos + |w| := '\0'];
            var r := Scan(cut, pos + |w| + 1, pos + |w| + 1, count);
            Scan(b, pos, pos, count) == r.(texts := [w] + r.texts)
  {
    var k := pos + |w|;
    assert forall q | pos <= q < k :: b[q] == w[q - pos];
    ScanSkips(b, pos, pos, k, count);
    var cut := b[k := '\0'];
    assert cut[pos..][..|w|] == w;
    CStrIs(cut[pos..], |w|);
  }

  /** Scanning removes the newlines of its range, and changes nothing elsewhere. */
  lemma {:induction false} ScanKeeps(b: string, pidpos: nat, rpos: nat, count: nat)
    requires pidpos <= rpos <= count <= |b|
    ensures var r := Scan(b, pidpos, rpos, count);
            && NoNewline(r.buffer, rpos, count)
            && forall q | 0 <= q < |b| && !(rpos <= q < count) :: r.buffer[q] == b[q]
    decreases count - rpos
  {
    if rpos == count {
    } else if b[rpos] == '\n' {
      ScanKeeps(b[rpos := '\0'], rpos + 1, rpos + 1, count);
    } else {
      ScanKeeps(b, pidpos, rpos + 1, count);
    }
  }

  /** Scanning lines writes them, and leaves no line to finish. */
  lemma {:induction false} ScanLines(b: string, pos: nat, lines: seq<string>, count: nat)
    requires (forall w | w in lines :: Line(w)) && pos <= count <= |b| && b[pos..count] == Listing(lines)
    ensures var r := Scan(b, pos, pos, count); r.texts == lines && r.pidpos == count
    decreases |lines|
  {
    if lines == [] {
    } else {
      var w := lines[0];
      var k := pos + |w|;
      assert b[pos..count] == w + "\n" + Listing(lines[1..]);
      assert b[pos..k] == b[pos..count][..|w|] == w && b[k] == b[pos..count][|w|] == '\n';
      ScanOne(b, pos, w, count);
      var cut := b[k := '\0'];
      assert cut[k + 1..count] == b[pos..count][|w| + 1..] == Listing(lines[1..]);
      ScanLines(cut, k + 1, lines[1..], count);
    }
  }

  lemma CarriedClean(b: string, pidpos: nat, rpos: nat)
    requires pidpos <= rpos <= |b| && NoNewline(b, 0, |b|)
    ensures NoNewline(Carried(b, pidpos, rpos), 0, |b|)
    ensures pidpos == rpos ==> Carried(b, pidpos, rpos) == b
  {
    var c := Carried(b, pidpos, rpos);
    forall q | 0 <= q < |b| ensures c[q] != '\n' {
      if q < rpos - pidpos {
        assert c[q] == b[pidpos + q];
      }
    }
  }

  // ---- cutting a list ----

  lemma {:induction false} ListingConcat(a: seq<string>, b: seq<string>)
    ensures Listing(a + b) == Listing(a) + Listing(b)
  {
    if a == [] {
      assert a + b == b;
    } else {
      assert (a + b)[1..] == a[1..] + b;
      ListingConcat(a[1..], b);
    }
  }

  /** The first n characters of a list are k lines then a part of a line, which is empty at the end of a line. */
  ghost predicate Cut(lines: seq<string>, n: nat, k: nat, part: string) {
    && n <= |Listing(lines)| && k <= |lines| && Listing(lines)[..n] == Listing(lines[..k]) + part
    && if part == "" then Listing(lines)[n..] == Listing(lines[k..])
       else k < |lines| && part <= lines[k]
            && Listing(lines)[n..] == lines[k][|part|..] + "\n" + Listing(lines[k + 1..])
  }

  lemma {:induction false} CutListing(lines: seq<string>, n: nat) returns (k: nat, part: string)
    requires (forall w | w in lines :: Line(w)) && n <= |Listing(lines)|
    ensures Cut(lines, n, k, part)
    ensures n > 0 ==> (part == "" <==> Listing(lines)[n - 1] == '\n')
  {
    if n == 0 {
      k, part := 0, "";
      assert lines[..0] == [] && lines[0..] == lines;
    } else if n <= |lines[0]| {
      k, part := 0, lines[0][..n];
      var s := lines[0] + "\n" + Listing(lines[1..]);
      assert s[n - 1] == lines[0][n - 1] && Line(lines[0]);
      assert s[..n] == part && s[n..] == lines[0][n..] + "\n" + Listing(lines[1..]);
      assert lines[..0] == [];
    } else {
      var m := n - |lines[0]| - 1;
      k, part := CutListing(lines[1..], m);
      CutLater(lines, m, k, part);
      var s, later := lines[0] + "\n" + Listing(lines[1..]), Listing(lines[1..]);
      assert m > 0 ==> s[n - 1] == later[m - 1];
      k := k + 1;
    }
  }

  lemma CutLater(lines: seq<string>, m: nat, k: nat, part: string)
    requires lines != [] && Cut(lines[1..], m, k, part)
    ensures Cut(lines, |lines[0]| + 1 + m, k + 1, part)
  {
    var w, later := lines[0] + "\n", Listing(lines[1..]);
    var n := |w| + m;
    assert Listing(lines) == w + later;
    assert (w + later)[..n] == w + later[..m] && (w + later)[n..] == later[m..];
    assert lines[..k + 1][1..] == lines[1..][..k];
    assert Listing(lines[..k + 1]) == w + Listing(lines[1..][..k]);
    assert w + (Listing(lines[1..][..k]) + part) == Listing(lines[..k + 1]) + part;
    assert lines[k + 1..] == lines[1..][k..];
    if part != "" {
      assert lines[k + 2..] == lines[1..][k + 1..];
    }
  }

  // ---- whole reads ----

  /** A read that ends at the end of a line, from a buffer where nothing is carried. */
  lemma ReadWhole(b: string, lines: seq<string>, n: nat) returns (k: nat)
    requires |b| == SIZE && (forall w | w in lines :: Line(w)) && 0 < n <= |Listing(lines)| && n <= SIZE
    requires Listing(lines)[n - 1] == '\n'
    ensures k <= |lines| && Listing(lines)[n..] == Listing(lines[k..])
    ensures var r := OneRead(b, 0, Listing(lines), n); r.texts == lines[..k] && r.carried == 0
  {
    var part;
    k, part := CutListing(lines, n);
    var read := Filled(b, Listing(lines), n);
    assert read[0..n] == Listing(lines[..k]);
    ScanLines(read, 0, lines[..k], n);
  }

  /** When no read ends inside a line, the lines are written, whatever the buffer held. */
  lemma {:induction false} WholeWrites(b: string, lines: seq<string>, asks: nat -> nat, i: nat)
    requires |b| == SIZE && forall w | w in lines :: Line(w)
    requires Whole(Listing(lines), asks, i)
    ensures Texts(b, 0, Listing(lines), asks, i) == lines
    decreases |Listing(lines)|
  {
    var rest := Listing(lines);
    if rest == "" {
      assert lines == [];
    } else {
      var n := ReadSize(SIZE, |rest|, asks(i));
      var k := ReadWhole(b, lines, n);
      var r := OneRead(b, 0, rest, n);
      WholeWrites(r.buffer, lines[k..], asks, i + 1);
      assert lines == lines[..k] + lines[k..];
    }
  }

  // ---- a read that ends inside a line ----

  /** The first text of a scan, if any, and what the texts after it take at most. */
  lemma {:induction false} ScanFirst(b: string, pidpos: nat, rpos: nat, count: nat) returns (k: nat)
    requires pidpos <= rpos <= count <= |b|
    ensures var r := Scan(b, pidpos, rpos, count);
            if r.texts == [] then r == Scanned([], b, pidpos) && NoNewline(b, rpos, count)
            else
              && rpos <= k < count && b[k] == '\n' && r.texts[0] == CStr(b[k := '\0'][pidpos..])
              && |Listing(r.texts[1..])| <= r.pidpos - (k + 1)
    decreases count - rpos
  {
    if rpos == count {
      k := rpos;
    } else if b[rpos] == '\n' {
      k := rpos;
      ScanTakes(b[k := '\0'], k + 1, k + 1, count);
      ScanAt(b, pidpos, k, count);
    } else {
      k := ScanFirst(b, pidpos, rpos + 1, count);
    }
  }

  /** The scan from a newline. */
  lemma ScanAt(b: string, pidpos: nat, k: nat, count: nat)
    requires pidpos <= k < count <= |b| && b[k] == '\n'
    ensures var cut := b[k := '\0'];
            var r, later := Scan(b, pidpos, k, count), Scan(cut, k + 1, k + 1, count);
            r.texts != [] && r.texts[0] == CStr(cut[pidpos..]) && r.texts[1..] == later.texts
            && r.pidpos == later.pidpos
  {
  }

  /** The texts of a scan, with a newline after each, take at most the cells passed. */
  lemma {:induction false} ScanTakes(b: string, pidpos: nat, rpos: nat, count: nat)
    requires pidpos <= rpos <= count <= |b|
    ensures var r := Scan(b, pidpos, rpos, count); |Listing(r.texts)| <= r.pidpos - pidpos
    decreases count - rpos
  {
    if rpos == count {
    } else if b[rpos] == '\n' {
      var cut := b[rpos := '\0'];
      ScanTakes(cut, rpos + 1, rpos + 1, count);
      CStrEnds(cut[pidpos..], rpos - pidpos);
    } else {
      ScanTakes(b, pidpos, rpos + 1, count);
    }
  }

  lemma CStrEnds(s: string, k: nat)
    requires k < |s| && s[k] == '\0'
    ensures |CStr(s)| <= k
  {
    assert forall q | 0 <= q < |CStr(s)| :: CStr(s)[q] == s[q];
  }

  /** All that is written takes at most what is carried and what is read. */
  lemma {:induction false} TextsTake(b: string, carried: nat, rest: string, asks: nat -> nat, i: nat)
    requires |b| == SIZE && carried <= SIZE
    ensures |Listing(Texts(b, carried, rest, asks, i))| <= carried + |rest|
    decreases |rest|
  {
    var n := ReadSize(SIZE - carried, |rest|, asks(i));
    if n == 0 {
    } else {
      var r := OneRead(b, carried, rest, n);
      ScanTakes(Filled(b, rest, n), 0, carried, carried + n);
      TextsTake(r.buffer, r.carried, rest[n..], asks, i + 1);
      ListingConcat(r.texts, Texts(r.buffer, r.carried, rest[n..], asks, i + 1));
    }
  }

  /** The newline that ends the line a is still to be read, when no more than a is carried. */
  ghost predicate Pending(a: string, carried: nat, rest: string) {
    carried <= |a| ==>
      var m := |a| - carried;
      m < |rest| && rest[m] == '\n'
  }

  /** Once a part of the line a is carried, what is written does not start with a, unless it takes less than
      what is carried and read. */
  lemma {:induction false} CutIsLost(b: string, carried: nat, rest: string, a: string, asks: nat -> nat, i: nat,
                                     ts: seq<string>)
    requires |b| == SIZE && 0 < carried <= SIZE && '\n' !in a && Pending(a, carried, rest)
    requires ts == Texts(b, carried, rest, asks, i) && ts != [] && ts[0] == a
    ensures |Listing(ts)| < carried + |rest|
    decreases |rest|
  {
    var n := ReadSize(SIZE - carried, |rest|, asks(i));
    var r := OneRead(b, carried, rest, n);
    var later := Texts(r.buffer, r.carried, rest[n..], asks, i + 1);
    assert ts == r.texts + later;
    if r.texts == [] {
      ReadNothing(b, carried, rest, n);
      PendingLater(a, carried, rest, n);
      assert ts == later;
      CutIsLost(r.buffer, carried + n, rest[n..], a, asks, i + 1, later);
    } else {
      TextsTake(r.buffer, r.carried, rest[n..], asks, i + 1);
      EarlyTakes(b, carried, rest, n, a, later);
    }
  }

  /** A read without newline in the scan. */
  lemma ReadNothing(b: string, carried: nat, rest: string, n: nat)
    requires |b| == SIZE && n <= |rest| && carried + n <= SIZE && OneRead(b, carried, rest, n).texts == []
    ensures OneRead(b, carried, rest, n) == Round([], Filled(b, rest, n), carried + n)
    ensures NoNewline(Filled(b, rest, n), carried, carried + n)
  {
    var read := Filled(b, rest, n);
    var k := ScanFirst(read, 0, carried, carried + n);
    assert read[0..carried + n] + read[carried + n..] == read;
  }

  lemma PendingLater(a: string, carried: nat, rest: string, n: nat)
    requires n <= |rest| && Pending(a, carried, rest)
    ensures Pending(a, carried + n, rest[n..])
  {
    if carried + n <= |a| {
      assert rest[n..][|a| - carried - n] == rest[|a| - carried];
    }
  }

  /** When the first text is the line a, it does not reach the newline after which scanning goes on. */
  lemma FirstEarly(b: string, carried: nat, rest: string, n: nat, a: string) returns (k: nat)
    requires |b| == SIZE && n <= |rest| && 0 < carried && carried + n <= SIZE
    requires '\n' !in a && Pending(a, carried, rest)
    requires var ts := OneRead(b, carried, rest, n).texts; ts != [] && ts[0] == a
    ensures var r := OneRead(b, carried, rest, n);
            |a| < k && |Listing(r.texts[1..])| <= carried + n - r.carried - (k + 1)
  {
    var read := Filled(b, rest, n);
    k := ScanFirst(read, 0, carried, carried + n);
    var cut := read[k := '\0'];
    assert cut[0..] == cut;
    CStrEnds(cut, k);
    assert forall q | 0 <= q < |a| :: a[q] == read[q];
  }

  lemma EarlyTakes(b: string, carried: nat, rest: string, n: nat, a: string, later: seq<string>)
    requires |b| == SIZE && n <= |rest| && 0 < carried && carried + n <= SIZE
    requires '\n' !in a && Pending(a, carried, rest)
    requires var r := OneRead(b, carried, rest, n);
             r.texts != [] && r.texts[0] == a && |Listing(later)| <= r.carried + |rest| - n
    ensures |Listing(OneRead(b, carried, rest, n).texts + later)| < carried + |rest|
  {
    var ts := OneRead(b, carried, rest, n).texts;
    var k := FirstEarly(b, carried, rest, n, a);
    ListingConcat(ts, later);
    assert |Listing(ts)| == |a| + 1 + |Listing(ts[1..])|;
  }

  /** The lines read whole, then the part of the next one. */
  lemma CutInside(read: string, lines: seq<string>, n: nat, k: nat, part: string)
    requires n <= |Listing(lines)| && n <= |read| && read[..n] == Listing(lines)[..n] && k < |lines|
    requires Listing(lines)[..n] == Listing(lines[..k]) + part
    ensures n >= |part| && read[0..n - |part|] == Listing(lines[..k]) && read[n - |part|..n] == part
  {
    var m := n - |part|;
    assert read[0..m] == read[..n][..m] && read[m..n] == read[..n][m..];
  }

  /** A read that ends inside line k, from a buffer where nothing is carried. */
  lemma ReadCut(b: string, lines: seq<string>, n: nat, k: nat, part: string)
    requires |b| == SIZE && (forall w | w in lines :: Line(w)) && 0 < n <= |Listing(lines)| && n <= SIZE
    requires k < |lines| && part != "" && part <= lines[k] && Listing(lines)[..n] == Listing(lines[..k]) + part
    ensures var r := OneRead(b, 0, Listing(lines), n);
            r.texts == lines[..k] && r.carried == |part| && (n == SIZE ==> NoNewline(r.buffer, 0, SIZE))
  {
    var read, m := Filled(b, Listing(lines), n), n - |part|;
    CutInside(read, lines, n, k, part);
    assert Line(lines[k]);
    ScanCut(read, lines[..k], part, m, n);
    if n == SIZE { CarriedClean(Scan(read, 0, 0, n).buffer, m, n); }
  }

  /** The scan of lines, then of a text without newline. */
  lemma ScanCut(b: string, lines: seq<string>, part: string, m: nat, n: nat)
    requires m <= n <= |b| && (forall w | w in lines :: Line(w)) && '\n' !in part
    requires b[0..m] == Listing(lines) && b[m..n] == part
    ensures var r := Scan(b, 0, 0, n); r.texts == lines && r.pidpos == m && NoNewline(r.buffer, 0, n)
  {
    ScanSplit(b, 0, 0, m, n);
    ScanLines(b, 0, lines, m);
    ScanKeeps(b, 0, 0, m);
    var r := Scan(b, 0, 0, m).buffer;
    assert forall q | m <= q < n :: r[q] == b[q] == b[m..n][q - m];
    ScanSkips(r, m, m, n, n);
    assert lines + [] == lines;
  }

  /** When a read ends inside a line, what is written is not the lines. */
  lemma {:induction false} CutWrites(b: string, lines: seq<string>, asks: nat -> nat, i: nat)
    requires |b| == SIZE && forall w | w in lines :: Line(w)
    requires !Whole(Listing(lines), asks, i)
    ensures Texts(b, 0, Listing(lines), asks, i) != lines
    decreases |Listing(lines)|
  {
    var rest := Listing(lines);
    var n := ReadSize(SIZE, |rest|, asks(i));
    var r := OneRead(b, 0, rest, n);
    if rest[n - 1] == '\n' {
      var k := ReadWhole(b, lines, n);
      CutWrites(r.buffer, lines[k..], asks, i + 1);
      var ts := Texts(r.buffer, 0, Listing(lines[k..]), asks, i + 1);
      assert (lines[..k] + ts)[k..] == ts;
    } else {
      var k, part := CutListing(lines, n);
      ReadCut(b, lines, n, k, part);
      AfterCut(r.buffer, lines, n, k, part, asks, i + 1);
      var ts := Texts(r.buffer, |part|, rest[n..], asks, i + 1);
      assert (lines[..k] + ts)[k..] == ts;
    }
  }

  /** After a read that ends inside line k, what is written is not the lines from k: it would leave no cell
      unused, but line k is written too late for that. */
  lemma AfterCut(b: string, lines: seq<string>, n: nat, k: nat, part: string, asks: nat -> nat, i: nat)
    requires |b| == SIZE && (forall w | w in lines :: Line(w)) && Cut(lines, n, k, part) && 0 < |part| <= SIZE
    ensures Texts(b, |part|, Listing(lines)[n..], asks, i) != lines[k..]
  {
    var rest, a, ts := Listing(lines)[n..], lines[k], Texts(b, |part|, Listing(lines)[n..], asks, i);
    assert Line(a) && rest[|a| - |part|] == '\n';
    if ts != [] && ts[0] == a { CutIsLost(b, |part|, rest, a, asks, i, ts); }
    assert lines[k..][0] == a && lines[k..][1..] == lines[k + 1..];
    assert |Listing(lines[k..])| == |a| + 1 + |Listing(lines[k + 1..])|;
  }

  /** What is written is the processes listed, in order, if and only if no read ends inside a number: the
      buffer, which is not initialised, never helps nor harms. */
  lemma WritesExactly(b: string, pids: seq<nat>, asks: nat -> nat, i: nat)
    requires |b| == SIZE
    ensures Texts(b, 0, Listing(Numbers(pids)), asks, i) == Numbers(pids) <==> Whole(Listing(Numbers(pids)), asks, i)
  {
    NumbersAreLines(pids);
    if Whole(Listing(Numbers(pids)), asks, i) {
      WholeWrites(b, Numbers(pids), asks, i);
    } else {
      CutWrites(b, Numbers(pids), asks, i);
    }
  }

  /** A list that one read can return is read whole. */
  lemma FitsIsWhole(lines: seq<string>, asks: nat -> nat, i: nat)
    requires |Listing(lines)| <= SIZE && asks(i) >= SIZE
    ensures Whole(Listing(lines), asks, i)
  {
    var s := Listing(lines);
    if s == "" {
    } else {
      EndsWithNewline(lines);
      assert s[|s|..] == "";
    }
  }

  lemma {:induction false} EndsWithNewline(lines: seq<string>)
    requires lines != []
    ensures Listing(lines) != "" && Listing(lines)[|Listing(lines)| - 1] == '\n'
  {
    if |lines| == 1 {
      assert Listing(lines[1..]) == "";
    } else {
      EndsWithNewline(lines[1..]);
    }
  }

  // ---- a list that is not read whole ----

  /** 34 processes. */
  function Many(): seq<nat> {
    seq(33, i => 10000 + i) + [12345]
  }

  /** When the buffer ends in the first half of the last line, the end of that line is written in its place. */
  lemma LastLineCut(b: string, before: seq<string>, a: string, c: nat, asks: nat -> nat, i: nat)
    requires |b| == SIZE && Line(a) && forall w | w in before :: Line(w)
    requires asks(i) >= SIZE && asks(i + 1) >= SIZE
    requires |Listing(before)| + c == SIZE && 0 < c && c + c <= |a| && |a| < SIZE
    ensures Texts(b, 0, Listing(before + [a]), asks, i) == before + [a[c..]]
  {
    var lines, rest := before + [a], Listing(before + [a]);
    WithLast(before, a, c);
    ReadCut(b, lines, SIZE, |before|, a[..c]);
    var r := OneRead(b, 0, rest, SIZE);
    assert lines[..|before|] == before;
    EndTexts(r.buffer, c, a[c..], asks, i + 1);
    assert ReadSize(SIZE, |rest|, asks(i)) == SIZE;
  }

  lemma WithLast(before: seq<string>, a: string, c: nat)
    requires c <= |a|
    ensures var s, n := Listing(before + [a]), |Listing(before)| + c;
            |s| == n + |a[c..]| + 1 && s[..n] == Listing((before + [a])[..|before|]) + a[..c] && s[n..] == a[c..] + "\n"
  {
    ListingConcat(before, [a]);
    assert Listing([a]) == a + "\n" + Listing([]) == a + "\n";
    assert (before + [a])[..|before|] == before;
    assert a == a[..c] + a[c..];
  }

  /** The texts for the end of a line. */
  lemma EndTexts(b: string, c: nat, end: string, asks: nat -> nat, i: nat)
    requires |b| == SIZE && NoNewline(b, 0, SIZE) && Line(end) && 0 < c <= |end| && c + |end| + 1 <= SIZE
             && asks(i) >= SIZE
    ensures Texts(b, c, end + "\n", asks, i) == [end]
  {
    var rest, n := end + "\n", |end| + 1;
    EndRead(b, c, end);
    assert rest[n..] == "";
    var e := OneRead(b, c, rest, n);
    assert Texts(e.buffer, e.carried, "", asks, i + 1) == [];
  }

  /** The read of the end of a line. */
  lemma EndRead(b: string, c: nat, end: string)
    requires |b| == SIZE && NoNewline(b, 0, SIZE) && Line(end) && 0 < c <= |end| && c + |end| + 1 <= SIZE
    ensures OneRead(b, c, end + "\n", |end| + 1).texts == [end]
  {
    var m := |end|;
    var read := Filled(b, end + "\n", m + 1);
    assert forall q | 0 <= q < m :: read[q] == (end + "\n")[q] == end[q];
    assert read[..m] == end;
    ScanEnd(read, c, m, c + m + 1);
  }

  /** A scan that finds only one newline. */
  lemma ScanEnd(b: string, c: nat, m: nat, count: nat)
    requires c <= m < count <= |b| && b[m] == '\n' && NoNewline(b, c, m) && NoNewline(b, m + 1, count)
             && '\0' !in b[..m]
    ensures Scan(b, 0, c, count).texts == [b[..m]]
  {
    ScanSkips(b, 0, c, m, count);
    var cut := b[m := '\0'];
    assert cut[0..] == cut && cut[..m] == b[..m];
    CStrIs(cut, m);
    ScanSkips(cut, m + 1, m + 1, count, count);
  }

  lemma FiveDigits(n: nat)
    requires 10000 <= n < 100000
    ensures |Digits(n)| == 5
  {
    assert |Digits(n / 10 / 10 / 10 / 10)| == 1;
    assert |Digits(n / 10 / 10 / 10)| == 2;
    assert |Digits(n / 10 / 10)| == 3;
    assert |Digits(n / 10)| == 4;
  }

  lemma {:induction false} SixEach(pids: seq<nat>)
    requires forall k | 0 <= k < |pids| :: 10000 <= pids[k] < 100000
    ensures |Listing(Numbers(pids))| == 6 * |pids|
  {
    if pids == [] {
    } else {
      FiveDigits(pids[0]);
      SixEach(pids[1..]);
      assert Numbers(pids)[1..] == Numbers(pids[1..]);
    }
  }

  lemma SomeDigits()
    ensures Digits(12345) == "12345" && Digits(345) == "345"
  {
    assert Digits(1) == "1" && Digits(3) == "3";
    assert Digits(12) == "12" && Digits(34) == "34";
    assert Digits(123) == "123" && Digits(345) == "345";
    assert Digits(1234) == "1234";
  }

  lemma {:induction false} NumbersConcat(a: seq<nat>, b: seq<nat>)
    ensures Numbers(a + b) == Numbers(a) + Numbers(b)
  {
    if a == [] {
      assert a + b == b;
    } else {
      assert (a + b)[1..] == a[1..] + b;
      NumbersConcat(a[1..], b);
    }
  }

  lemma ManyFacts()
    ensures |Many()| == 34 && Many()[33] == 12345 && 345 !in Many()
  {
  }

  lemma ManyLines()
    ensures var before := Many()[..33];
            && Numbers(Many()) == Numbers(before) + ["12345"] && |Listing(Numbers(before))| == 198
            && forall w | w in Numbers(before) :: Line(w)
  {
    var before := Many()[..33];
    assert Many() == before + [12345];
    NumbersConcat(before, [12345]);
    assert Numbers([12345]) == [Digits(12345)];
    SomeDigits();
    SixEach(before);
    NumbersAreLines(before);
  }

  /** With as many characters as asked in each read, 345 is moved, and 12345 is not. */
  lemma MovesAnother(b: string, asks: nat -> nat, i: nat)
    requires |b| == SIZE && forall j :: asks(j) >= SIZE
    ensures Texts(b, 0, Listing(Numbers(Many())), asks, i) == Numbers(Many()[..33]) + [Digits(345)]
    ensures !Whole(Listing(Numbers(Many())), asks, i)
  {
    ManyLines();
    SomeDigits();
    AnotherText(b, Numbers(Many()[..33]), asks, i);
    OtherTexts(b, Many(), asks, i, Numbers(Many()[..33]) + ["345"]);
  }

  lemma AnotherText(b: string, before: seq<string>, asks: nat -> nat, i: nat)
    requires |b| == SIZE && forall j :: asks(j) >= SIZE
    requires |Listing(before)| == 198 && forall w | w in before :: Line(w)
    ensures Texts(b, 0, Listing(before + ["12345"]), asks, i) == before + ["345"] != before + ["12345"]
  {
    LastLineCut(b, before, "12345", 2, asks, i);
    assert "12345"[2..] == "345";
    assert (before + ["345"])[|before|] != (before + ["12345"])[|before|];
  }

  lemma OtherTexts(b: string, pids: seq<nat>, asks: nat -> nat, i: nat, ts: seq<string>)
    requires |b| == SIZE && ts == Texts(b, 0, Listing(Numbers(pids)), asks, i) && ts != Numbers(pids)
    ensures !Whole(Listing(Numbers(pids)), asks, i)
  {
    WritesExactly(b, pids, asks, i);
  }
}
