module Controllers {
  datatype Controller = Cpuset | Cpu | Memory | Io | Pids | Misc | Hugetlb | Rdma
}

/** Reading cgroup.controllers and writing cgroup.subtree_control: the masks of controllers as texts. */
module ControllerText {
  import opened Wrappers
  import opened Controllers

  const MAX_CTRL_SIZE: nat := 300

  const COUNT: nat := 8

  /** The bit of a controller in a mask. */
  function Index(c: Controller): (r: nat)
    ensures r < COUNT && Entry(r) == c
  {
    match c
    case Cpuset => 0
    case Cpu => 1
    case Memory => 2
    case Io => 3
    case Pids => 4
    case Misc => 5
    case Hugetlb => 6
    case Rdma => 7
  }

  /** The table of the controllers. */
  function Entry(n: nat): (c: Controller)
    requires n < COUNT
  {
    match n
    case 0 => Cpuset
    case 1 => Cpu
    case 2 => Memory
    case 3 => Io
    case 4 => Pids
    case 5 => Misc
    case 6 => Hugetlb
    case _ => Rdma
  }

  lemma IndexOfEntry(n: nat)
    requires n < COUNT
    ensures Index(Entry(n)) == n
  {
  }

  function Name(c: Controller): string {
    match c
    case Cpuset => "cpuset"
    case Cpu => "cpu"
    case Memory => "memory"
    case Io => "io"
    case Pids => "pids"
    case Misc => "misc"
    case Hugetlb => "hugetlb"
    case Rdma => "rdma"
  }

  predicate Separates(c: char) {
    c <= ' '
  }

  /** Length of the leading word. */
  function WordLen(s: string): (r: nat)
    ensures r <= |s|
  {
    if s != "" && !Separates(s[0]) then 1 + WordLen(s[1..]) else 0
  }

  /** The words of a text. */
  function Words(s: string): seq<string>
    decreases |s|
  {
    if s == "" then []
    else if Separates(s[0]) then Words(s[1..])
    else [s[..WordLen(s)]] + Words(s[WordLen(s)..])
  }

  lemma {:induction false} WordLenThen(a: string, rest: string)
    requires rest != "" && Separates(rest[0])
    ensures WordLen(a + rest) == WordLen(a)
  {
    if a == "" {
      assert a + rest == rest;
    } else {
      WordLenThen(a[1..], rest);
      assert (a + rest)[1..] == a[1..] + rest;
    }
  }

  lemma WordHead(t: string, n: nat)
    requires t != "" && !Separates(t[0]) && n == WordLen(t)
    ensures 0 < n <= |t| && Words(t) == [t[..n]] + Words(t[n..])
  {
  }

  lemma CutThen(a: string, rest: string, n: nat)
    requires n <= |a|
    ensures (a + rest)[..n] == a[..n] && (a + rest)[n..] == a[n..] + rest
  {
  }

  /** A text t that starts with a word, u being what follows the word. */
  lemma WordThen(a: string, rest: string, n: nat, t: string, u: string)
    requires a != "" && !Separates(a[0]) && rest != "" && Separates(rest[0]) && n == WordLen(a) && t == a + rest
    requires u == a[n..] + rest
    ensures 0 < n <= |a| && Words(t) == [a[..n]] + Words(u)
  {
    WordLenThen(a, rest);
    WordHead(t, n);
    CutThen(a, rest, n);
  }

  /** Words are separated by characters up to the space, and have none: these laws say what they are. */
  lemma {:induction false} WordsSplit(a: string, rest: string)
    requires rest != "" && rest[0] as int <= 32
    ensures Words(a + rest) == Words(a) + Words(rest[1..])
    decreases |a|, 1
  {
    if a == "" {
      assert a + rest == rest;
    } else if Separates(a[0]) {
      WordsSplit(a[1..], rest);
      assert (a + rest)[1..] == a[1..] + rest;
    } else {
      WordsAfter(a, rest, WordLen(a));
    }
  }

  lemma {:induction false} WordsAfter(a: string, rest: string, n: nat)
    requires rest != "" && rest[0] as int <= 32 && a != "" && !Separates(a[0]) && n == WordLen(a)
    ensures Words(a + rest) == Words(a) + Words(rest[1..])
    decreases |a|, 0
  {
    WordHead(a, n);
    WordThen(a, rest, n, a + rest, a[n..] + rest);
    WordsSplit(a[n..], rest);
    var w, x, y := [a[..n]], Words(a[n..]), Words(rest[1..]);
    assert w + (x + y) == w + x + y;
  }

  lemma OneWordExactly(w: string)
    requires w != "" && forall i | 0 <= i < |w| :: w[i] as int > 32
    ensures Words(w) == [w] && Words("") == []
  {
    WordsAlone(w);
  }

  /** The words from a position, which may be beyond the end. */
  function WordsAt(all: string, pos: nat): seq<string> {
    if pos < |all| then Words(all[pos..]) else []
  }

  /** The controller that a word stands for: the last one of the first n of the table whose name the word starts. */
  function Matched(word: string, n: nat): Option<Controller>
    requires n <= COUNT
  {
    if n == 0 then None
    else if word <= Name(Entry(n - 1)) then Some(Entry(n - 1))
    else Matched(word, n - 1)
  }

  /** The bit that a word sets. */
  function Bit(word: string): set<Controller> {
    match Matched(word, COUNT) case Some(c) => {c} case None => {}
  }

  function MaskOf(words: seq<string>): set<Controller> {
    if words == [] then {} else MaskOf(words[1..]) + Bit(words[0])
  }

  lemma MaskFirst(word: string, words: seq<string>)
    ensures MaskOf([word] + words) == MaskOf(words) + Bit(word)
  {
    assert ([word] + words)[1..] == words;
  }

  predicate IsName(word: string) {
    exists c :: word == Name(c)
  }

  predicate Starts(word: string) {
    exists c :: word <= Name(c)
  }

  /** Only one name of the table starts another one: cpu starts cpuset, which the downward search tries after it. */
  lemma NamesApart(c: Controller, d: Controller)
    requires c != d && Name(c) <= Name(d)
    ensures c == Cpu && d == Cpuset
  {
    assert Name(c)[0] == Name(d)[0] && Name(c)[1] == Name(d)[1];
  }

  /** A name is found, and not the longer one that it starts. */
  lemma {:induction false} MatchedName(c: Controller, n: nat)
    requires Index(c) < n <= COUNT
    ensures Matched(Name(c), n) == Some(c)
  {
    IndexOfEntry(n - 1);
    if c != Entry(n - 1) {
      if Name(c) <= Name(Entry(n - 1)) {
        NamesApart(c, Entry(n - 1));
        assert false;
      }
      MatchedName(c, n - 1);
    }
  }

  lemma {:induction false} MatchedStarts(word: string, n: nat)
    requires n <= COUNT
    ensures Matched(word, n).Some? ==> Starts(word)
  {
    if n == 0 {
    } else {
      MatchedStarts(word, n - 1);
    }
  }

  /** Reading is exact: when each word is the name of a controller, or starts no name, the mask has the
      controllers named. */
  lemma {:induction false} MaskExact(words: seq<string>)
    requires forall w | w in words :: IsName(w) || !Starts(w)
    ensures MaskOf(words) == set c: Controller | Name(c) in words
  {
    if words == [] {
    } else {
      var word := words[0];
      MaskExact(words[1..]);
      MatchedStarts(word, COUNT);
      forall c: Controller | word == Name(c) ensures Matched(word, COUNT) == Some(c) {
        MatchedName(c, COUNT);
      }
      if IsName(word) {
        var c :| word == Name(c);
        assert word <= Name(c);
      }
    }
  }

  /** Texts of cgroup.controllers: they have the name of each controller of the mask, and possibly words
      that start no name. */
  ghost predicate ShowsNames(shows: set<Controller> -> string) {
    forall mask ::
      && |shows(mask)| <= MAX_CTRL_SIZE
      && (forall w | w in Words(shows(mask)) :: IsName(w) || !Starts(w))
      && (forall c :: Name(c) in Words(shows(mask)) <==> c in mask)
  }

  /** A mask that is shown is the mask that is read. */
  lemma ShownIsRead(shows: set<Controller> -> string, mask: set<Controller>)
    requires ShowsNames(shows)
    ensures MaskOf(Words(shows(mask))) == mask
  {
    MaskExact(Words(shows(mask)));
  }

  /** A separator is skipped. */
  lemma SkipOne(all: string, pos: nat)
    requires pos < |all| && Separates(all[pos])
    ensures WordsAt(all, pos) == WordsAt(all, pos + 1)
  {
    var s := all[pos..];
    assert s[0] == all[pos] && s[1..] == all[pos + 1..];
    assert Words(s) == Words(s[1..]);
    assert Words("") == [];
  }

  /** A word, with the separator that follows it, is read. */
  lemma ReadOne(all: string, pos: nat, len: nat)
    requires pos < |all| && !Separates(all[pos]) && len == WordLen(all[pos..])
    requires pos + len < |all| ==> Separates(all[pos + len])
    ensures WordsAt(all, pos) == [all[pos..pos + len]] + WordsAt(all, pos + len + 1)
  {
    var s, rest := all[pos..], all[pos + len..];
    assert s[..len] == all[pos..pos + len];
    assert s[len..] == rest;
    assert Words(s) == [s[..len]] + Words(rest);
    assert WordsAt(all, pos + len) == Words(rest);
    if pos + len < |all| { SkipOne(all, pos + len); }
  }

  /** Skips separators. */
  method SkipBlank(buffer: array<char>, from: nat, sz: nat) returns (pos: nat)
    requires from < sz <= buffer.Length
    ensures from <= pos <= sz && (pos < sz ==> !Separates(buffer[pos]))
    ensures WordsAt(buffer[..sz], from) == WordsAt(buffer[..sz], pos)
  {
    ghost var all := buffer[..sz];
    pos := from;
    while pos < sz && Separates(buffer[pos])
      invariant from <= pos <= sz && WordsAt(all, from) == WordsAt(all, pos)
    {
      SkipOne(all, pos);
      pos := pos + 1;
    }
  }

  /** The length without separators. */
  method LengthAt(buffer: array<char>, pos: nat, sz: nat) returns (len: nat)
    requires pos <= sz <= buffer.Length
    ensures pos + len <= sz && len == WordLen(buffer[..sz][pos..])
    ensures pos + len < sz ==> Separates(buffer[pos + len])
    ensures len == 0 ==> pos == sz || Separates(buffer[pos])
  {
    ghost var all := buffer[..sz];
    len := 0;
    while pos + len < sz && !Separates(buffer[pos + len])
      invariant pos + len <= sz && WordLen(all[pos..]) == len + WordLen(all[pos + len..])
    {
      assert all[pos + len..][1..] == all[pos + len + 1..];
      len := len + 1;
    }
  }

  /** get_effective_controllers, on what has been read. */
  method ReadMask(buffer: array<char>, sz: nat) returns (mask: set<Controller>)
    requires sz <= buffer.Length
    ensures mask == MaskOf(Words(buffer[..sz]))
  {
    mask := {};
    ghost var total := MaskOf(WordsAt(buffer[..sz], 0));
    assert buffer[..sz][0..] == buffer[..sz];
    var pos: nat := 0;
    while pos < sz
      invariant total == mask + MaskOf(WordsAt(buffer[..sz], pos))
    {
      var word;
      pos, word := NextWord(buffer, pos, sz);
      if word != "" {
        MaskFirst(word, WordsAt(buffer[..sz], pos));
        var found := Search(word);
        mask := if found.Some? then mask + {found.value} else mask;
      }
    }
  }

  /** Reads a word and the separator that follows it; the last word read may be empty. */
  method NextWord(buffer: array<char>, from: nat, sz: nat) returns (pos: nat, word: string)
    requires from < sz <= buffer.Length
    ensures from < pos
    ensures WordsAt(buffer[..sz], from) ==
              (if word != "" then [word] + WordsAt(buffer[..sz], pos) else WordsAt(buffer[..sz], pos))
  {
    ghost var all := buffer[..sz];
    var start := SkipBlank(buffer, from, sz);
    var len := LengthAt(buffer, start, sz);
    pos, word := start + len + 1, buffer[start..start + len];
    if len > 0 {
      assert start < sz && all[start] == buffer[start];
      assert all[start..start + len] == word && !Separates(all[start]);
      ReadOne(all, start, len);
    }
  }

  /** The downward search in the table. */
  method Search(word: string) returns (found: Option<Controller>)
    ensures found == Matched(word, COUNT)
  {
    var idx := COUNT;
    while idx > 0 && !(word <= Name(Entry(idx - 1)))
      invariant 0 <= idx <= COUNT && Matched(word, idx) == Matched(word, COUNT)
    {
      idx := idx - 1;
    }
    found := if idx > 0 then Some(Entry(idx - 1)) else None;
  }

  // ---- writing ----

  /** The controllers of a mask that are among the first n of the table, in its order. */
  function Listed(mask: set<Controller>, n: nat): seq<Controller>
    requires n <= COUNT
  {
    if n == 0 then []
    else if Entry(n - 1) in mask then Listed(mask, n - 1) + [Entry(n - 1)]
    else Listed(mask, n - 1)
  }

  /** Names separated by spaces, each after a prefix. */
  function Joined(prefix: string, cs: seq<Controller>): (r: string)
    requires |prefix| <= 1
    ensures |r| <= 9 * |cs| && (cs == [] <==> r == "")
  {
    if cs == [] then ""
    else (if |cs| == 1 then "" else Joined(prefix, cs[..|cs| - 1]) + " ") + (prefix + Name(cs[|cs| - 1]))
  }

  /** What is written to enable controllers. */
  function Request(cs: seq<Controller>): string {
    Joined("+", cs)
  }

  predicate OneWord(w: string) {
    w != "" && forall i | 0 <= i < |w| :: !Separates(w[i])
  }

  lemma {:induction false} WordLenOf(w: string, s: string)
    requires forall i | 0 <= i < |w| :: !Separates(w[i])
    requires s == "" || Separates(s[0])
    ensures WordLen(w + s) == |w|
  {
    if w != "" {
      assert (w + s)[1..] == w[1..] + s;
      WordLenOf(w[1..], s);
    } else {
      assert w + s == s;
    }
  }

  lemma WordsAlone(w: string)
    requires OneWord(w)
    ensures Words(w) == [w]
  {
    WordLenOf(w, "");
    assert w + "" == w && w[..|w|] == w && w[|w|..] == "";
    assert Words("") == [];
  }

  lemma {:induction false} WordsAppend(s: string, w: string)
    requires OneWord(w)
    ensures Words(s + " " + w) == Words(s) + [w]
    decreases |s|
  {
    var all := s + " " + w;
    if s == "" {
      assert all[1..] == w;
      WordsAlone(w);
    } else if Separates(s[0]) {
      assert all[1..] == s[1..] + " " + w;
      WordsAppend(s[1..], w);
    } else {
      var n := WordLen(s);
      WordLenIs(s);
      assert all == s[..n] + (s[n..] + " " + w);
      WordLenOf(s[..n], s[n..] + " " + w);
      assert all[..n] == s[..n] && all[n..] == s[n..] + " " + w;
      WordsAppend(s[n..], w);
    }
  }

  lemma {:induction false} WordLenIs(s: string)
    ensures var n := WordLen(s); (forall i | 0 <= i < n :: !Separates(s[i])) && (n < |s| ==> Separates(s[n]))
  {
    if s != "" && !Separates(s[0]) { WordLenIs(s[1..]); }
  }

  lemma NameWord(prefix: string, c: Controller)
    requires prefix == "" || prefix == "+"
    ensures OneWord(prefix + Name(c))
  {
    var n := Name(c);
    assert forall i | 0 <= i < |n| :: !Separates(n[i]);
  }

  function Prefixed(prefix: string, cs: seq<Controller>): seq<string> {
    if cs == [] then [] else Prefixed(prefix, cs[..|cs| - 1]) + [prefix + Name(cs[|cs| - 1])]
  }

  lemma {:induction false} JoinedWords(prefix: string, cs: seq<Controller>)
    requires prefix == "" || prefix == "+"
    ensures Words(Joined(prefix, cs)) == Prefixed(prefix, cs)
  {
    if cs == [] {
    } else {
      var up, last := cs[..|cs| - 1], prefix + Name(cs[|cs| - 1]);
      NameWord(prefix, cs[|cs| - 1]);
      JoinedWords(prefix, up);
      if |cs| == 1 {
        WordsAlone(last);
        assert Joined(prefix, cs) == last && Prefixed(prefix, up) == [];
      } else {
        WordsAppend(Joined(prefix, up), last);
        assert Joined(prefix, cs) == Joined(prefix, up) + " " + last;
      }
    }
  }

  /** The words of a request are the names asked, each after a plus sign. */
  lemma RequestWords(cs: seq<Controller>)
    ensures Words(Request(cs)) == Prefixed("+", cs)
  {
    JoinedWords("+", cs);
  }

  lemma {:induction false} PrefixedAre(prefix: string, cs: seq<Controller>)
    ensures forall w :: w in Prefixed(prefix, cs) <==> exists c :: c in cs && w == prefix + Name(c)
  {
    if cs == [] {
    } else {
      PrefixedAre(prefix, cs[..|cs| - 1]);
      assert forall c :: c in cs <==> c in cs[..|cs| - 1] || c == cs[|cs| - 1];
    }
  }

  lemma PrefixedApart(prefix: string, c: Controller, d: Controller)
    requires prefix + Name(c) == prefix + Name(d)
    ensures c == d
  {
    assert (prefix + Name(c))[|prefix|..] == Name(c) && (prefix + Name(d))[|prefix|..] == Name(d);
    if c != d { NamesApart(c, d); }
  }

  /** The words made for a mask are those of its controllers. */
  lemma MaskWords(prefix: string, mask: set<Controller>)
    requires prefix == "" || prefix == "+"
    ensures var words := Words(Joined(prefix, Listed(mask, COUNT)));
            && (forall w | w in words :: exists c :: w == prefix + Name(c))
            && (forall c :: prefix + Name(c) in words <==> c in mask)
  {
    var cs := Listed(mask, COUNT);
    ListedTo(mask, COUNT);
    JoinedWords(prefix, cs);
    PrefixedAre(prefix, cs);
    forall c ensures prefix + Name(c) in Prefixed(prefix, cs) <==> c in mask {
      if prefix + Name(c) in Prefixed(prefix, cs) {
        var d :| d in cs && prefix + Name(c) == prefix + Name(d);
        PrefixedApart(prefix, c, d);
      }
    }
  }

  lemma EndOfLine(s: string)
    ensures Words(s + "\n") == Words(s)
  {
    WordsSplit(s, "\n");
    assert "\n"[1..] == "" && Words("") == [] && Words(s) + [] == Words(s);
  }

  lemma NamesOf(mask: set<Controller>, names: string)
    requires names == Joined("", Listed(mask, COUNT))
    ensures |names| < MAX_CTRL_SIZE
    ensures forall w | w in Words(names) :: IsName(w)
    ensures forall c :: Name(c) in Words(names) <==> c in mask
  {
    ListedTo(mask, COUNT);
    MaskWords("", mask);
    assert forall c :: "" + Name(c) == Name(c);
  }

  /** Controllers can be shown by their names alone, with or without the newline that the kernel adds. */
  lemma NamesShow(end: string)
    requires end == "" || end == "\n"
    ensures ShowsNames(mask => Joined("", Listed(mask, COUNT)) + end)
  {
    var shows := (mask: set<Controller>) => Joined("", Listed(mask, COUNT)) + end;
    forall mask: set<Controller>
      ensures |shows(mask)| <= MAX_CTRL_SIZE
      ensures forall w | w in Words(shows(mask)) :: IsName(w)
      ensures forall c :: Name(c) in Words(shows(mask)) <==> c in mask
    {
      var names := Joined("", Listed(mask, COUNT));
      NamesOf(mask, names);
      EndOfLine(names);
      assert names + "" == names;
    }
  }

  /** What is asked by words, one for each controller. */
  function Requested(words: seq<string>): set<Controller> {
    set c: Controller | "+" + Name(c) in words
  }

  predicate AllAsked(words: seq<string>) {
    forall w | w in words :: exists c :: w == "+" + Name(c)
  }

  /** The request made for a mask asks for this mask. */
  lemma RequestExact(mask: set<Controller>)
    ensures var words := Words(Request(Listed(mask, COUNT)));
            && AllAsked(words) && Requested(words) == mask
            && forall w | w in words :: exists c | c in mask :: w == "+" + Name(c)
  {
    MaskWords("+", mask);
  }

  lemma RequestMore(cs: seq<Controller>, c: Controller)
    ensures Request(cs + [c]) == (if cs == [] then "" else Request(cs) + " ") + ("+" + Name(c))
  {
    assert (cs + [c])[..|cs|] == cs;
  }

  lemma RequestOne(c: Controller, cs: seq<Controller>)
    requires cs == [c]
    ensures Request(cs) == "+" + Name(c)
  {
    assert "" + ("+" + Name(c)) == "+" + Name(c);
  }

  /** The text that asks for one controller. */
  lemma AsksByName(mask: set<Controller>, c: Controller)
    requires mask == {c}
    ensures Request(Listed(mask, COUNT)) ==
            "+" + match c
                  case Cpuset => "cpuset"
                  case Cpu => "cpu"
                  case Memory => "memory"
                  case Io => "io"
                  case Pids => "pids"
                  case Misc => "misc"
                  case Hugetlb => "hugetlb"
                  case Rdma => "rdma"
  {
    ListedOne(c, COUNT);
    RequestOne(c, Listed(mask, COUNT));
  }

  lemma {:induction false} ListedOne(c: Controller, n: nat)
    requires n <= COUNT
    ensures Listed({c}, n) == if Index(c) < n then [c] else []
  {
    if n == 0 {
    } else {
      ListedOne(c, n - 1);
      IndexOfEntry(n - 1);
    }
  }

  /** A mask is listed whole, each controller once, and the request fits in the buffer. */
  lemma ListedExact(mask: set<Controller>)
    ensures forall c :: c in Listed(mask, COUNT) <==> c in mask
    ensures forall i, j | 0 <= i < j < |Listed(mask, COUNT)| :: Listed(mask, COUNT)[i] != Listed(mask, COUNT)[j]
    ensures |Request(Listed(mask, COUNT))| < MAX_CTRL_SIZE
  {
    ListedTo(mask, COUNT);
  }

  lemma {:induction false} ListedTo(mask: set<Controller>, n: nat)
    requires n <= COUNT
    ensures forall c :: c in Listed(mask, n) <==> c in mask && Index(c) < n
    ensures forall i, j | 0 <= i < j < |Listed(mask, n)| :: Listed(mask, n)[i] != Listed(mask, n)[j]
    ensures |Listed(mask, n)| <= n
  {
    if n == 0 {
    } else {
      ListedTo(mask, n - 1);
      IndexOfEntry(n - 1);
    }
  }

  /** What remains to be asked from an entry of the table. */
  ghost predicate Remains(mask: set<Controller>, left: set<Controller>, idx: nat) {
    forall c :: c in left <==> c in mask && idx <= Index(c)
  }

  lemma {:induction false} NoneRemains(mask: set<Controller>, idx: nat, n: nat)
    requires idx <= n <= COUNT && Remains(mask, {}, idx)
    ensures Listed(mask, n) == Listed(mask, idx)
  {
    if idx >= n {
    } else {
      IndexOfEntry(n - 1);
      NoneRemains(mask, idx, n - 1);
    }
  }

  lemma SomeRemains(mask: set<Controller>, left: set<Controller>, idx: nat)
    requires Remains(mask, left, idx) && left != {}
    ensures idx < COUNT
  {
    var c :| c in left;
    assert idx <= Index(c);
  }

  lemma RemainsBeyond(mask: set<Controller>, left: set<Controller>, idx: nat)
    requires idx < COUNT && Remains(mask, left, idx)
    ensures Remains(mask, left - {Entry(idx)}, idx + 1) && (Entry(idx) in left <==> Entry(idx) in mask)
  {
    IndexOfEntry(idx);
  }

  /** add_required_subcontrollers, up to the write */
  method MakeRequest(mask: set<Controller>) returns (text: string)
    ensures text == Request(Listed(mask, COUNT)) && |text| < MAX_CTRL_SIZE
  {
    var left, idx := mask, 0;
    text := "";
    while left != {}
      invariant idx <= COUNT && Remains(mask, left, idx) && text == Request(Listed(mask, idx))
      decreases COUNT - idx
    {
      SomeRemains(mask, left, idx);
      RemainsBeyond(mask, left, idx);
      RequestMore(Listed(mask, idx), Entry(idx));
      if Entry(idx) in left {
        left := left - {Entry(idx)};
        text := (if text != "" then text + " " else text) + ("+" + Name(Entry(idx)));
      } else {
        assert left - {Entry(idx)} == left;
      }
      idx := idx + 1;
    }
    NoneRemains(mask, idx, COUNT);
    ListedExact(mask);
  }
}
