/** Expansion of $KEY in texts, without command substitution. */
module Expand {
  import opened Wrappers

  const MAX_CYAML_FORMAT_STR := 512

  // ---- keys ----

  predicate NameChar(c: char) {
    !(c < '0' || ('9' < c && c < 'A') || ('Z' < c && c < '_') || ('_' < c && c < 'a') || 'z' < c)
  }

  /** The scan of a key from position start, len characters being read and npar parentheses open. */
  function KeyLengthFrom(s: string, start: nat, len: nat, npar: nat): (r: nat)
    requires start + len <= |s|
    ensures start + r <= |s|
    decreases |s| - len
  {
    if start + len == |s| then if npar > 0 then 0 else len
    else
      var c := s[start + len];
      if c == '(' && (len == 0 || npar > 0) then KeyLengthFrom(s, start, len + 1, npar + 1)
      else if npar > 0 then
        if c == ')' then if npar == 1 then len + 1 else KeyLengthFrom(s, start, len + 1, npar - 1)
        else KeyLengthFrom(s, start, len + 1, npar)
      else if !NameChar(c) then len
      else KeyLengthFrom(s, start, len + 1, npar)
  }

  function KeyLength(s: string, start: nat): (r: nat)
    requires start <= |s|
    ensures start + r <= |s|
  {
    KeyLengthFrom(s, start, 0, 0)
  }

  method ComputeKeyLength(s: string, start: nat) returns (r: nat)
    requires start <= |s|
    ensures r == KeyLength(s, start)
  {
    var len: nat, npar: nat := 0, 0;
    while true
      invariant start + len <= |s|
      invariant KeyLength(s, start) == KeyLengthFrom(s, start, len, npar)
      decreases |s| - len
    {
      if start + len == |s| {
        break;
      }
      var c := s[start + len];
      if c == '(' && (len == 0 || npar > 0) {
        npar := npar + 1;
      } else if npar > 0 {
        if c == ')' {
          npar := npar - 1;
          if npar == 0 {
            return len + 1;
          }
        }
      } else if !NameChar(c) {
        break;
      }
      len := len + 1;
    }
    r := if npar > 0 then 0 else len;
  }

  /** Parentheses open after n characters from start. */
  function Opened(s: string, start: nat, n: nat): int
    requires start + n <= |s|
  {
    if n == 0 then 0
    else Opened(s, start, n - 1) + (if s[start + n - 1] == '(' then 1 else if s[start + n - 1] == ')' then -1 else 0)
  }

  /** The first n characters from start are parentheses balanced for the first time. */
  ghost predicate Balances(s: string, start: nat, n: nat)
    requires start + n <= |s|
  {
    n > 0 && Opened(s, start, n) == 0 && forall m | 0 < m < n :: Opened(s, start, m) > 0
  }

  lemma {:induction false} ParenKeyFrom(s: string, start: nat, len: nat, npar: nat)
    requires start < |s| && s[start] == '(' && 0 < len && start + len <= |s|
    requires npar == Opened(s, start, len) && forall m | 0 < m <= len :: Opened(s, start, m) > 0
    ensures var r := KeyLengthFrom(s, start, len, npar);
            if r == 0 then forall m | 0 < m && start + m <= |s| :: Opened(s, start, m) > 0 else Balances(s, start, r)
    decreases |s| - len
  {
    if start + len >= |s| {
    } else {
      var c := s[start + len];
      var next := if c == '(' then npar + 1 else if c == ')' then npar - 1 else npar;
      assert Opened(s, start, len + 1) == next;
      if next > 0 {
        ParenKeyFrom(s, start, len + 1, next);
      }
    }
  }

  lemma {:induction false} NameKeyFrom(s: string, start: nat, len: nat)
    requires start + len <= |s| && (start < |s| ==> s[start] != '(')
    ensures var r := KeyLengthFrom(s, start, len, 0);
            && len <= r
            && (forall c | c in s[start + len..start + r] :: NameChar(c))
            && (start + r < |s| ==> !NameChar(s[start + r]))
    decreases |s| - len
  {
    if start + len < |s| && NameChar(s[start + len]) {
      NameKeyFrom(s, start, len + 1);
      var r := KeyLengthFrom(s, start, len, 0);
      assert s[start + len..start + r] == [s[start + len]] + s[start + len + 1..start + r];
    }
  }

  /** A key is the shortest balanced parenthesised prefix when it starts with a parenthesis (empty
      when there is none), else the longest run of name characters. */
  lemma KeyLengthExact(s: string, start: nat)
    requires start <= |s|
    ensures var r := KeyLength(s, start);
            if start < |s| && s[start] == '(' then
              if r == 0 then forall n | 0 < n && start + n <= |s| :: Opened(s, start, n) > 0
              else Balances(s, start, r)
            else (forall c | c in s[start..start + r] :: NameChar(c)) && (start + r < |s| ==> !NameChar(s[start + r]))
  {
    if start < |s| && s[start] == '(' {
      assert Opened(s, start, 0) == 0 && Opened(s, start, 1) == 1;
      ParenKeyFrom(s, start, 1, 1);
    } else {
      NameKeyFrom(s, start, 0);
    }
  }

  // ---- the unbounded expansion ----

  datatype Token = Lit(c: char) | Key(name: string)

  /** A backslash escapes a dollar. */
  predicate Escaped(s: string, i: nat)
    requires i < |s|
  {
    s[i] == '\\' && i + 1 < |s| && s[i + 1] == '$'
  }

  predicate StartsKey(s: string, i: nat)
    requires i < |s|
  {
    s[i] == '$' && (i == 0 || s[i - 1] != '\\')
  }

  function Tokens(s: string, i: nat): seq<Token>
    decreases |s| - i
  {
    if i >= |s| then []
    else if Escaped(s, i) then [Lit('$')] + Tokens(s, i + 2)
    else if StartsKey(s, i) then
      var n := KeyLength(s, i + 1);
      [Key(s[i + 1..i + 1 + n])] + Tokens(s, i + 1 + n)
    else [Lit(s[i])] + Tokens(s, i + 1)
  }

  /** The definitions visible from a node and the environment. A rank of the names, below top,
      decreases from a name to those its text mentions when definitions are not circular. */
  datatype Context = Context(defaults: map<string, string>, environ: map<string, string>,
                             rank: string -> nat, top: nat)

  datatype Found = Absent | TooLong | Text(value: string)

  /** Defaults come first and their text is limited; an empty variable is ignored. */
  function Lookup(ctx: Context, name: string): Found {
    if name in ctx.defaults then
      if |ctx.defaults[name]| < MAX_CYAML_FORMAT_STR then Text(ctx.defaults[name]) else TooLong
    else if name in ctx.environ && ctx.environ[name] != "" then Text(ctx.environ[name])
    else Absent
  }

  ghost predicate Below(ctx: Context, ts: seq<Token>, bound: nat) {
    forall t | t in ts && t.Key? :: ctx.rank(t.name) < bound
  }

  ghost predicate Acyclic(ctx: Context) {
    && (forall name: string :: ctx.rank(name) < ctx.top)
    && (forall name | Lookup(ctx, name).Text? :: Below(ctx, Tokens(Lookup(ctx, name).value, 0), ctx.rank(name)))
  }

  function Prepend(s: string, o: Option<string>): Option<string> {
    match o
    case None => None
    case Some(t) => Some(s + t)
  }

  lemma PrependTwice(a: string, b: string, o: Option<string>)
    ensures Prepend(a, Prepend(b, o)) == Prepend(a + b, o)
    ensures Prepend("", o) == o
  {
    if o.Some? {
      assert a + (b + o.value) == (a + b) + o.value && "" + o.value == o.value;
    }
  }

  ghost function ExpandTokens(ctx: Context, ts: seq<Token>, bound: nat): Option<string>
    requires Acyclic(ctx) && Below(ctx, ts, bound)
    decreases bound, |ts|
  {
    if ts == [] then Some("")
    else
      var rest := ExpandTokens(ctx, ts[1..], bound);
      match ts[0]
      case Lit(c) => Prepend([c], rest)
      case Key(name) =>
        match ExpandKey(ctx, name, bound)
        case None => None
        case Some(s) => Prepend(s, rest)
  }

  ghost function ExpandKey(ctx: Context, name: string, bound: nat): Option<string>
    requires Acyclic(ctx) && ctx.rank(name) < bound
    decreases bound, 0
  {
    match Lookup(ctx, name)
    case Absent => Some("")
    case TooLong => None
    case Text(value) => ExpandTokens(ctx, Tokens(value, 0), ctx.rank(name))
  }

  /** The full expansion of a text: None when it needs a definition that is too long. */
  ghost function Expansion(ctx: Context, s: string): Option<string>
    requires Acyclic(ctx)
  {
    ExpandTokens(ctx, Tokens(s, 0), ctx.top)
  }

  /** The expansion does not depend on the rank that shows definitions not to be circular. */
  lemma {:induction false} RankIrrelevant(a: Context, b: Context, ts: seq<Token>, boundA: nat, boundB: nat)
    requires Acyclic(a) && Acyclic(b) && Below(a, ts, boundA) && Below(b, ts, boundB)
    requires a.defaults == b.defaults && a.environ == b.environ
    ensures ExpandTokens(a, ts, boundA) == ExpandTokens(b, ts, boundB)
    decreases boundA, |ts|
  {
    if ts == [] {
    } else {
      RankIrrelevant(a, b, ts[1..], boundA, boundB);
      if ts[0].Key? {
        var name := ts[0].name;
        assert a.rank(name) < boundA && b.rank(name) < boundB;
        assert Lookup(a, name) == Lookup(b, name);
        if Lookup(a, name).Text? {
          RankIrrelevant(a, b, Tokens(Lookup(a, name).value, 0), a.rank(name), b.rank(name));
        }
      }
    }
  }

  // ---- the bounded expansion ----

  ghost predicate Fits(e: Option<string>, idx: nat, maxlen: nat) {
    e.Some? && idx + |e.value| <= maxlen
  }

  /** all is the expansion of a text of which what precedes i expands to done. */
  ghost predicate Progress(ctx: Context, bound: nat, input: string, i: nat, done: string, all: Option<string>)
    requires Acyclic(ctx)
  {
    && Below(ctx, Tokens(input, i), bound)
    && all == Prepend(done, ExpandTokens(ctx, Tokens(input, i), bound))
  }

  lemma Progresses(ctx: Context, bound: nat, input: string, i: nat, done: string, all: Option<string>)
    requires Acyclic(ctx) && Progress(ctx, bound, input, i, done, all) && i < |input|
    ensures if Escaped(input, i) then Progress(ctx, bound, input, i + 2, done + [input[i + 1]], all)
            else if StartsKey(input, i) then
              var n := KeyLength(input, i + 1);
              var key := input[i + 1..i + 1 + n];
              && ctx.rank(key) < bound
              && match ExpandKey(ctx, key, bound)
                 case None => all == None
                 case Some(s) => Progress(ctx, bound, input, i + 1 + n, done + s, all)
            else Progress(ctx, bound, input, i + 1, done + [input[i]], all)
  {
    var ts := Tokens(input, i);
    var next := if Escaped(input, i) then i + 2
                else if StartsKey(input, i) then i + 1 + KeyLength(input, i + 1) else i + 1;
    assert ts[1..] == Tokens(input, next);
    var rest := ExpandTokens(ctx, ts[1..], bound);
    match ts[0]
    case Lit(c) => PrependTwice(done, [c], rest);
    case Key(name) =>
      assert ctx.rank(name) < bound;
      if ExpandKey(ctx, name, bound).Some? {
        PrependTwice(done, ExpandKey(ctx, name, bound).value, rest);
      }
  }

  /** Appends one character if there is room. */
  method Put(c: char, output: array<char>, idxOut: nat, maxlen: nat) returns (rc: int, idx: nat)
    requires idxOut <= maxlen <= output.Length
    modifies output
    ensures if idxOut == maxlen then rc == 1 && idx == idxOut else rc == 0 && idx == idxOut + 1
    ensures output[..idx] == old(output[..idxOut]) + if rc == 0 then [c] else []
    ensures output[idx..] == old(output[idx..])
  {
    if idxOut == maxlen {
      return 1, idxOut;
    }
    output[idxOut] := c;
    return 0, idxOut + 1;
  }

  /** The turn of the loop of defaultsExpand at idxIn. */
  method ExpandOne(ctx: Context, ghost bound: nat, input: string, idxIn: nat, output: array<char>, idxOut: nat,
                   maxlen: nat, ghost done: string, ghost all: Option<string>)
    returns (rc: int, idx: nat, next: nat)
    requires Acyclic(ctx) && idxIn < |input| && Progress(ctx, bound, input, idxIn, done, all)
    requires idxOut <= maxlen <= output.Length
    modifies output
    ensures idxOut <= idx <= maxlen && idxIn < next
    ensures output[..idxOut] == old(output[..idxOut]) && output[idx..] == old(output[idx..])
    ensures rc == 0 ==> Progress(ctx, bound, input, next, done + output[idxOut..idx], all)
    ensures rc != 0 ==> all == None || |all.value| > |done| + maxlen - idxOut
    decreases bound, 1
  {
    Progresses(ctx, bound, input, idxIn, done, all);
    if Escaped(input, idxIn) {
      next := idxIn + 2;
      rc, idx := Put(input[idxIn + 1], output, idxOut, maxlen);
    } else if StartsKey(input, idxIn) {
      rc, idx, next := ExpandAtKey(ctx, bound, input, idxIn, output, idxOut, maxlen);
    } else {
      next := idxIn + 1;
      rc, idx := Put(input[idxIn], output, idxOut, maxlen);
    }
  }

  /** The key that starts at idxIn. */
  method ExpandAtKey(ctx: Context, ghost bound: nat, input: string, idxIn: nat, output: array<char>, idxOut: nat,
                     maxlen: nat)
    returns (rc: int, idx: nat, next: nat)
    requires Acyclic(ctx) && idxIn < |input| && idxOut <= maxlen <= output.Length
    requires ctx.rank(input[idxIn + 1..idxIn + 1 + KeyLength(input, idxIn + 1)]) < bound
    modifies output
    ensures idxOut <= idx <= maxlen && next == idxIn + 1 + KeyLength(input, idxIn + 1)
    ensures rc == if Fits(ExpandKey(ctx, input[idxIn + 1..next], bound), idxOut, maxlen) then 0 else 1
    ensures rc == 0 ==> output[idxOut..idx] == ExpandKey(ctx, input[idxIn + 1..next], bound).value
    ensures output[..idxOut] == old(output[..idxOut]) && output[idx..] == old(output[idx..])
    decreases bound, 0, 1
  {
    var keylen := ComputeKeyLength(input, idxIn + 1);
    next := idxIn + 1 + keylen;
    rc, idx := GetDefault(ctx, bound, input[idxIn + 1..next], output, idxOut, maxlen);
  }

  /** defaultsExpand: appends the expansion of input at idxOut, within maxlen. */
  method DefaultsExpand(ctx: Context, ghost bound: nat, input: string, output: array<char>, idxOut: nat, maxlen: nat)
    returns (rc: int, idx: nat)
    requires Acyclic(ctx) && Below(ctx, Tokens(input, 0), bound)
    requires idxOut <= maxlen <= output.Length
    modifies output
    ensures idxOut <= idx <= maxlen
    ensures rc == if Fits(ExpandTokens(ctx, Tokens(input, 0), bound), idxOut, maxlen) then 0 else 1
    ensures rc == 0 ==> output[idxOut..idx] == ExpandTokens(ctx, Tokens(input, 0), bound).value
    ensures output[..idxOut] == old(output[..idxOut]) && output[idx..] == old(output[idx..])
    decreases bound, 2
  {
    idx, rc := idxOut, 0;
    var idxIn := 0;
    ghost var all := ExpandTokens(ctx, Tokens(input, 0), bound);
    PrependTwice("", "", all);
    assert output[idxOut..idx] == "";
    while idxIn < |input|
      invariant idxOut <= idx <= maxlen
      invariant Progress(ctx, bound, input, idxIn, output[idxOut..idx], all)
      invariant output[..idxOut] == old(output[..idxOut])
      invariant output[idx..] == old(output[idx..])
      decreases |input| - idxIn
    {
      ghost var before, start := output[..], idx;
      rc, idx, idxIn := ExpandOne(ctx, bound, input, idxIn, output, idx, maxlen, output[idxOut..idx], all);
      Grown(before, output[..], idxOut, start, idx);
      if rc != 0 {
        return 1, idx;
      }
    }
    rc := 0;
  }

  /** Appending to a buffer. */
  lemma Grown(before: string, after: string, a: nat, b: nat, c: nat)
    requires a <= b <= c <= |before| == |after|
    requires before[..b] == after[..b] && before[c..] == after[c..]
    ensures after[..a] == before[..a]
    ensures before[a..b] + after[b..c] == after[a..c]
  {
    assert forall i | 0 <= i < b :: before[..b][i] == after[..b][i];
  }

  /** getDefault: appends the expansion of the definition of a key. */
  method GetDefault(ctx: Context, ghost bound: nat, key: string, output: array<char>, idxOut: nat, maxlen: nat)
    returns (rc: int, idx: nat)
    requires Acyclic(ctx) && ctx.rank(key) < bound
    requires idxOut <= maxlen <= output.Length
    modifies output
    ensures idxOut <= idx <= maxlen
    ensures rc == if Fits(ExpandKey(ctx, key, bound), idxOut, maxlen) then 0 else 1
    ensures rc == 0 ==> output[idxOut..idx] == ExpandKey(ctx, key, bound).value
    ensures output[..idxOut] == old(output[..idxOut]) && output[idx..] == old(output[idx..])
    ensures key in ctx.defaults && |ctx.defaults[key]| >= 512 ==> rc == 1
    ensures key !in ctx.defaults && key !in ctx.environ ==> rc == 0 && idx == idxOut
    decreases bound, 0, 0, 1
  {
    if key in ctx.defaults {
      if |ctx.defaults[key]| >= MAX_CYAML_FORMAT_STR {
        return 1, idxOut;
      }
      rc, idx := DefaultsExpand(ctx, ctx.rank(key), ctx.defaults[key], output, idxOut, maxlen);
    } else {
      rc, idx := ExpandEnvvar(ctx, bound, key, output, idxOut, maxlen);
    }
  }

  /** expand_envvar: appends the expansion of an environment variable. */
  method ExpandEnvvar(ctx: Context, ghost bound: nat, key: string, output: array<char>, idxOut: nat, maxlen: nat)
    returns (rc: int, idx: nat)
    requires Acyclic(ctx) && ctx.rank(key) < bound && key !in ctx.defaults
    requires idxOut <= maxlen <= output.Length
    modifies output
    ensures idxOut <= idx <= maxlen
    ensures rc == if Fits(ExpandKey(ctx, key, bound), idxOut, maxlen) then 0 else 1
    ensures rc == 0 ==> output[idxOut..idx] == ExpandKey(ctx, key, bound).value
    ensures output[..idxOut] == old(output[..idxOut]) && output[idx..] == old(output[idx..])
    ensures key !in ctx.environ || ctx.environ[key] == "" ==> rc == 0 && idx == idxOut
    decreases bound, 0, 0, 0
  {
    if key !in ctx.environ || ctx.environ[key] == "" {
      return 0, idxOut;
    }
    rc, idx := DefaultsExpand(ctx, ctx.rank(key), ctx.environ[key], output, idxOut, maxlen);
  }

  /** RedNodeStringExpand: a fresh text, None when the expansion fails or is too long. */
  method RedNodeStringExpand(ctx: Context, input: string) returns (r: Option<string>)
    requires Acyclic(ctx)
    ensures var e := Expansion(ctx, input); r == if e.Some? && |e.value| <= 512 then e else None
  {
    var output := new char[MAX_CYAML_FORMAT_STR];
    var rc, idx := DefaultsExpand(ctx, ctx.top, input, output, 0, MAX_CYAML_FORMAT_STR);
    if rc != 0 {
      return None;
    }
    r := Some(output[..idx]);
  }

  // ---- escaping ----

  /** A backslash before every dollar. */
  function Escape(s: string): (e: string)
    ensures e == "" || e[0] != '$'
  {
    if s == "" then ""
    else (if s[0] == '$' then "\\$" else [s[0]]) + Escape(s[1..])
  }

  function Literals(s: string): seq<Token> {
    seq(|s|, i requires 0 <= i < |s| => Lit(s[i]))
  }

  lemma {:induction false} EscapedTokens(before: string, s: string)
    ensures Tokens(before + Escape(s), |before|) == Literals(s)
    decreases |s|
  {
    if s == "" {
    } else {
      var e := Escape(s);
      var head := if s[0] == '$' then "\\$" else [s[0]];
      var t := before + e;
      assert t == (before + head) + Escape(s[1..]);
      EscapedTokens(before + head, s[1..]);
      assert t[|before|] == head[0];
      if s[0] == '$' {
        assert t[|before| + 1] == '$';
        assert Escaped(t, |before|);
      } else if |before| + 1 < |t| {
        assert t[|before| + 1] == Escape(s[1..])[0];
      }
      assert Literals(s) == [Lit(s[0])] + Literals(s[1..]);
    }
  }

  lemma {:induction false} ExpandLiterals(ctx: Context, s: string, bound: nat)
    requires Acyclic(ctx)
    ensures ExpandTokens(ctx, Literals(s), bound) == Some(s)
  {
    if s == "" {
    } else {
      ExpandLiterals(ctx, s[1..], bound);
      assert Literals(s)[1..] == Literals(s[1..]);
      assert [s[0]] + s[1..] == s;
    }
  }

  /** Escaping protects any text: its expansion looks nothing up and gives the text back. */
  lemma EscapeRoundTrip(ctx: Context, s: string)
    requires Acyclic(ctx)
    ensures forall t | t in Tokens(Escape(s), 0) :: t.Lit?
    ensures Expansion(ctx, Escape(s)) == Some(s)
  {
    EscapedTokens("", s);
    assert "" + Escape(s) == Escape(s);
    ExpandLiterals(ctx, s, ctx.top);
  }

  // ---- the meaning of a key ----

  /** A letter, a digit or an underscore. */
  predicate WordChar(c: char) {
    '0' <= c <= '9' || 'A' <= c <= 'Z' || 'a' <= c <= 'z' || c == '_'
  }

  lemma PlainToken(s: string, i: nat)
    requires i < |s| && s[i] != '$' && !Escaped(s, i)
    ensures Tokens(s, i) == [Lit(s[i])] + Tokens(s, i + 1)
  {
  }

  lemma LiteralsOfMore(s: string, i: nat, n: nat)
    requires i < n <= |s|
    ensures Literals(s[i..n]) == [Lit(s[i])] + Literals(s[i + 1..n])
  {
  }

  /** A text without dollar, from i to n, is literal. */
  lemma {:induction false} PlainTokens(s: string, i: nat, n: nat)
    requires i <= n <= |s| && forall j | i <= j < n :: s[j] != '$' && !Escaped(s, j)
    ensures Tokens(s, i) == Literals(s[i..n]) + Tokens(s, n)
    decreases n - i
  {
    if i == n {
      assert Literals(s[i..n]) == [];
    } else {
      PlainTokens(s, i + 1, n);
      PlainToken(s, i);
      LiteralsOfMore(s, i, n);
    }
  }

  lemma {:induction false} ExpandPlain(ctx: Context, s: string, ts: seq<Token>, bound: nat)
    requires Acyclic(ctx) && Below(ctx, ts, bound)
    ensures Below(ctx, Literals(s) + ts, bound)
    ensures ExpandTokens(ctx, Literals(s) + ts, bound) == Prepend(s, ExpandTokens(ctx, ts, bound))
  {
    if s == "" {
      assert Literals(s) + ts == ts;
      PrependTwice("", "", ExpandTokens(ctx, ts, bound));
    } else {
      ExpandPlain(ctx, s[1..], ts, bound);
      var all := Literals(s) + ts;
      assert all[0] == Lit(s[0]) && all[1..] == Literals(s[1..]) + ts;
      PrependTwice([s[0]], s[1..], ExpandTokens(ctx, ts, bound));
      assert [s[0]] + s[1..] == s;
    }
  }

  /** A key read in a text: a name followed by a character that cannot be in it, or balanced parentheses. */
  ghost predicate KeyBefore(name: string, after: string) {
    var s := name + after;
    if s != "" && s[0] == '(' then name != "" && Balances(s, 0, |name|)
    else (forall c | c in name :: WordChar(c)) && (after == "" || !WordChar(after[0]))
  }

  /** The number of parentheses open does not depend on what precedes. */
  lemma {:induction false} OpenedAfter(before: string, s: string, n: nat)
    requires n <= |s|
    ensures Opened(before + s, |before|, n) == Opened(s, 0, n)
  {
    if n == 0 {
    } else {
      OpenedAfter(before, s, n - 1);
      assert (before + s)[|before| + n - 1] == s[n - 1];
    }
  }

  /** Two longest runs of name characters. */
  lemma LongestRun(s: string, m: nat, n: nat)
    requires m <= |s| && n <= |s|
    requires (forall i | 0 <= i < m :: NameChar(s[i])) && (m < |s| ==> !NameChar(s[m]))
    requires (forall i | 0 <= i < n :: NameChar(s[i])) && (n < |s| ==> !NameChar(s[n]))
    ensures m == n
  {
  }

  lemma KeyIsRead(before: string, name: string, after: string)
    requires KeyBefore(name, after)
    ensures KeyLength(before + (name + after), |before|) == |name|
  {
    var t := name + after;
    var s := before + t;
    var r := KeyLength(s, |before|);
    KeyLengthExact(s, |before|);
    if t != "" && t[0] == '(' {
      forall n | 0 <= n <= |t| ensures Opened(s, |before|, n) == Opened(t, 0, n) {
        OpenedAfter(before, t, n);
      }
    } else {
      forall i | 0 <= i < r ensures NameChar(t[i]) {
        assert t[i] == s[|before|..|before| + r][i];
      }
      forall i | 0 <= i < |name| ensures NameChar(t[i]) {
        assert t[i] == name[i] && name[i] in name;
      }
      LongestRun(t, r, |name|);
    }
  }

  lemma RestIsPlain(s: string, i: nat, after: string)
    requires i <= |s| && s[i..] == after && '$' !in after
    ensures Tokens(s, i) == Literals(after)
  {
    forall j | i <= j < |s| ensures s[j] != '$' {
      assert s[j] == after[j - i];
    }
    PlainTokens(s, i, |s|);
    assert s[i..|s|] == after;
    assert Literals(after) + [] == Literals(after);
  }

  lemma KeyToken(s: string, b: nat)
    requires b < |s| && StartsKey(s, b)
    ensures var n := KeyLength(s, b + 1); Tokens(s, b) == [Key(s[b + 1..b + 1 + n])] + Tokens(s, b + 1 + n)
  {
  }

  lemma BeforeIsPlain(s: string, b: nat, before: string)
    requires b < |s| && StartsKey(s, b) && s[..b] == before && '$' !in before
    ensures Tokens(s, 0) == Literals(before) + Tokens(s, b)
  {
    forall j | 0 <= j < b ensures s[j] != '$' && !Escaped(s, j) {
      assert s[j] == before[j];
      if j + 1 < b {
        assert s[j + 1] == before[j + 1];
      }
    }
    PlainTokens(s, 0, b);
    assert s[0..b] == before;
  }

  lemma KeyText(before: string, name: string, after: string, s: string)
    requires s == before + "$" + name + after && (before == "" || before[|before| - 1] != '\\')
    ensures |before| < |s| && StartsKey(s, |before|) && s == (before + "$") + (name + after)
    ensures s[..|before|] == before && s[|before| + 1..][..|name|] == name && s[|before| + 1..][|name|..] == after
  {
  }

  lemma KeyThenPlain(s: string, b: nat, name: string, after: string)
    requires b < |s| && StartsKey(s, b) && KeyLength(s, b + 1) == |name|
    requires s[b + 1..][..|name|] == name && s[b + 1..][|name|..] == after && '$' !in after
    ensures Tokens(s, b) == [Key(name)] + Literals(after)
  {
    KeyToken(s, b);
    assert s[b + 1..b + 1 + |name|] == name && s[b + 1 + |name|..] == after;
    RestIsPlain(s, b + 1 + |name|, after);
  }

  /** A key between texts without dollar. */
  lemma KeyTokens(before: string, name: string, after: string, s: string)
    requires '$' !in before && '$' !in after && KeyBefore(name, after)
    requires s == before + "$" + name + after && (before == "" || before[|before| - 1] != '\\')
    ensures Tokens(s, 0) == Literals(before) + ([Key(name)] + Literals(after))
  {
    KeyText(before, name, after, s);
    assert KeyLength(s, |before| + 1) == |name| by {
      KeyIsRead(before + "$", name, after);
    }
    BeforeIsPlain(s, |before|, before);
    KeyThenPlain(s, |before|, name, after);
  }

  /** What a name stands for: the expansion of its text in the defaults, which must be shorter than 512
      characters, else of its text in the environment, else nothing. */
  lemma NameMeaning(ctx: Context, name: string, bound: nat)
    requires Acyclic(ctx) && ctx.rank(name) < bound
    ensures ExpandKey(ctx, name, bound) ==
            if name in ctx.defaults then
              if |ctx.defaults[name]| >= 512 then None else Expansion(ctx, ctx.defaults[name])
            else if name in ctx.environ then Expansion(ctx, ctx.environ[name])
            else Some("")
  {
    var found := Lookup(ctx, name);
    if found.Text? {
      RankIrrelevant(ctx, ctx, Tokens(found.value, 0), ctx.rank(name), ctx.top);
    } else if found.Absent? {
      assert Expansion(ctx, "") == Some("");
    }
  }

  /** The expansion of a text in place of a key: nothing if that one fails. */
  ghost predicate InPlace(before: string, inner: Option<string>, after: string, whole: Option<string>) {
    match inner
    case None => whole == None
    case Some(value) => whole == Some(before + value + after)
  }

  lemma ExpandOneKey(ctx: Context, name: string, after: string, ts: seq<Token>)
    requires Acyclic(ctx) && ts == [Key(name)] + Literals(after)
    ensures Below(ctx, ts, ctx.top) && ctx.rank(name) < ctx.top
    ensures var inner := ExpandKey(ctx, name, ctx.top);
            ExpandTokens(ctx, ts, ctx.top) == if inner.None? then None else Some(inner.value + after)
  {
    assert ts[1..] == Literals(after);
    ExpandLiterals(ctx, after, ctx.top);
  }

  /** What is around a key is kept. */
  lemma KeyInPlace(ctx: Context, before: string, name: string, after: string)
    requires Acyclic(ctx) && '$' !in before && '$' !in after && KeyBefore(name, after)
    requires before == "" || before[|before| - 1] != '\\'
    ensures ctx.rank(name) < ctx.top
    ensures InPlace(before, ExpandKey(ctx, name, ctx.top), after, Expansion(ctx, before + "$" + name + after))
  {
    var ts, inner := [Key(name)] + Literals(after), ExpandKey(ctx, name, ctx.top);
    KeyTokens(before, name, after, before + "$" + name + after);
    ExpandOneKey(ctx, name, after, ts);
    ExpandPlain(ctx, before, ts, ctx.top);
    if inner.Some? {
      assert before + (inner.value + after) == before + inner.value + after;
    }
  }

  /** The expansion of a text that has one key. */
  lemma KeyMeaning(ctx: Context, before: string, name: string, after: string)
    requires Acyclic(ctx) && '$' !in before && '$' !in after && KeyBefore(name, after)
    requires before == "" || before[|before| - 1] != '\\'
    ensures var whole := Expansion(ctx, before + "$" + name + after);
            if name in ctx.defaults then
              if |ctx.defaults[name]| >= 512 then whole == None
              else InPlace(before, Expansion(ctx, ctx.defaults[name]), after, whole)
            else if name in ctx.environ then InPlace(before, Expansion(ctx, ctx.environ[name]), after, whole)
            else whole == Some(before + after)
  {
    KeyInPlace(ctx, before, name, after);
    NameMeaning(ctx, name, ctx.top);
    assert before + "" + after == before + after;
  }
}
