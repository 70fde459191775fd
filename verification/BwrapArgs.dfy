/** What red-wrap gives to bwrap for the merged capabilities and sharings, and the namespaces that it
    unshares itself. */
module BwrapArgs {
  import opened Wrappers
  import opened Strings
  import opened Config
  import opened Chains
  import opened ListMix
  import opened SharingMix
  import opened MergedNode

  const MAX_BWRAP_ARGS := 512

  /** The argument list; the process exits when it is full. */
  class Arguments {
    var argval: seq<string>
    var exited: bool

    constructor (command: string)
      ensures argval == [command] && !exited
    {
      argval, exited := [command], false;
    }

    /** ADD */
    method Add(value: string)
      modifies this
      ensures exited == (old(exited) || |old(argval)| >= 512)
      ensures argval == if exited then old(argval) else old(argval) + [value]
    {
      if !exited {
        if |argval| < MAX_BWRAP_ARGS {
          argval := argval + [value];
        } else {
          exited := true;
        }
      }
    }

    /** set_one_capability */
    method SetOneCapability(capability: string, value: int)
      modifies this
      ensures exited == (old(exited) || Overflows(old(argval), Setting(capability, value)))
      ensures !exited ==> argval == old(argval) + Setting(capability, value)
    {
      Add(if value != 0 then "--cap-add" else "--cap-drop");
      Add(capability);
    }

    /** The first pass of set_capabilities, for ALL. */
    method SetAll(caps: seq<Cap>)
      modifies this
      ensures exited == (old(exited) || Overflows(old(argval), Settings(AllFirst(caps))))
      ensures !exited ==> argval == old(argval) + Settings(AllFirst(caps))
    {
      var i: nat := 0;
      while i < |caps|
        invariant i <= |caps|
        invariant argval == old(argval) && exited == old(exited)
        invariant forall k | 0 <= k < i :: !IsAll(caps[k])
      {
        if IsAll(caps[i]) {
          SetOneCapability("ALL", caps[i].add);
          SettingsGrow([], Cap("ALL", caps[i].add));
          assert [] + [Cap("ALL", caps[i].add)] == [Cap("ALL", caps[i].add)];
          break;
        }
        i := i + 1;
      }
      FirstAll(caps, i);
    }

    /** The second pass of set_capabilities, for the others. */
    method SetOthers(caps: seq<Cap>)
      modifies this
      ensures exited == (old(exited) || Overflows(old(argval), Settings(Others(caps))))
      ensures !exited ==> argval == old(argval) + Settings(Others(caps))
    {
      for j := 0 to |caps|
        invariant exited == (old(exited) || Overflows(old(argval), Settings(Others(caps[..j]))))
        invariant !exited ==> argval == old(argval) + Settings(Others(caps[..j]))
      {
        OthersStep(old(argval), caps, j);
        if !IsAll(caps[j]) {
          SetOneCapability(caps[j].cap, caps[j].add);
        }
      }
      assert caps[..|caps|] == caps;
    }

    /** set_capabilities */
    method SetCapabilities(caps: seq<Cap>)
      modifies this
      ensures exited == (old(exited) || Overflows(old(argval), Settings(CommandLine(caps))))
      ensures !exited ==> argval == old(argval) + Settings(CommandLine(caps))
      ensures !exited ==> CapabilitiesAdded(caps, old(argval), argval)
    {
      SetAll(caps);
      SetOthers(caps);
      LineOverflows(old(argval), AllFirst(caps), Others(caps));
      if !exited {
        LineConcat(old(argval), AllFirst(caps), Others(caps));
        AddedOnce(old(argval), argval, caps, Settings(CommandLine(caps)));
      }
    }

    /** do_unshare */
    method DoUnshare(setting: Option<string>, all: Sharing, unshare: string, share: Option<string>)
      modifies this
      ensures exited == (old(exited) || Overflows(old(argval), UnshareArg(setting, all, unshare, share)))
      ensures !exited ==> argval == old(argval) + UnshareArg(setting, all, unshare, share)
    {
      var kind := SharingType(setting);
      match if kind == Unset then all else kind
      case Unset => Add(unshare);
      case Disabled => Add(unshare);
      case Enabled =>
        if share.Some? {
          Add(share.value);
        }
      case Join =>
    }

    /** set_shares */
    method SetShares(shares: Share)
      modifies this
      ensures exited == (old(exited) || Overflows(old(argval), SharesGiven(shares)))
      ensures !exited ==> argval == old(argval) + SharesGiven(shares)
    {
      ShareArgsGiven(shares);
      var all := SharingType(shares.all);
      ghost var before := argval;
      if !ShouldUnshareTime(SharingType(shares.time)) {
        DoUnshare(shares.user, all, "--unshare-user", None);
      }
      assert !exited ==> argval == before + UserArgs(shares);
      DoUnshare(shares.cgroup, all, "--unshare-cgroup", None);
      DoUnshare(shares.ipc, all, "--unshare-ipc", None);
      DoUnshare(shares.pid, all, "--unshare-pid", None);
      DoUnshare(shares.net, all, "--unshare-net", Some("--share-net"));
      Concat(before, UserArgs(shares), UnshareArg(shares.cgroup, all, "--unshare-cgroup", None),
             UnshareArg(shares.ipc, all, "--unshare-ipc", None), UnshareArg(shares.pid, all, "--unshare-pid", None),
             UnshareArg(shares.net, all, "--unshare-net", Some("--share-net")));
    }
  }

  /** There is no room for those arguments. */
  predicate Overflows(before: seq<string>, added: seq<string>) {
    added != [] && |before| + |added| > MAX_BWRAP_ARGS
  }

  lemma Concat<T>(before: seq<T>, a: seq<T>, b: seq<T>, c: seq<T>, d: seq<T>, e: seq<T>)
    ensures before + a + b + c + d + e == before + (a + b + c + d + e)
  {
  }

  // ---- capabilities ----

  predicate IsAll(c: Cap) { EqNoCase(c.cap, "ALL") }

  function Setting(capability: string, value: int): seq<string> {
    [if value != 0 then "--cap-add" else "--cap-drop", capability]
  }

  function Settings(caps: seq<Cap>): seq<string> {
    if caps == [] then [] else Settings(caps[..|caps| - 1]) + Setting(caps[|caps| - 1].cap, caps[|caps| - 1].add)
  }

  lemma SettingsGrow(caps: seq<Cap>, c: Cap)
    ensures Settings(caps + [c]) == Settings(caps) + Setting(c.cap, c.add)
  {
    assert (caps + [c])[..|caps|] == caps;
  }

  lemma {:induction false} SettingsConcat(a: seq<Cap>, b: seq<Cap>)
    ensures Settings(a + b) == Settings(a) + Settings(b)
  {
    if b == [] {
      assert a + b == a;
    } else {
      assert (a + b)[..|a + b| - 1] == a + b[..|b| - 1];
      SettingsConcat(a, b[..|b| - 1]);
    }
  }

  lemma OthersStep(before: seq<string>, caps: seq<Cap>, j: nat)
    requires j < |caps|
    ensures before + Settings(Others(caps[..j + 1])) ==
            if IsAll(caps[j]) then before + Settings(Others(caps[..j]))
            else before + Settings(Others(caps[..j])) + Setting(caps[j].cap, caps[j].add)
  {
    assert caps[..j + 1][..j] == caps[..j];
    var os := Others(caps[..j]);
    if IsAll(caps[j]) {
      assert os + [] == os;
    } else {
      SettingsGrow(os, caps[j]);
      assert before + (Settings(os) + Setting(caps[j].cap, caps[j].add)) ==
               before + Settings(os) + Setting(caps[j].cap, caps[j].add);
    }
  }

  /** The first ALL, spelled in capitals. */
  function AllFirst(caps: seq<Cap>): seq<Cap> {
    if caps == [] then [] else if IsAll(caps[0]) then [Cap("ALL", caps[0].add)] else AllFirst(caps[1..])
  }

  lemma {:induction false} FirstAll(caps: seq<Cap>, i: nat)
    requires i <= |caps| && (forall k | 0 <= k < i :: !IsAll(caps[k])) && (i < |caps| ==> IsAll(caps[i]))
    ensures AllFirst(caps) == if i < |caps| then [Cap("ALL", caps[i].add)] else []
  {
    if i == 0 {
    } else {
      FirstAll(caps[1..], i - 1);
    }
  }

  function Others(caps: seq<Cap>): seq<Cap> {
    if caps == [] then []
    else Others(caps[..|caps| - 1]) + if IsAll(caps[|caps| - 1]) then [] else [caps[|caps| - 1]]
  }

  /** The capabilities in the order of the command line. */
  function CommandLine(caps: seq<Cap>): seq<Cap> {
    AllFirst(caps) + Others(caps)
  }

  function Spelled(c: Cap): Cap {
    if IsAll(c) then Cap("ALL", c.add) else c
  }

  ghost predicate DistinctCaps(caps: seq<Cap>) {
    forall i, j | 0 <= i < j < |caps| :: !EqNoCase(caps[i].cap, caps[j].cap)
  }

  lemma {:induction false} CommandLinePermutes(caps: seq<Cap>)
    requires DistinctCaps(caps)
    ensures multiset(CommandLine(caps)) == multiset(Stored(Spelled, caps))
  {
    if caps == [] {
    } else {
      var n := |caps| - 1;
      var most, last := caps[..n], caps[n];
      CommandLinePermutes(most);
      CommandLineGrows(most, last);
      assert Stored(Spelled, caps) == Stored(Spelled, most) + [Spelled(last)];
      assert caps == most + [last];
    }
  }

  lemma CommandLineGrows(most: seq<Cap>, last: Cap)
    requires DistinctCaps(most + [last])
    ensures CommandLine(most + [last]) ==
            if IsAll(last) then [Spelled(last)] + CommandLine(most) else CommandLine(most) + [Spelled(last)]
  {
    var caps := most + [last];
    assert caps[..|caps| - 1] == most;
    AllFirstGrows(most, last);
    if IsAll(last) {
      NoAll(most, last);
      assert CommandLine(most) == Others(most);
    }
  }

  lemma {:induction false} AllFirstGrows(caps: seq<Cap>, c: Cap)
    ensures AllFirst(caps + [c]) == if AllFirst(caps) != [] then AllFirst(caps) else AllFirst([c])
  {
    if caps == [] {
      assert caps + [c] == [c];
    } else {
      assert (caps + [c])[1..] == caps[1..] + [c];
      AllFirstGrows(caps[1..], c);
    }
  }

  lemma NoAll(caps: seq<Cap>, c: Cap)
    requires DistinctCaps(caps + [c]) && IsAll(c)
    ensures AllFirst(caps) == []
  {
    forall k | 0 <= k < |caps|
      ensures !IsAll(caps[k])
    {
      assert (caps + [c])[k] == caps[k] && (caps + [c])[|caps|] == c;
    }
    FirstAll(caps, |caps|);
  }

  /** Each merged capability is on the command line exactly once, with its merged value, and ALL is the
      first when it is merged. */
  lemma EachCapabilityOnce(chain: seq<Node>)
    ensures var caps := Stored(CapOf, Merged(CapPolicy(), Visits(CapPolicy(), chain)));
            var line := CommandLine(caps);
            && multiset(line) == multiset(Stored(Spelled, caps))
            && (forall i, j | 0 <= i < j < |line| :: !EqNoCase(line[i].cap, line[j].cap))
            && (forall i | 0 <= i < |line| && IsAll(line[i]) :: i == 0)
  {
    var caps := Stored(CapOf, Merged(CapPolicy(), Visits(CapPolicy(), chain)));
    CapsDistinct(chain);
    assert DistinctCaps(caps) by {
      assert forall c: Cap :: CapPolicy().name(0, c) == c.cap;
    }
    CommandLinePermutes(caps);
    LineDistinct(caps);
  }

  lemma {:induction false} OthersFacts(caps: seq<Cap>)
    ensures forall c | c in Others(caps) :: !IsAll(c) && c in caps
    ensures DistinctCaps(caps) ==> DistinctCaps(Others(caps))
  {
    if caps == [] {
    } else {
      var n := |caps| - 1;
      OthersFacts(caps[..n]);
      var os := Others(caps[..n]);
      if DistinctCaps(caps) {
        forall i | 0 <= i < |os|
          ensures !EqNoCase(os[i].cap, caps[n].cap)
        {
          assert os[i] in caps[..n];
        }
      }
    }
  }

  lemma {:induction false} AllFirstFacts(caps: seq<Cap>)
    ensures |AllFirst(caps)| <= 1
    ensures AllFirst(caps) != [] ==> AllFirst(caps)[0].cap == "ALL"
  {
    if caps == [] {
    } else {
      AllFirstFacts(caps[1..]);
    }
  }

  lemma LineDistinct(caps: seq<Cap>)
    requires DistinctCaps(caps)
    ensures DistinctCaps(CommandLine(caps))
    ensures forall i | 0 <= i < |CommandLine(caps)| && IsAll(CommandLine(caps)[i]) :: i == 0
  {
    OthersFacts(caps);
    AllFirstFacts(caps);
    var a, o, line := AllFirst(caps), Others(caps), CommandLine(caps);
    forall i | |a| <= i < |line|
      ensures !IsAll(line[i])
    {
      assert line[i] == o[i - |a|] && o[i - |a|] in o;
    }
    forall i, j | 0 <= i < j < |line|
      ensures !EqNoCase(line[i].cap, line[j].cap)
    {
      assert line[j] == o[j - |a|];
      if i < |a| {
        assert line[i].cap == "ALL" && !IsAll(line[j]);
      } else {
        assert line[i] == o[i - |a|];
      }
    }
  }

  /** The pair k of the arguments: an option at an even position, then a name. */
  predicate IsPair(args: seq<string>, k: nat, option: string, name: string) {
    2 * k + 1 < |args| && args[2 * k] == option && args[2 * k + 1] == name
  }

  /** The capability has one pair, k: it tells whether the capability is added or dropped. */
  ghost predicate GivenAt(c: Cap, args: seq<string>, k: nat) {
    && IsPair(args, k, if c.add == 0 then "--cap-drop" else "--cap-add",
              if EqNoCase(c.cap, "ALL") then "ALL" else c.cap)
    && forall j: nat, option, name | IsPair(args, j, option, name) && EqNoCase(name, c.cap) :: j == k
  }

  ghost predicate IsGiven(c: Cap, args: seq<string>) {
    exists k: nat :: GivenAt(c, args, k)
  }

  /** Two arguments are given for each capability, and those of ALL can only be the first. */
  ghost predicate GivenOnce(caps: seq<Cap>, args: seq<string>) {
    && |args| == 2 * |caps|
    && (forall i | 0 <= i < |caps| :: IsGiven(caps[i], args))
    && (forall k: nat, option, name | IsPair(args, k, option, name) && EqNoCase(name, "ALL") :: k == 0)
  }

  lemma {:induction false} SettingsAt(caps: seq<Cap>, k: nat)
    requires k < |caps|
    ensures |Settings(caps)| == 2 * |caps|
    ensures IsPair(Settings(caps), k, if caps[k].add == 0 then "--cap-drop" else "--cap-add", caps[k].cap)
  {
    var n := |caps| - 1;
    if n == 0 {
      assert Settings(caps[..0]) == [];
    } else {
      SettingsAt(caps[..n], if k < n then k else 0);
    }
  }

  lemma SpelledName(c: Cap)
    ensures EqNoCase(Spelled(c).cap, c.cap)
    ensures Spelled(c).add == c.add && Spelled(c).cap == if EqNoCase(c.cap, "ALL") then "ALL" else c.cap
  {
  }

  /** The arguments of a list. */
  ghost predicate ArgumentsOf(line: seq<Cap>, args: seq<string>) {
    && |args| == 2 * |line|
    && forall j: nat | j < |line| ::
      IsPair(args, j, if line[j].add == 0 then "--cap-drop" else "--cap-add", line[j].cap)
  }

  lemma SettingsAre(line: seq<Cap>)
    ensures ArgumentsOf(line, Settings(line))
  {
    forall j: nat | j < |line|
      ensures |Settings(line)| == 2 * |line|
      ensures IsPair(Settings(line), j, if line[j].add == 0 then "--cap-drop" else "--cap-add", line[j].cap)
    {
      SettingsAt(line, j);
    }
  }

  /** The place of a capability on the command line. */
  lemma CapabilityGiven(c: Cap, line: seq<Cap>, args: seq<string>) returns (k: nat)
    requires Spelled(c) in line && DistinctCaps(line) && ArgumentsOf(line, args)
    ensures GivenAt(c, args, k)
  {
    SpelledName(c);
    k :| k < |line| && line[k] == Spelled(c);
    forall j: nat, option, name | IsPair(args, j, option, name) && EqNoCase(name, c.cap) ensures j == k {
      assert name == line[j].cap;
    }
  }

  lemma AllGivenFirst(line: seq<Cap>, args: seq<string>, k: nat, option: string, name: string)
    requires ArgumentsOf(line, args) && forall i | 0 <= i < |line| && IsAll(line[i]) :: i == 0
    requires IsPair(args, k, option, name) && EqNoCase(name, "ALL")
    ensures k == 0
  {
    assert name == line[k].cap;
    assert IsAll(line[k]);
  }

  /** A capability that is merged is in the order of the command line. */
  lemma IsOnLine(caps: seq<Cap>, i: nat)
    requires DistinctCaps(caps) && i < |caps|
    ensures Spelled(caps[i]) in CommandLine(caps)
  {
    CommandLinePermutes(caps);
    assert Stored(Spelled, caps)[i] == Spelled(caps[i]);
    assert Spelled(caps[i]) in multiset(CommandLine(caps));
  }

  lemma LineLength(caps: seq<Cap>)
    requires DistinctCaps(caps)
    ensures |CommandLine(caps)| == |caps|
  {
    CommandLinePermutes(caps);
    assert |CommandLine(caps)| == |multiset(CommandLine(caps))| == |multiset(Stored(Spelled, caps))| == |caps|;
  }

  lemma CapabilitiesGiven(caps: seq<Cap>, line: seq<Cap>, args: seq<string>)
    requires |line| == |caps| && ArgumentsOf(line, args) && DistinctCaps(line)
    requires forall i | 0 <= i < |caps| :: Spelled(caps[i]) in line
    requires forall i | 0 <= i < |line| && IsAll(line[i]) :: i == 0
    ensures GivenOnce(caps, args)
  {
    forall i | 0 <= i < |caps| ensures IsGiven(caps[i], args) {
      var k := CapabilityGiven(caps[i], line, args);
    }
    forall k: nat, option, name | IsPair(args, k, option, name) && EqNoCase(name, "ALL") ensures k == 0 {
      AllGivenFirst(line, args, k, option, name);
    }
  }

  /** What is added to the arguments for capabilities of distinct names. */
  ghost predicate CapabilitiesAdded(caps: seq<Cap>, before: seq<string>, after: seq<string>) {
    before <= after && (DistinctCaps(caps) ==> GivenOnce(caps, after[|before|..]))
  }

  lemma AddedOnce(before: seq<string>, after: seq<string>, caps: seq<Cap>, args: seq<string>)
    requires args == Settings(CommandLine(caps)) && after == before + args
    ensures CapabilitiesAdded(caps, before, after)
  {
    if DistinctCaps(caps) {
      var line := CommandLine(caps);
      SettingsAre(line);
      LineLength(caps);
      LineDistinct(caps);
      forall i | 0 <= i < |caps| ensures Spelled(caps[i]) in line {
        IsOnLine(caps, i);
      }
      CapabilitiesGiven(caps, line, args);
      assert after[|before|..] == args;
    }
  }

  /** Arguments overflow when their first part does, or the second one after it. */
  lemma LineOverflows(before: seq<string>, first: seq<Cap>, others: seq<Cap>)
    ensures Overflows(before, Settings(first + others)) <==>
              Overflows(before, Settings(first)) || Overflows(before + Settings(first), Settings(others))
  {
    SettingsConcat(first, others);
  }

  lemma LineConcat(before: seq<string>, first: seq<Cap>, others: seq<Cap>)
    ensures before + Settings(first) + Settings(others) == before + Settings(first + others)
  {
    SettingsConcat(first, others);
    assert before + (Settings(first) + Settings(others)) == before + Settings(first) + Settings(others);
  }

  // ---- sharings ----

  predicate ShouldUnshare(target: Sharing, all: Sharing) {
    target == Disabled || (target == Unset && all != Enabled)
  }

  predicate ShouldUnshareTime(time: Sharing) {
    time == Disabled || time == Join
  }

  function UnshareArg(setting: Option<string>, all: Sharing, unshare: string, share: Option<string>): seq<string> {
    match if SharingType(setting) == Unset then all else SharingType(setting)
    case Unset => [unshare]
    case Disabled => [unshare]
    case Enabled => (match share case None => [] case Some(s) => [s])
    case Join => []
  }

  function UserArgs(shares: Share): seq<string> {
    if ShouldUnshareTime(SharingType(shares.time)) then []
    else UnshareArg(shares.user, SharingType(shares.all), "--unshare-user", None)
  }

  function ShareArgs(shares: Share): seq<string> {
    var all := SharingType(shares.all);
    UserArgs(shares)
    + UnshareArg(shares.cgroup, all, "--unshare-cgroup", None)
    + UnshareArg(shares.ipc, all, "--unshare-ipc", None)
    + UnshareArg(shares.pid, all, "--unshare-pid", None)
    + UnshareArg(shares.net, all, "--unshare-net", Some("--share-net"))
  }

  /** CLONE_NEWUSER is among the flags of the clone of red-wrap. */
  predicate ClonesUser(shares: Share) {
    ShouldUnshareTime(SharingType(shares.time)) && ShouldUnshare(SharingType(shares.user), SharingType(shares.all))
  }

  /** The two tests for unsharing the user namespace agree but for a user sharing that is unset with
      an `all` that joins a namespace. */
  lemma TestsAgree(user: Option<string>, all: Option<string>)
    ensures var byClone := ShouldUnshare(SharingType(user), SharingType(all));
            var byBwrap := UnshareArg(user, SharingType(all), "--unshare-user", None) == ["--unshare-user"];
            (byClone <==> byBwrap) <==> !(SharingType(user) == Unset && SharingType(all) == Join)
  {
  }

  predicate Is(setting: Option<string>, word: string) {
    setting.Some? && EqNoCase(setting.value, word)
  }

  predicate IsUnset(setting: Option<string>) {
    setting.None? || EqNoCase(setting.value, "unset")
  }

  /** A namespace is unshared when it is disabled, or is unset and `all` is unset or disabled. */
  predicate Unshares(setting: Option<string>, all: Option<string>) {
    Is(setting, "disabled") || (IsUnset(setting) && (IsUnset(all) || Is(all, "disabled")))
  }

  /** The namespace of time is disabled or joined. */
  predicate LeavesTime(time: Option<string>) {
    !IsUnset(time) && !Is(time, "enabled")
  }

  function Flag(given: bool, arg: string): seq<string> {
    if given then [arg] else []
  }

  /** The arguments for namespaces, from the texts of their sharings. */
  function SharesGiven(shares: Share): seq<string> {
    Flag(!LeavesTime(shares.time) && Unshares(shares.user, shares.all), "--unshare-user")
    + Flag(Unshares(shares.cgroup, shares.all), "--unshare-cgroup")
    + Flag(Unshares(shares.ipc, shares.all), "--unshare-ipc")
    + Flag(Unshares(shares.pid, shares.all), "--unshare-pid")
    + (Flag(Unshares(shares.net, shares.all), "--unshare-net")
       + Flag(Is(shares.net, "enabled") || (IsUnset(shares.net) && Is(shares.all, "enabled")), "--share-net"))
  }

  lemma KindOfSetting(setting: Option<string>)
    ensures SharingType(setting) == Disabled <==> Is(setting, "disabled")
    ensures SharingType(setting) == Enabled <==> Is(setting, "enabled")
    ensures SharingType(setting) == Unset <==> IsUnset(setting)
  {
    if setting.Some? {
      KindOf(setting.value);
    }
  }

  lemma UnshareGiven(setting: Option<string>, all: Option<string>, unshare: string, share: Option<string>)
    ensures UnshareArg(setting, SharingType(all), unshare, share) ==
            Flag(Unshares(setting, all), unshare)
            + if share.None? then []
              else Flag(Is(setting, "enabled") || (IsUnset(setting) && Is(all, "enabled")), share.value)
  {
    KindOfSetting(setting);
    KindOfSetting(all);
  }

  lemma ShareArgsGiven(shares: Share)
    ensures ShareArgs(shares) == SharesGiven(shares)
  {
    KindOfSetting(shares.time);
    UnshareGiven(shares.user, shares.all, "--unshare-user", None);
    UnshareGiven(shares.cgroup, shares.all, "--unshare-cgroup", None);
    UnshareGiven(shares.ipc, shares.all, "--unshare-ipc", None);
    UnshareGiven(shares.pid, shares.all, "--unshare-pid", None);
    UnshareGiven(shares.net, shares.all, "--unshare-net", Some("--share-net"));
  }

  lemma NotUser(given: bool, arg: string)
    requires |arg| != 14
    ensures "--unshare-user" !in Flag(given, arg)
  {
    assert |"--unshare-user"| == 14;
  }

  lemma OnlyUser(shares: Share)
    ensures "--unshare-user" in SharesGiven(shares) <==> !LeavesTime(shares.time) && Unshares(shares.user, shares.all)
  {
    NotUser(Unshares(shares.cgroup, shares.all), "--unshare-cgroup");
    NotUser(Unshares(shares.ipc, shares.all), "--unshare-ipc");
    NotUser(Unshares(shares.pid, shares.all), "--unshare-pid");
    NotUser(Unshares(shares.net, shares.all), "--unshare-net");
    NotUser(Is(shares.net, "enabled") || (IsUnset(shares.net) && Is(shares.all, "enabled")), "--share-net");
  }

  /** For merged sharings, the user namespace is unshared by exactly one of the two mechanisms when its
      text is "disabled" or there is none, and by none otherwise. */
  lemma UserUnsharedOnce(chain: seq<Node>)
    ensures var shares := MergedShare(chain);
            var byClone, byBwrap := ClonesUser(shares), "--unshare-user" in ShareArgs(shares);
            && (shares.user.None? || EqNoCase(shares.user.value, "disabled") <==> byClone || byBwrap)
            && !(byClone && byBwrap)
            && (byClone ==> LeavesTime(shares.time)) && (byBwrap ==> !LeavesTime(shares.time))
  {
    var shares := MergedShare(chain);
    UnsetOnlyIfAllUnset(chain, User);
    UnsetOnlyIfAllUnset(chain, All);
    KindOfSetting(shares.user);
    KindOfSetting(shares.all);
    KindOfSetting(shares.time);
    ShareArgsGiven(shares);
    OnlyUser(shares);
  }
}
