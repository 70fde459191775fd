# Verification of redpak

This project models in Dafny how redpak computes the configuration of a rednode and applies it: the merge
of the configurations of a node and of its ancestors, the expansion of texts, the bwrap arguments, the
cgroups, the directories and the discovery of the nodes. It proves what the source promises about them, for
every chain of nodes, every text, every tree of directories or cgroups, and every run.

`dafny verify dfyconfig.toml` checks it (Dafny 4.11).

## How it is organised

**Merging** (`red-conf/redconf-mix.c`, `red-conf/redconf-merge.c`). `Config` has the configurations; a chain
goes from the leaf to the root. `Chains` flattens it into the definitions met, in the order of the walk, and
defines the rule of every merge: the first admin definition of a name, else the first normal one. `MergeStep`
proves that the back-merging step of the three recursive mergers keeps that rule, with the exact condition under
which they refuse. `Merger` is the mergers themselves, with their list of items on the stack, for a policy that
says what variables, capabilities and exports do differently (`ListMix`, `ExportOrder`). `SharingMix` and
`ScalarMix` treat the accumulators of sharings and the two passes of scalars, and tie them to the same rule.
`Refusals` says which definitions of a chain are refused, in terms of its configurations, and `Layers` says what a
merge settles and refuses on the places of the definitions, for the contracts of the mixers.
`MergedNode` is the node built from the deliveries, and what merging it again gives.

**Texts** (`red-conf/redconf-expand.c`). `Expand` has the expander with its bounded buffer, and the full
expansion that it refines. `PathLists` says what a list of paths means, `PathAppend` merges a list into the
buffer with its reading, writing and searching cursors, `PathMix` does it over a chain.

**Cgroups** (`red-wrap/cgroups.c`). `CgroupTree` has the hierarchy and the rules of the sections "Top-down
Constraint" and "No Internal Process Constraint" of the Linux kernel document "Control Group v2".
`ControllerText` has the texts of controllers, which the kernel shows and reads, and `CgroupControllers` enables
controllers along a branch.
`ProcsText` says which texts the reading of `cgroup.procs` by pieces writes, and `MoveProcs` what it moves. `Cgroups`
prepares the cgroups of a chain, `CgroupRoot` finds where to start, and `SetCgroups` is the whole run, with what a
second start finds. The kernel can refuse any call: a failure for which the
hierarchy gives no cause is traced to a refusal during the call.

**Paths and directories** (`red-wrap/redwrap-exec.c`, `red-conf/redconf-utils.c`, `red-conf/rednode-factory.c`,
`red-conf/redconf-node.c`). `FileTree` has the directories, `Directories` and `MakeDirs` the two ways in which the
source creates the missing ones, `Factory` the path buffer of a factory, `NodeScan` the discovery of the chain.

`BwrapArgs` has the arguments of bwrap for capabilities and sharings.

## What the proofs found

- **Order of exports.** An admin definition that replaces a normal one changes the export and its node, but
  the item keeps the mount point recorded first (`red-conf/redconf-mix.c:656-662`, sorted at 534-539). Names are
  compared without case, so a mount point that is a prefix of another can be mounted after it: `PrefixLast` is a
  chain where `/A` comes after `/A/b`. `PrefixFirstExactly` says when: if and only if the mount points first met
  for two nested ones are, at the first place where they differ, in lower case for the outer one and in upper case
  for the inner one. It cannot happen when no back-patch changes a spelling (`PrefixFirst`).
- **Lists of processes.** `moveProcs` reads `cgroup.procs` by 200 characters and carries the beginning of a cut line,
  but the next read goes to the start of the buffer (`red-wrap/cgroups.c:415`). Whatever the buffer held at first,
  what it writes is the list, in order, if and only if no read ends inside a number (`WritesExactly`), which is so
  when one read returns the whole list (`FitsIsWhole`, `ShortIsWhole`). With 34 processes of five digits, it moves
  process 345 instead of 12345 (`MovesAnother`, `AnotherMoved`). No process is lost in any case (`NoProcessLost`), and
  only those of the root move when no number is cut (`OnlyRootMoves`).
- **Final zero of a list of paths.** A list that fills its 1024 characters is accepted, and its final zero
  (`red-conf/redconf-expand.c:505`) falls after the buffer. `MixPaths` says exactly when; `FullPathOverruns` is the case
  of one path of 1024 characters without dollar or colon.
- **User namespace.** The tests of `do_unshare` and of `should_unshare` disagree if and only if the user sharing is
  unset and `all` joins a namespace (`TestsAgree`). Merged sharings never are in that case, since an unset field
  follows `all`: the user namespace is unshared once or not at all, and as asked (`UserUnsharedOnce`).
- **Second start.** The leaf entered by red-wrap leads back to the same root if and only if that root had a leaf
  before, or is the root of the hierarchy, or has a parent without leaf (`SetCgroups`). `OtherRoot` is a hierarchy
  where it does not.
- **Error of directories.** Every error of the factory is negative, but for one: when the directories of a node
  cannot be created, `create_directories` returns a positive number (`red-conf/rednode-factory.c:127`). If no call is
  refused, it does so if and only if the root exists, and the root or the longest existing part of the path is not
  a directory (`CreateDirectories`); `PositiveError` is a root where the node to create is a file.
- **Failed expansions.** A text of the scalars that cannot be expanded also hides the texts that follow it in its
  configuration (`red-conf/redconf-mix.c:908-917`), and the error is lost since it becomes positive: the merged texts are
  those settled, expanded, if and only if every settled text can be expanded (`BasicTexts`). `FailureHidesTexts` is a
  chain whose merged hostname is the one of the parent.
- **Relative paths.** `make_directories` refuses a relative path that comes without base, since an offset 0
  then is not at a slash: no input reaches its search of the first name (`red-conf/redconf-utils.c:209-210`).
- **Refusals.** A capability or a sharing is refused when the walk meets a definition that the winner so far
  contradicts (`RefusedExactly`), even if a farther admin configuration would have settled it: `LateAdminRefused` is a
  chain where the value that the leaf asks for is refused, though it is the one that the admin of the root sets.
  On the other hand, two different definitions in one configuration are accepted when a nearer one of the same level,
  or an admin one, has already settled the name.

## Model

| member | source | states |
|---|---|---|
| `Chains.VisitsExact` | red-conf/redconf-mix.c:131-168 | the walk meets exactly the definitions of the chain that are not skipped |
| `Chains.VisitsFromInOrder` | red-conf/redconf-mix.c:131-168 | a child is met before its parents, and in a node admin definitions before normal ones |
| `Chains.DiscoveredDistinct` | red-conf/redconf-mix.c:171-186 | names are recorded once whatever their case, the latest discovered first |
| `Chains.WinnerGrows` | red-conf/redconf-mix.c:222-228 | a new definition takes over a name only when the name is new, or when it is admin and the winner is normal |
| `MergeStep.StepKeepsMerge` | red-conf/redconf-mix.c:171-240 | back-merging one more definition gives the merge of what has been met, and refuses exactly on a clash |
| `MergeStep.MergedExactly` | red-conf/redconf-mix.c:74-91 | each merged name has its first admin definition, else its first normal one; every name is there, once, in reverse order of discovery |
| `MergeStep.RussianDolls` | red-conf/redconf-mix.c:394-459 | whatever a policy refuses to raise again stays low in the winner, for a low admin definition, or a low normal one without admin |
| `Merger.RestMoves` | red-conf/redconf-mix.c:136-170 | the moves of the walk through definitions, levels and nodes lose and repeat nothing |
| `Merger.Next` | red-conf/redconf-mix.c:136-170 | finds the next definition to merge, or the end of the chain |
| `Merger.Merger.Lookup` | red-conf/redconf-mix.c:171-174 | finds the item of a name without regard to case |
| `Merger.Merger.Backmerge` | red-conf/redconf-mix.c:187-240 | updates in place the item of a name already met as the step of the merge says, or refuses |
| `Merger.Merger.Add` | red-conf/redconf-mix.c:175-184 | the item of a new name becomes the head of the list and is counted |
| `Merger.Merger.Send` | red-conf/redconf-mix.c:153-161 | delivers the list in order until the callback refuses |
| `Merger.Merger.Collect` | red-conf/redconf-mix.c:549-552 | delivers exports sorted by mount point |
| `Merger.Merger.Call` | red-conf/redconf-mix.c:554-558 | indexes go from 0, the count is constant, and a refusal of the callback ends the deliveries |
| `Merger.Merger.Walk` | red-conf/redconf-mix.c:561-676 | the loop goes on through back-merges, which add no item, and ends with the walk, a refusal exactly on a clash, or a new name |
| `Merger.Merger.Merge` | red-conf/redconf-mix.c:561-676 | from any reachable state of the recursion: delivers the whole merge, or refuses before any delivery, exactly on a clash |
| `ListMix.Mix` | red-conf/redconf-mix.c:244-253 | for every chain and policy, the merger delivers the merge of the chain or refuses it |
| `ListMix.MixVariables` | red-conf/redconf-mix.c:244-253 | one delivery for each variable, with the first definition of the nearest admin configuration that has it, else of the nearest normal one; refused if and only if a definition of a configuration, not hidden by an admin one at least as near, is not the first of its configuration while that first one is the nearest of its level, and has another mode or, both having one, another value |
| `ListMix.MixCapabilities` | red-conf/redconf-mix.c:335-473 | one delivery for each capability, settled as variables are; refused if and only if a definition of a configuration, not hidden by an admin one at least as near, meets the nearest definition of its level either in the same configuration with another value, or in a nearer one that adds what it drops |
| `ListMix.CapabilitiesExactly` | red-conf/redconf-mix.c:394-459 | the policy of capabilities refuses exactly that, and its merge settles each name so |
| `Layers.RefusedPlaces` | red-conf/redconf-mix.c:187-240 | for every policy, a chain is refused if and only if a definition meets one that the policy opposes to it: the nearest of its name and level, nothing at least as near hiding it |
| `Layers.MergedSettles` | red-conf/redconf-mix.c:74-91 | every name of the chain is merged once, with the first definition of the nearest admin configuration that has it, else of the nearest normal one |
| `Refusals.RefusedExactly` | red-conf/redconf-mix.c:187-240 | a chain is refused if and only if a definition that no admin configuration at least as near hides is incompatible with the first definition of the nearest configuration of its level that has the name: in the same configuration by one rule of the policy, in a nearer one by the other |
| `Refusals.NearestIsFirst` | red-conf/redconf-mix.c:131-186 | the first definition met of a name at a level is the first one of the nearest configuration of that level that defines it |
| `ListMix.MixExports` | red-conf/redconf-mix.c:678-687 | one delivery for each expanded mount point, sorted and settled as variables are, among the exports of the leaf and those of its ancestors whose mode has neither the private bit (0) nor the private-file one (4); refused if and only if one such definition meets in its configuration one with another mode or, both having one, another path |
| `ListMix.DroppedStaysDropped` | red-conf/redconf-mix.c:394-459 | after a merge, a capability dropped by an admin configuration, or dropped by a normal one and set by no admin, is dropped |
| `ListMix.AdminSettles` | red-conf/redconf-mix.c:394-459 | a capability set by an admin configuration has the value of an admin configuration at least as near |
| `ListMix.LateAdminRefused` | red-conf/redconf-mix.c:394-459 | a capability added by the leaf and dropped by its parent is refused though the admin of a farther node adds it |
| `ListMix.NoInheritedPrivate` | red-wrap/redwrap-exec.c:301-303 | no export delivered is a private one of an ancestor: the second filter drops nothing |
| `ListMix.PrivatesNeverShadow` | red-conf/redconf-mix.c:574-578 | removing beforehand the private exports of the ancestors changes nothing to the merge |
| `Sorting.SortFacts` | red-conf/redconf-mix.c:549-552 | sorting keeps each item and gives increasing mount points |
| `Strings.StrLessExact` | red-conf/redconf-mix.c:534-539 | texts are ordered by their first difference, a proper beginning first |
| `Strings.EqNoCaseExact` | red-conf/redconf-mix.c:171-174 | two names are the same when they differ only by the case of letters |
| `ExportOrder.ExportsSorted` | red-conf/redconf-mix.c:534-559 | deliveries are strictly increasing by recorded mount point, a proper prefix first |
| `ExportOrder.SortedUnderOwnName` | red-conf/redconf-mix.c:648-662 | every delivered export is sorted under its own mount point if and only if each admin definition that replaces a normal one keeps its spelling |
| `ExportOrder.OrderByCase` | red-conf/redconf-mix.c:534-539 | two texts that are nested but for their case are sorted outer first, unless they first differ by a lower case in the outer one and an upper case in the inner one |
| `ExportOrder.PrefixFirstExactly` | red-conf/redconf-mix.c:534-559 | every mount point is delivered before those that it is a proper prefix of, if and only if no two nested ones were first met with spellings in that inverse order |
| `ExportOrder.PrefixFirst` | red-conf/redconf-mix.c:534-559 | so it is when each admin definition that replaces a normal one keeps its spelling, and deliveries are then strictly increasing by their own mount points |
| `ExportOrder.PrefixLast` | red-conf/redconf-mix.c:656-662 | a chain without clash whose merge mounts /A after /A/b |
| `SharingMix.DecideIsStep` | red-conf/redconf-mix.c:773-808 | the cases of mix_share are the step of the merge, refusals included |
| `SharingMix.MixShare` | red-conf/redconf-mix.c:773-808 | the accumulator of a field follows the merge of its values, or the value is refused |
| `SharingMix.Sharings.MixSharings` | red-conf/redconf-mix.c:810-819 | the same for all the fields of a configuration, until one is refused |
| `SharingMix.MixShares` | red-conf/redconf-mix.c:821-839 | each field has the text of the nearest admin configuration that gives one other than "unset", else of the nearest normal one, else it follows `all`, but for time; refused if and only if a configuration gives "disabled", not hidden by an admin text at least as near, while the nearest text of its level is not "disabled" |
| `SharingMix.DisabledStaysDisabled` | red-conf/redconf-mix.c:773-808 | after a merge, the text of a field is "disabled", whatever its case, if an admin configuration gives "disabled", or if a normal one does and no admin one gives a text other than "unset" |
| `SharingMix.UnsetOnlyIfAllUnset` | red-conf/redconf-mix.c:760-771 | a merged field, but for time, is unset only if `all` is |
| `ScalarMix.TwoPassIsOnePass` | red-conf/redconf-mix.c:1009-1025 | two passes, admin then normal, select the same definition of the same node as one walk where admin overrides |
| `ScalarMix.MixEarlyConf` | red-conf/redconf-mix.c:1002-1025 | user, group and smack label are each that of the nearest admin configuration that sets it, else of the nearest normal one |
| `ScalarMix.MixBasicTags` | red-conf/redconf-mix.c:899-918 | for any chain and whatever expansions fail: flags and numbers are settled field by field; texts are too, each expanded, if and only if every settled text can be expanded; and each text is in any case the expansion of one of the same field |
| `ScalarMix.BasicNumbers` | red-conf/redconf-mix.c:876-897 | each flag and number is that of the nearest admin configuration that sets it, else of the nearest normal one, whatever happens to texts |
| `ScalarMix.BasicTexts` | red-conf/redconf-mix.c:866-918 | the ten texts are the expansions of those settled in the same fields if and only if all these can be expanded |
| `ScalarMix.FailureHidesTexts` | red-conf/redconf-mix.c:866-918 | when the rpmdir of the leaf cannot be expanded, its hostname is not taken, and the one of its parent is |
| `ScalarMix.EarlyAgreesWithTags` | red-conf/redconf-mix.c:949-1025 | when all the settled texts can be expanded, the merged user, group and label are the expansions of those found early |
| `MergedNode.StoreAll` | red-conf/redconf-merge.c:122-142 | the callbacks fill an array with the deliveries in their order |
| `MergedNode.MixConfTags` | red-conf/redconf-mix.c:941-977 | scalars, sharings and capabilities of the merged node, or a refusal exactly when one of the merges refuses |
| `MergedNode.GetMergedNode` | red-conf/redconf-merge.c:308-373 | the merged node exists if and only if sharings, capabilities, variables and exports agree and both lists of paths fit; each part of it comes from that part of the configurations: scalars, sharings, capabilities, variables, exports, `path` and `ldpath` |
| `MergedNode.MergeIsMerged` | red-conf/redconf-merge.c:308-373 | so is the merge of a chain, part by part |
| `MergedNode.MergeAlone` | red-conf/redconf-mix.c:131-186 | a configuration without repeated names merges into itself in reverse order |
| `MergedNode.CapabilitiesMergeAgain` | red-conf/redconf-merge.c:41-85 | merging the merged node never refuses, and gives the same capabilities in reverse order |
| `MergedNode.VariablesMergeAgain` | red-conf/redconf-merge.c:122-142 | the same for variables |
| `MergedNode.ExportsMergeAgain` | red-conf/redconf-merge.c:145-175 | merging the exports of the merged node again is refused exactly when two of its mount points expand alike in the context of that node and the later one differs from the first |
| `MergedNode.SharingsMergeAgain` | red-conf/redconf-merge.c:41-85 | merging the merged node gives identical sharings |
| `BwrapArgs.Arguments.SetCapabilities` | red-wrap/redwrap-exec.c:456-483 | for capabilities of distinct names, adds two arguments for each: it has exactly one pair, `--cap-add` or, when its value is 0, `--cap-drop`, then its name; the pair of ALL can only be the first; the program exits exactly when there is no room |
| `BwrapArgs.AddedOnce` | red-wrap/redwrap-exec.c:456-483 | the arguments made by the two passes are those |
| `BwrapArgs.CommandLinePermutes` | red-wrap/redwrap-exec.c:464-483 | none is lost or repeated by the two passes |
| `BwrapArgs.EachCapabilityOnce` | red-wrap/redwrap-exec.c:464-483 | for every chain, each merged capability is on the command line once, and ALL can only be the first |
| `BwrapArgs.Arguments.DoUnshare` | red-wrap/redwrap-exec.c:486-508 | the argument of a namespace, which follows `all` when it is unset |
| `BwrapArgs.Arguments.SetShares` | red-wrap/redwrap-exec.c:524-538 | from the texts of sharings: the `--unshare-` option of each namespace that is "disabled", or unset with an `all` unset or "disabled", the user one being left to clone when time is disabled or joined; `--share-net` when the network is "enabled", or unset with an `all` "enabled" |
| `BwrapArgs.ShareArgsGiven` | red-wrap/redwrap-exec.c:486-538 | the cases of do_unshare give those arguments |
| `BwrapArgs.TestsAgree` | red-wrap/redwrap-exec.c:486-521 | the two tests for unsharing agree except exactly for an unset user and an `all` that joins |
| `BwrapArgs.UserUnsharedOnce` | red-wrap/redwrap-exec.c:876-882 | for every chain, the user namespace is unshared by exactly one of clone and `--unshare-user` when its merged text is "disabled" or there is none, by none otherwise; by clone only when time is disabled or joined |
| `Expand.ComputeKeyLength` | red-conf/redconf-expand.c:294-320 | the loop computes the length of the key |
| `Expand.KeyLengthExact` | red-conf/redconf-expand.c:294-320 | after a parenthesis the key is the shortest balanced prefix, 0 when there is none, else the longest run of name characters |
| `Expand.DefaultsExpand` | red-conf/redconf-expand.c:345-403 | succeeds exactly when every definition reached is usable and the full expansion fits, appends exactly it, and changes nothing before nor after |
| `Expand.GetDefault` | red-conf/redconf-expand.c:267-285 | the same for one key; a default of 512 characters or more fails, and a name defined nowhere adds nothing |
| `Expand.ExpandEnvvar` | red-conf/redconf-expand.c:229-239 | the same for a variable of the environment; an absent or empty one adds nothing |
| `Expand.NameMeaning` | red-conf/redconf-expand.c:229-285 | a name stands for the expansion of its default if it has one shorter than 512 characters, fails if its default is longer, else stands for the expansion of its environment variable, else for nothing |
| `Expand.KeyMeaning` | red-conf/redconf-expand.c:350-399 | a text with one key, between texts without dollar, expands to these texts with what the name stands for between them, or fails if that fails |
| `Expand.RankIrrelevant` | red-conf/redconf-expand.c:345-403 | the expansion depends on definitions only, not on the ranks that show them not to be circular |
| `Expand.RedNodeStringExpand` | red-conf/redconf-expand.c:417-425 | the full expansion, or nothing when it fails or has more than 512 characters |
| `Expand.EscapeRoundTrip` | red-conf/redconf-expand.c:350-399 | a text whose dollars are escaped expands into itself without any lookup |
| `PathLists.CompsJoin` | red-conf/redconf-expand.c:439-507 | joining components with colons and splitting again gives them back |
| `PathLists.DedupExact` | red-conf/redconf-expand.c:439-507 | removing repetitions keeps each component once, in the order of first occurrences |
| `PathAppend.Search` | red-conf/redconf-expand.c:439-507 | the searching cursor stops early exactly when the component is already written |
| `PathAppend.MergeComponents` | red-conf/redconf-expand.c:439-507 | the loop over the cursors leaves the old components then the new ones not already there, without empty ones |
| `PathAppend.RedConfAppendExpandedPath` | red-conf/redconf-expand.c:439-507 | succeeds exactly when the raw expansion fits; then the components are the old ones and the new ones not already there, in order; the final zero falls after the buffer exactly when the list fills it |
| `PathMix.MixPaths` | red-conf/redconf-mix.c:40-72 | the callback gets all the components of the chain without repetition, or is not called for an empty list or a text that does not fit; a final zero is written after the 1024 characters exactly when a list appended without failure fills them |
| `PathMix.FullPathOverruns` | red-conf/redconf-mix.c:40-72 | it is so for one path of 1024 characters without dollar or colon |
| `PathMix.MergedPaths` | red-conf/redconf-mix.c:40-72 | the components delivered are distinct, are those of all the texts, and are ordered by first occurrence, child before parents and admin before normal |
| `CgroupTree.TopDown` | red-wrap/cgroups.c:48-49 | a controller enabled in a cgroup is enabled in all its ancestors |
| `CgroupTree.Kernel.EnableSubtree` | red-wrap/cgroups.c:333-350 | a write to cgroup.subtree_control succeeds only with available controllers and no internal process, and keeps the hierarchy sound |
| `CgroupTree.Kernel.WriteSetting` | red-wrap/cgroups.c:333-350 | a setting can be written only where its controller is available |
| `CgroupControllers.MissingIsEnough` | red-wrap/cgroups.c:838-853 | enabling along the parent what the child lacks is enabling along the parent all that is expected |
| `CgroupControllers.EnsureRequired` | red-wrap/cgroups.c:828-856 | on success exactly the expected controllers are added to the whole branch; on failure only to its top; an ancestor is only asked what its child lacks; it fails only if a cgroup cannot enable what it lacks, or the kernel refuses; soundness is kept at each step |
| `CgroupControllers.EnsureAbove` | red-wrap/cgroups.c:833-853 | the same above the cgroup, which then has what is expected available |
| `CgroupControllers.AddSubcontrollers` | red-wrap/cgroups.c:807-823 | by the text written, the kernel adds the mask to the controllers of the subtree, in one write, or nothing changes |
| `CgroupControllers.GetEffectiveControllers` | red-wrap/cgroups.c:765-802 | the mask read from the text of cgroup.controllers is that of the controllers available, whatever other words it has |
| `ControllerText.ShownIsRead` | red-wrap/cgroups.c:786-799 | a text that shows a mask is read as that mask |
| `ControllerText.NamesShow` | red-wrap/cgroups.c:76-85 | the names of the controllers of a mask, separated by spaces, with or without a newline at the end, show it within 300 characters |
| `ControllerText.WordsSplit` | red-wrap/cgroups.c:786-792 | any character up to the space separates words |
| `ControllerText.AsksByName` | red-wrap/cgroups.c:76-85 | a request for one controller is its name after a plus sign |
| `ControllerText.RequestExact` | red-wrap/cgroups.c:812-821 | the request made for a mask, read word by word, asks for that mask and nothing else |
| `ControllerText.ReadMask` | red-wrap/cgroups.c:786-799 | the mask is that of the words read, whatever the separators |
| `ControllerText.Search` | red-wrap/cgroups.c:793-796 | the downward search finds the last name that the word starts |
| `ControllerText.NamesApart` | red-wrap/cgroups.c:76-85 | the only name of the table that starts another one is cpu, for cpuset |
| `ControllerText.MatchedName` | red-wrap/cgroups.c:793-796 | each name is found as itself, cpu not being taken for cpuset |
| `ControllerText.MaskExact` | red-wrap/cgroups.c:786-799 | when each word is a name or starts none, the mask has exactly the controllers named |
| `ControllerText.MakeRequest` | red-wrap/cgroups.c:807-823 | the request made for a mask, which always fits in the buffer |
| `ControllerText.RequestWords` | red-wrap/cgroups.c:812-821 | the words of a request are the names asked, each after a plus sign |
| `ControllerText.ListedExact` | red-wrap/cgroups.c:812-821 | each controller of the mask is asked once, and no other |
| `Cgroups.GetExpectedControllers` | red-wrap/cgroups.c:862-878 | the controllers for which there is a configuration: cpuset, cpu, memory, io, pids, each for its part |
| `Cgroups.WritesAreNeeded` | red-wrap/cgroups.c:720-759 | each setting written belongs to a controller that the node needs |
| `Cgroups.SetNodeConf` | red-wrap/cgroups.c:720-759 | with the needed controllers available, no write fails for want of one; without error the cgroup has each text written |
| `Cgroups.WritesAreSettings` | red-wrap/cgroups.c:720-938 | the texts written for a node are, for each of the 13 files, the one of its field in the admin configuration if that sets it, else in the normal one |
| `Cgroups.MaskExact` | red-wrap/cgroups.c:498-520 | the mask of a node has the controllers configured by one of the nodes from the leaf to it |
| `ProcsText.WritesExactly` | red-wrap/cgroups.c:402-444 | for every list of processes and sizes of reads, and whatever the buffer held, the texts written are the numbers listed, in order, if and only if no read ends inside a number |
| `ProcsText.FitsIsWhole` | red-wrap/cgroups.c:402-444 | no read ends inside a line when the first one returns the whole list |
| `ProcsText.MovesAnother` | red-wrap/cgroups.c:412-415 | for 34 numbers of five digits and full reads, the last text written is 345 and not 12345 |
| `MoveProcs.MoveAll` | red-wrap/cgroups.c:402-444 | in the kernel, what is written is a beginning of those texts, all of them on success; no process is lost and none goes elsewhere than to the destination; when no read can end inside a number, only processes of the first cgroup move, none remains on success, and a failure comes from a refusal or a destination that cannot hold processes |
| `MoveProcs.ShortIsWhole` | red-wrap/cgroups.c:402-444 | no read can end inside a number when the first one can return the whole list in any order |
| `MoveProcs.AnotherMoved` | red-wrap/cgroups.c:412-415 | for those 34 processes, 12345 stays in its cgroup and 345, which is in another one, moves |
| `Cgroups.PrepareRoot` | red-wrap/cgroups.c:525-572 | the root gets a leaf to which its processes go, and the controllers of its children with pids; without refusal it succeeds when the root can be emptied and its ancestors can enable them |
| `Cgroups.PrepareMiddle` | red-wrap/cgroups.c:579-663 | below a cgroup that enables what the node needs, the cgroup of the node gets a leaf, its settings, and the controllers of its children; without refusal it succeeds when that cgroup holds no process |
| `Cgroups.PrepareCgroups` | red-wrap/cgroups.c:498-520 | every node of the chain ends with all controllers needed by it and its descendants, and with each of the 13 files holding the text of its admin configuration, else of its normal one, and no later step undoes it; nothing is removed or disabled, and nothing off the branch is created, enabled or set; without refusal it succeeds when the root is ready and the cgroups of the chain hold no process |
| `CgroupRoot.LengthWithoutPidsLeaf` | red-wrap/cgroups.c:233-245 | removes from the text the names of leaves at the end, and only whole names |
| `CgroupRoot.StripExactly` | red-wrap/cgroups.c:233-245 | what is removed is all the names `redpak-pids-leaf` of the end, and nothing else |
| `CgroupRoot.FindRootExactly` | red-wrap/cgroups.c:288-326 | the root is the highest directory from which every one down to the start has a leaf, or the start when it has none |
| `CgroupRoot.FindRednodeRoot` | red-wrap/cgroups.c:288-326 | scanning the text finds the directory that climbing names finds, and leaves the buffer as it was |
| `CgroupRoot.FoundAgain` | red-wrap/cgroups.c:288-326 | from the leaf of the last of any number of nested nodes, the same root is found if and only if its parent has no leaf |
| `SetCgroups.EnterLeaf` | red-wrap/cgroups.c:669-691 | the process is in the leaf of the last cgroup prepared; without refusal it fails only if that leaf cannot hold it |
| `SetCgroups.SetCgroupsAt` | red-wrap/cgroups.c:455-493 | every node of the chain is prepared and has a leaf, the process being in that of the last; nothing is touched off the branch; it succeeds under those conditions when nothing is refused |
| `SetCgroups.NoProcessLost` | red-wrap/cgroups.c:455-493 | after the whole run, however the list was read, each process is where it was or in the leaf of the root, and the current one is only in the leaf of the last node |
| `SetCgroups.OnlyRootMoves` | red-wrap/cgroups.c:455-493 | when no read ends inside a number, the leaf of the root gets exactly the processes of the root and no other one moves |
| `SetCgroups.SetCgroups` | red-wrap/cgroups.c:455-493 | the same from the current cgroup, and the exact condition for a second start to find the same root |
| `SetCgroups.OtherRoot` | red-wrap/cgroups.c:288-326 | a hierarchy where the first start finds a root without leaf, below a cgroup that has one, and the second start another root |
| `FileTree.CanonParent` | red-wrap/redwrap-exec.c:179-217 | the directory of a path is the same for all its spellings with repeated slashes |
| `FileTree.AncestorsAreDirectories` | red-wrap/redwrap-exec.c:179-217 | the ancestors of a directory are directories |
| `FileTree.MissingExactly` | red-wrap/redwrap-exec.c:179-217 | a beginning of a path that ends at a name is to be created if and only if it does not exist |
| `FileTree.MissingInOrder` | red-wrap/redwrap-exec.c:179-217 | there is nothing else to create, and parents come first |
| `Directories.CreateDirectory` | red-wrap/redwrap-exec.c:179-217 | creates exactly the missing directories, parents first, and returns the length of what existed; on failure only the first of them; the buffer is restored; without refused call it succeeds exactly when something is missing and its longest existing part is a directory |
| `Directories.MadeDirectory` | red-wrap/redwrap-exec.c:179-217 | once all that is missing is created, the path is a directory if and only if its longest existing part was one |
| `Directories.SetupDirectory` | red-wrap/redwrap-exec.c:221-254 | sets up the directories longer than a length, children first; the buffer is restored |
| `Directories.SetUpIsCreated` | red-wrap/redwrap-exec.c:258-278 | for the length returned by the creation, these are exactly the created ones in reverse order |
| `Directories.EnsureDirectory` | red-wrap/redwrap-exec.c:258-278 | on success what was missing has been created, and exactly that has been set up, children first; it succeeds as create_directory does |
| `MakeDirs.BaseLength` | red-conf/redconf-utils.c:191-213 | the part that must exist ends at a name |
| `MakeDirs.MakeDirectories` | red-conf/redconf-utils.c:191-256 | from a base that is a directory, creates exactly what is missing, parents first, as create_directory does, and reports the length of what existed; without refused call it succeeds exactly when the base and the longest existing part are directories |
| `Factory.RednodeFactory.DoSetRoot` | red-conf/rednode-factory.c:443-458 | the buffer holds the root given without its last slashes; an error changes nothing |
| `Factory.RednodeFactory.DoSetNode` | red-conf/rednode-factory.c:467-488 | the buffer holds the node given without the slashes around it; an error changes nothing |
| `Factory.SetRootMeaning` | red-conf/rednode-factory.c:443-458 | slashes at the end of a root do not count; it is refused when it has no room for one more character in 512, then when it is neither empty nor absolute; its node is then empty |
| `Factory.SetNodeMeaning` | red-conf/rednode-factory.c:467-488 | slashes around a node do not count; it is refused without root, or when both with their slashes have no room in 512; the root is kept |
| `Factory.RednodeFactory.Perform` | red-conf/rednode-factory.c:437-488 | after any sequence of calls, 0 < root length <= node length < 512 with a slash at the end of both, and the place is the one that the calls give |
| `Factory.RunCanonical` | red-conf/rednode-factory.c:437-488 | whatever the calls, the place held is absolute, fits, and has no slash around its parts |
| `Factory.SettingAgain` | red-conf/rednode-factory.c:437-488 | whatever the calls, giving the texts held to any factory never fails and gives the same place |
| `Factory.RednodeFactory.SetSubpath` | red-conf/rednode-factory.c:212-228 | the path of a file of the node, or an error exactly when it does not fit; its directories exist when they were asked for, or the error says why they do not; the place is kept |
| `Factory.CreateDirectories` | red-conf/rednode-factory.c:112-128 | for the lengths of a factory, exactly what is missing below the root is created and the buffer is restored; without refused call it succeeds exactly when the root and the longest existing part are directories, says exactly when the root is missing, and else returns a positive number |
| `Factory.PositiveError` | red-conf/rednode-factory.c:126-127 | so it does for the node n of the root /r when /r/n is a file |
| `Factory.CreateParentDirectories` | red-conf/rednode-factory.c:131-136 | the same for the directory of a path, errors included |
| `Factory.RednodeFactory.Split` | red-conf/rednode-factory.c:570-574 | the parent and the last name of the path; the parent is below the root exactly when the node is not the root |
| `Factory.SplitAtRoot` | red-conf/rednode-factory.c:560-574 | the path of a node is that of its parent followed by a name that is not empty |
| `Factory.RednodeFactory.LegacyParent` | red-conf/rednode-factory.c:618-625 | refused exactly at the root; else the file looked for is the status file of the parent, and the parent to create has the same root and satisfies the invariant of factories |
| `Factory.RednodeFactory.Derive` | red-conf/rednode-factory.c:531-543 | the factory of the parent holds the beginning of the path |
| `NodeScan.PopDownRedpath` | red-conf/redconf-node.c:57-65 | the buffer holds the parent with a slash, and its length is returned |
| `NodeScan.AncestorsExact` | red-conf/redconf-node.c:190-229 | the directories tried are exactly the beginnings of the path that end at a slash, the nearest first and the root never |
| `NodeScan.KeptExact` | red-conf/redconf-node.c:207-222 | the nodes kept are exactly those of the directories that are rednodes, unless one cannot be loaded |
| `NodeScan.KeptInOrder` | red-conf/redconf-node.c:207-222 | they are kept in the order in which their directories are tried |
| `NodeScan.DigToRoot` | red-conf/redconf-node.c:190-229 | links the rednodes above the leaf in that order, in both directions and to the leaf, or fails exactly when one cannot be loaded |
| `NodeScan.RedNodesScan` | red-conf/redconf-node.c:313-338 | succeeds exactly when the leaf is a rednode and no directory above it is a broken one; the chain is the leaf then the rednodes above it |

## Left out

- Loading and saving of YAML, dumping, command line, logging and warnings, python binding, libdnf and rpm layers: input and output, or libraries that cannot be seen.
- Command substitution, fresh UUIDs, dates, process and user numbers: expansion is modelled without commands, with defaults and environment as finite maps from names to texts.
- DefaultsExpand: requires a rank on the definitions, because the expansion of circular ones does not end; the branch for commands, taken with a positive `withcmd`, is not modelled.
- RedNodeStringExpand: the source allows commands there; a text without command expands as in the model.
- RedConfAppendExpandedPath: a final zero that falls after the buffer is reported by an out-parameter instead of being written.
- MixExports: mount points expand; a failed expansion gives the source a name without text, which it then compares.
- MixConfTags: allocations succeed.
- GetMergedNode: headers are not modelled, the copy of cgroups neither, and allocations succeed.
- Mix: the recursive mergers of variables, capabilities and exports are one method with a policy for what they do differently (name, skipped definitions, refusals), the rest of their texts being the same.
- The mergers only read nodes: they take the chain as a sequence; `NodeScan` has the pointers and gives that sequence.
- `qsort` is a function that sorts; mount points are distinct, so that its choice between equal ones does not matter.
- `copy_cgroups`, `is_valid_alias` and tables of names: they would only add easy members.
- `PrivateRestricted` is not in `RED_EXPORT_PRIVATES` (`red-conf/redconf-schema.h:136`): the model follows the mask.
- MoveAll: the text of cgroup.procs is the list of processes when the file is opened; processes that start or end meanwhile are not modelled. Reads return at least one character when some remain, and a read error is a refusal. How the kernel reads a number in a text that is written is an oracle which reads decimal numbers.
- WholeReads: is asked of the list in any order, since the kernel does not promise one.
- PrepareMiddle: names of cgroups are any names; the suffix of admin nodes (`red-wrap/cgroups.c:622`), the replacement of slashes and the choice of an explicit root path are not modelled. The constant `paranoiac` is true, so a leaf is always asked for.
- SetNodeConf: the settings low, oom_group, weight_nice and cost are merged by the source but never written, so they are not modelled; the kernel can refuse a value for reasons of its own, which is an oracle of the model.
- AddSubcontrollers: texts of controllers are in ASCII, and a cgroup.controllers longer than the buffer of 300 characters is not modelled.
- SetCapabilities: when there are too many arguments the program exits, and nothing is said of the arguments then; when two capabilities have the same name, which no merge gives, only the list of settings is stated.
- SetShares: the same; clone, setns, setuid and execve are not modelled, only the flag for the user namespace.
- RedNodesScan: requires an absolute path without empty names (`//`); for the path `/` the source reads before its buffer (`red-conf/redconf-node.c:59-61`), so it is excluded. Symbolic links are not modelled.
- PopDownRedpath: the same texts.
- DigToRoot: the same texts.
- LegacyParent: templates, aliases and the storing of configurations are not modelled.
- LengthWithoutPidsLeaf: the text is that of a list of names, each after one slash, as the kernel gives in `/proc/self/cgroup`; repeated slashes are not modelled.
- FindRednodeRoot: the same texts, below the mounting point of the hierarchy.
- CreateDirectory: the names `.` and `..` and symbolic links are not modelled, here and in the other operations on directories.
- SetupDirectory: setting the owner and the label of a directory is one event.
