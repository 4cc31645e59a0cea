# Network faults, qdisc restore and the stop protocol of action-kit

The network faults of action-kit take a filter (nets with port ranges to include and to
exclude), tidy it up, and compile it into kernel rules: prioritised u32 filters for `tc`, or
chains for `iptables`. On revert the saved queueing disciplines are replayed. Around all this
the SDK runs actions that can be stopped by an HTTP request, a signal or a missing heartbeat.
This project models those three parts and proves that they do what they are for.

Run `dafny verify dfyconfig.toml`.

| file | what it holds |
|---|---|
| `Slices.dfy` | the operations taken from Go's `slices` package |
| `Cidr.dfy` | nets, containment, the merge of two nets as the join of the prefix lattice |
| `Endpoints.dfy` | port ranges, entries, the set of endpoints an entry stands for |
| `PortMask.dfy` | splitting a port range into value/mask blocks: exact, minimal, bounded |
| `Filters.dfy` | deduplication, needed excludes, the optimised filter |
| `Condense.dfy` | merging neighbouring nets: coverage, termination, completeness |
| `TcFilter.dfy`, `DelayCommands.dfy` | the u32 rules and the delay attack's batches |
| `TcKernel.dfy` | the batches executed on interfaces: which packets are delayed, and the way back |
| `Iptables.dfy` | the iptables encodings; all encodings select the same packets |
| `ResetScripts.dfy` | the tcp-reset scripts on an iptables state: add then delete is the identity |
| `Qdiscs.dfy`, `Restore.dfy` | the parent-first order, re-anchoring, claiming and replaying qdiscs |
| `StopEvents.dfy`, `Lifecycle.dfy` | the stop-event list, and starts, stops and timeouts interleaved |

How the model is set up:

- An address is a list of bits, most significant first; its length (32 or 128) is its family.
  Nothing depends on the number. A net is a base address and a mask length, and matches only
  addresses of its own length. Ports of `PortMask` have any width `n`; 16 is used elsewhere.
- Loops and in-place updates of the source are methods with loops. Each is tied to a function
  or states its result outright, and the laws are proved about that.
- Concurrency is interleaving: one access to the monitor map or to the stop-event list, one
  `Stop` of a monitor, or one user callback is one step.
- The kernel appears as a list of rules (lowest priority first, or in order for iptables), as
  tables of chains, as the attack's qdisc and its filters on each interface, or as a list of live
  qdiscs for each interface. Whether the claim of a root
  handle succeeds is left open.

Where the code and what is said about it differ, the model follows the code:

- Condensing is described as sorting first (netfault.go:552). The code sorts the caller's slice
  only after copying it, so `CondenseNetWithPortRange` works in the caller's order. It reaches
  every possible merge when each of them is the merge of an entry with its next neighbour of the
  same port range, as in a list ordered by base address within each port range and family. Other
  lists can be returned with merges left: `Condense.UnorderedInputMissesMerge`, and since sorting
  puts IPv6 entries between IPv4 entries, `Condense.MixedFamiliesMissMerge`.
- `Contains` on entries looks at the other net's base address only, so it accepts a wider net
  with the same base. `Endpoints.ContainsIsInclusionUnlessBaseShared` says exactly when. On every
  valid list deduplication still returns an ordered list of entries, none containing another,
  that together contain (in the sense of `Contains`) each entry given. It returns exactly the
  maximal entries, however the sort breaks ties, iff no entry shadows a maximal one
  (`Filters.NoShadowIsExactness`). It loses no endpoint, however the sort breaks ties, iff the
  safe entries, which no other one of their base takes in, cover the list
  (`Filters.SafeCoverIffKept`): 128.0.0.0/1 and 128.0.0.0/2 alone can lose some
  (`Filters.SharedBaseLosesEndpoints`), together with 192.0.0.0/2 they cannot
  (`Filters.ShadowCanBeHarmless`). The meaning laws of the optimised and of the compiled filter
  are stated on that condition.
- If an entry kept by deduplication ties in the sort with another given one, the other can be
  kept on revert, and the batch does not undo what was applied: exactly then
  (`DelayCommands.RevertMirrorsApply`, `DelayCommands.TieCanBreakRevert`).
- Condensing trusts `Contains` in the same way. It is proved to lose nothing when no join of two
  entries has a wider entry's base under a longer mask, as in flat lists and in
  [128.0.0.0/1, 192.0.0.0/2] (`Condense.NestedCanBeSound`). Otherwise it can
  (`Condense.NestedInputLosesEndpoints`).
- Dropping an exclude that overlaps no include (utils.go:88) keeps the meaning at every
  endpoint but not for every packet: `TcFilter.CompiledAgreesWithGivenFilter` gives the exact
  exception.
- Re-anchoring is the fallback when a root handle cannot be claimed (snapshot.go:201-207). If
  the live root stays anonymous, its re-anchored children are skipped, so their own children
  meet a missing parent, unless a qdisc of the parent's major was left over in the live tree:
  `Restore.RestoreSnapshot` gives the exact condition.

## Model

| member | source | states |
|---|---|---|
| Cidr.SubnetIsInclusion | go/action_kit_commons/network/types.go:169-173 | comparing prefixes is the same as inclusion of the address sets |
| Cidr.MergeIPNet | go/action_kit_commons/network/types.go:214-242 | the descending search finds the net of the longest common prefix, or the any-net; of two families only that the base is unspecified |
| Cidr.MergeIsJoin | go/action_kit_commons/network/types.go:214-242 | the merge is canonical, holds both nets, and lies in every net that holds both |
| Cidr.MergeIsLeastCover | go/action_kit_commons/network/types.go:214-242 | a net holds every address of both arguments iff it holds every address of the merge |
| Cidr.MergeCommutes | go/action_kit_commons/network/types.go:214-242 | the merge is commutative |
| Cidr.MergeAssociates | go/action_kit_commons/network/types.go:214-242 | the merge is associative |
| Cidr.MergeIdempotent | go/action_kit_commons/network/types.go:214-242 | a canonical net merged with itself is itself |
| Endpoints.OverlapIsSharedEndpoint | go/action_kit_commons/network/types.go:165-167 | two valid entries overlap iff some endpoint matches both |
| Endpoints.InclusionIsContainmentOfWiderNet | go/action_kit_commons/network/types.go:169-173 | inclusion of endpoint sets is `Contains` together with a mask that is not longer |
| Endpoints.ContainsIsInclusionUnlessBaseShared | go/action_kit_commons/network/types.go:169-173 | `Contains` agrees with inclusion exactly unless the other net has the same base, a shorter mask and ports inside |
| Endpoints.ContainsCanMissInclusion | go/action_kit_commons/network/types.go:169-173 | two IPv4 entries for which `Contains` answers true and inclusion fails |
| PortMask.PortMask | go/action_kit_commons/network/netfault/utils.go:181-203 | the loop ends, never wraps around, and finds the mask of the largest aligned block that fits |
| PortMask.GetMask | go/action_kit_commons/network/netfault/utils.go:149-173 | the loop ends, never wraps around, and lays such blocks end to end; the any-port range gives one wildcard |
| PortMask.MasksPartitionRange | go/action_kit_commons/network/netfault/utils.go:149-179 | every port of the range is accepted by exactly one block, every other port by none; blocks are aligned and adjacent |
| PortMask.MasksAreFewest | go/action_kit_commons/network/netfault/utils.go:149-203 | no set of aligned power-of-two blocks inside the range covers it with fewer blocks |
| PortMask.MasksAtMost | go/action_kit_commons/network/netfault/utils.go:149-203 | at most 2n-2 blocks for n-bit ports: 30 for 16 bits |
| Filters.FoldIn | go/action_kit_commons/network/netfault/utils.go:244-258 | the scan of one entry: keep, replace the first related entry, or append |
| Filters.OnlyLastIsReplaced | go/action_kit_commons/network/netfault/utils.go:239-254 | in sorted order only the last kept entry can be inside the next one, so one replacement suffices |
| Filters.FoldKeepsMaximal | go/action_kit_commons/network/netfault/utils.go:244-258 | on valid input each scan keeps the kept entries in order, none containing another, together containing everything seen |
| Filters.Deduplicate | go/action_kit_commons/network/netfault/utils.go:238-262 | sorts the caller's list in place and returns the scan of it: on every valid list entries of it in order, none containing another, together containing all; the maximal entries if none is shadowed |
| Filters.DeduplicateSorted | go/action_kit_commons/network/netfault/utils.go:241-261 | the loop is the scan of the whole list and keeps that state on every valid sorted list |
| Filters.NoShadowIsExactness | go/action_kit_commons/network/netfault/utils.go:238-262 | the result is exactly the maximal entries, however the sort breaks ties, iff no entry contains (by base) a maximal one of a shorter mask |
| Filters.ShadowedIsLost | go/action_kit_commons/network/netfault/utils.go:239-258 | a shadowed entry is missing from the result of some sort: always with wider ports, else when it comes later |
| Filters.UntiedIffOneResult | go/action_kit_commons/network/netfault/utils.go:238-262 | deduplication has one result, however the sort breaks ties, iff no entry of it has the base and ports of another given entry |
| Filters.ResultsDifferInTie | go/action_kit_commons/network/netfault/utils.go:238-262 | two results for one list first differ in the mask of entries that tie |
| Filters.DeduplicationIgnoresOrder | go/action_kit_commons/network/netfault/utils.go:238-262 | the list of maximal entries is one list, whatever the order of the input and the ties of the sort |
| Filters.MaximalEntriesMatchTheSame | go/action_kit_commons/network/netfault/utils.go:238-262 | on valid lists the maximal entries match the endpoints the list matches |
| Filters.SharedBaseLosesEndpoints | go/action_kit_commons/network/netfault/utils.go:239-247 | two IPv4 entries of one base: one sort drops the wider net and loses an endpoint, the other keeps it (the exact condition is in the next rows) |
| Filters.SafelyMatchedIffAlwaysKept | go/action_kit_commons/network/netfault/utils.go:238-262 | an endpoint stays matched, however the sort breaks ties, iff an entry matches it that no other one of its base with wider ports or a longer mask takes in |
| Filters.SafeCoverIffKept | go/action_kit_commons/network/netfault/utils.go:238-262 | deduplication loses no endpoint, however the sort breaks ties, iff such entries cover the list |
| Filters.NoShadowIsSafeCover | go/action_kit_commons/network/netfault/utils.go:238-262 | they do when no maximal entry is shadowed |
| Filters.ShadowCanBeHarmless | go/action_kit_commons/network/netfault/utils.go:238-262 | and in an IPv4 list with a shadowed maximal entry |
| Filters.NecessaryExcludes | go/action_kit_commons/network/netfault/utils.go:89-100 | keeps, in order, the excludes that overlap an include |
| Filters.OptimizeFilter | go/action_kit_commons/network/netfault/utils.go:65-69 | deduplicated includes, and deduplicated ones among the excludes overlapping them; maximal ones for well-formed filters; only the include list is reordered |
| Filters.OptimizedIffWellFormed | go/action_kit_commons/network/netfault/utils.go:65-69 | for valid filters the result is the maximal entries, however the sorts break ties, iff the includes and the needed excludes shadow no maximal entry |
| Filters.NoShadowAmongNeeded | go/action_kit_commons/network/netfault/utils.go:89-100 | excludes that shadow no maximal one do not do so among the needed ones either |
| Filters.SettledIffOneForm | go/action_kit_commons/network/netfault/utils.go:65-69 | for valid filters, one optimised form, in whatever order the lists come and however the sorts break ties, iff no entry of it ties with another entry |
| Filters.WellFormedIsSettled | go/action_kit_commons/network/netfault/utils.go:65-69 | which holds for well-formed filters |
| Filters.OptimizedKeepsNeededExcludes | go/action_kit_commons/network/netfault/utils.go:65-100 | for safe filters the includes match what they matched and the excludes what the needed ones did; inside the includes, what all did |
| Filters.OptimizePreservesMeaning | go/action_kit_commons/network/netfault/utils.go:65-100 | for safe filters an endpoint is in some include and no exclude before iff it is after |
| Filters.SafeFilterIffKept | go/action_kit_commons/network/netfault/utils.go:65-100 | for valid filters every optimised form keeps what includes and needed excludes match iff safe entries cover both |
| Filters.SafelySelectedIffMeaningKept | go/action_kit_commons/network/netfault/utils.go:65-100 | for valid filters every optimised form keeps the meaning iff a safe include matches wherever the filter selects, and a safe needed exclude wherever optimised includes meet an exclude |
| Slices.BinarySearchFunc | go/action_kit_commons/network/netfault/netfault.go:617-620 | the position the search ends at, and on sorted input the first one not below the target |
| Slices.SearchFindsBound | go/action_kit_commons/network/netfault/netfault.go:617-620 | halving ends at the first position not below the target of a sorted list |
| Slices.InsertSorted | go/action_kit_commons/network/netfault/netfault.go:617-620 | inserts at that position and keeps a sorted list sorted |
| Condense.GetNextMatchingCandidate | go/action_kit_commons/network/netfault/netfault.go:603-615 | the merge with the next entry of the same port range, unless its base is zero |
| Condense.RoundKeepsCovering | go/action_kit_commons/network/netfault/netfault.go:578-592 | on sound input a round keeps every input entry inside a result entry, and nothing inserted wider than an entry or a queued candidate |
| Condense.RoundKeepsComplete | go/action_kit_commons/network/netfault/netfault.go:578-599 | on sound input every merge still possible in the result stays queued, though only neighbours are ever pushed |
| Condense.InitialQueueIsComplete | go/action_kit_commons/network/netfault/netfault.go:565-570 | what is queued first holds every possible merge iff each is the merge of an entry with its next neighbour |
| Condense.OrderedNeighboursSuffice | go/action_kit_commons/network/netfault/netfault.go:550-570 | which holds for input in base-address order of one family within each port range, with no entry strictly inside a later one |
| Condense.NeighboursSufficeIffNoneMissed | go/action_kit_commons/network/netfault/netfault.go:565-577 | when nothing is queued it holds iff no merge is possible |
| Condense.FreshIsNotStale | go/action_kit_commons/network/netfault/netfault.go:594-599 | a freshly queued candidate absorbs at least two entries |
| Condense.RoundMakesProgress | go/action_kit_commons/network/netfault/netfault.go:573-600 | every round that absorbs something lowers (entries, weight of bases and ports, stale candidates), on any input |
| Condense.Round | go/action_kit_commons/network/netfault/netfault.go:578-599 | one round keeps all invariants and lowers the measure; what it inserts goes where the binary search puts it, and its candidate and the one before it are queued |
| Condense.CondenseCopy | go/action_kit_commons/network/netfault/netfault.go:561-600 | ends on every input; the last absorbing round started over the limit and inserted a join of two input entries; over the limit, neither that entry nor the one before it has a merge left, and if nothing was inserted no entry has, on any input without an empty port range; no merge to a zero base; sorted input stays sorted; coverage on sound input; completeness there where neighbours suffice; with no candidate the input comes back unmerged |
| Condense.CondenseNetWithPortRange | go/action_kit_commons/network/netfault/netfault.go:556-601 | the same for the caller's slice, which is returned as it is within the limit and left sorted otherwise |
| Condense.FlatIsSound | go/action_kit_commons/network/netfault/netfault.go:578-592 | input is sound when within a port range no net is strictly inside another |
| Condense.NestedCanBeSound | go/action_kit_commons/network/netfault/netfault.go:578-592 | and in an IPv4 list where one is |
| Condense.UnorderedInputMissesMerge | go/action_kit_commons/network/netfault/netfault.go:550-570 | unordered IPv4 input with a possible merge for which nothing is ever queued |
| Condense.MixedFamiliesMissMerge | go/action_kit_commons/network/netfault/netfault.go:550-615 | sorted IPv4 and IPv6 input with a possible merge for which nothing is ever queued |
| Condense.NestedInputLosesEndpoints | go/action_kit_commons/network/netfault/netfault.go:573-592 | three IPv4 entries, a join of two hiding the third, of which the first round leaves one that misses an endpoint |
| TcFilter.GetMatchers | go/action_kit_commons/network/netfault/utils.go:123-145 | a source and a destination matcher for each block of the entry |
| TcFilter.TcCommandsForNets | go/action_kit_commons/network/netfault/utils.go:102-121 | one rule for each matcher, with consecutive priorities |
| TcFilter.TcCommandsForFilter | go/action_kit_commons/network/netfault/utils.go:71-86 | the exclude rules followed by the include rules |
| TcFilter.MasksSelectRange | go/action_kit_commons/network/netfault/utils.go:140-151 | the blocks of a range accept an ordinary port iff the range contains it |
| TcFilter.RulesArePrioritised | go/action_kit_commons/network/netfault/utils.go:71-121 | priorities are 1..N and all excludes come first |
| TcFilter.DifferentFormsDifferentRules | go/action_kit_commons/network/netfault/utils.go:65-145 | two different optimised forms of a valid filter have different rules |
| TcFilter.TcFilterIsCorrect | go/action_kit_commons/network/netfault/utils.go:71-145 | with lowest priority first, a packet goes to 1:3 iff an include and no exclude matches one of its endpoints |
| TcFilter.CompiledAgreesWithGivenFilter | go/action_kit_commons/network/netfault/utils.go:65-145 | for safe filters the compiled optimised filter agrees with the given one on a packet exactly unless an include and only excludes overlapping no include touch it |
| TcFilter.CompiledFollowsOneEndpoint | go/action_kit_commons/network/netfault/utils.go:65-145 | for safe filters, with one endpoint unknown to the filter, the rules follow its meaning at the other |
| TcFilter.DroppedExcludeCanChangePacket | go/action_kit_commons/network/netfault/utils.go:88-100 | an IPv4 filter and a packet for which the two differ |
| DelayCommands.ReorderForMode | go/action_kit_commons/network/netfault/utils.go:17-23 | reverses the batch in place for delete, leaves it for add |
| DelayCommands.CommandsFor | go/action_kit_commons/network/netfault/delay.go:172-200 | the batch of all interfaces, rejected exactly when one interface needs more than 2048 commands |
| DelayCommands.AcceptedIffFewCommands | go/action_kit_commons/network/netfault/delay.go:195-199 | a batch is accepted iff it has at most 2048 commands for each interface, and otherwise reported with their number |
| DelayCommands.TcCommands | go/action_kit_commons/network/netfault/delay.go:172-200 | the batch of what the filter optimises to, rejected only for its size; never for at most 34 valid entries |
| DelayCommands.PshBatchSelects | go/action_kit_commons/network/netfault/delay.go:68-185 | the PSH-only batch and the iptables chain send a packet to 1:3 iff it has PSH and is affected, or carried the mark |
| TcKernel.ApplyDelaysAffected | go/action_kit_commons/network/netfault/delay.go:172-200 | executed over any roots but the attack's, an accepted add batch delays on each of its interfaces exactly the affected packets; with PSH only those with PSH that are affected or carried the mark |
| TcKernel.ApplyFailsNowhere | go/action_kit_commons/network/netfault/utils.go:25-32 | no command of it fails over whatever root is attached, and other interfaces stay as they were |
| TcKernel.ApplyThenRevertLeavesNothing | go/action_kit_commons/network/netfault/utils.go:17-32 | with the same form of the filter, or PSH only, no command of the revert fails and nothing of the attack is left |
| DelayCommands.RevertMirrorsApply | go/action_kit_commons/network/netfault/delay.go:172-200 | every delete batch, from the filter optimised anew and possibly rearranged, undoes the add batch command by command, last first, iff only PSH is wanted, there is no interface, or no entry of the optimised filter ties with another |
| DelayCommands.TieCanBreakRevert | go/action_kit_commons/network/netfault/delay.go:175 | an IPv4 filter with such a tie |
| Iptables.WriteRules | go/action_kit_commons/network/netfault/tcp_reset.go:192-238 | two rules for each entry of the family, destination first (also delay.go:113-170) |
| Iptables.RulesMeanEntries | go/action_kit_commons/network/netfault/delay.go:113-170 | some rule of a list matches a packet iff some entry touches it |
| Iptables.MarkChainMarksAffected | go/action_kit_commons/network/netfault/delay.go:104-110 | a chain of RETURN excludes and MARK includes marks exactly the affected packets |
| Iptables.EncodersAgree | go/action_kit_commons/network/netfault/tcp_reset.go:92-165 | u32 rules, delay MARK chain, tcp-reset filter chain and tcp-reset mangle and filter pair select the same packets; the marking ones also those with their own mark, but no unmarked ones and none with the other's |
| Iptables.DelayNeedsPsh | go/action_kit_commons/network/netfault/delay.go:135-138 | the delay chain leaves packets without PSH alone |
| ResetScripts.ChainJumpRules | go/action_kit_commons/network/netfault/tcp_reset.go:254-278 | the nested loops emit the jumps of every interface and built-in chain |
| ResetScripts.EveryInterfaceIsCaught | go/action_kit_commons/network/netfault/tcp_reset.go:254-278 | each interface has its jump in each built-in chain, forwarded traffic on both sides |
| ResetScripts.JumpsGoInto | go/action_kit_commons/network/netfault/tcp_reset.go:254-278 | every jump is in one of the chains and goes to the attack chain |
| ResetScripts.IptablesScript | go/action_kit_commons/network/netfault/tcp_reset.go:73-176 | the script of what the filter optimises to, in either mode and form; nothing without an include of the family |
| ResetScripts.OptimizedKeepsFamilies | go/action_kit_commons/network/netfault/tcp_reset.go:92-96 | optimising any valid filter keeps the families of its includes |
| ResetScripts.TableAttacked | go/action_kit_commons/network/netfault/tcp_reset.go:97-112 | the executed add script leaves the attack chain with its rules in order, and each given chain with the jumps before its rules when prepending, after them otherwise |
| ResetScripts.LaidReaches | go/action_kit_commons/network/netfault/tcp_reset.go:254-278 | the built-in chain for a packet's way sends it to the attack chain iff it uses an attacked interface |
| ResetScripts.AttackResetsAffected | go/action_kit_commons/network/netfault/tcp_reset.go:92-165 | on the executed state a packet is reset iff it uses an attacked interface and is affected; in mangle mode also if it carried the mark |
| ResetScripts.ChainNamesTellApart | go/action_kit_commons/network/netfault/tcp_reset.go:39-56 | executions whose identifiers end differently have different chains, with names of at most 28 characters |
| ResetScripts.JumpsAdded | go/action_kit_commons/network/netfault/tcp_reset.go:105-106 | after adding, each chain holds its own rules in order with exactly the jumps mixed in |
| ResetScripts.JumpsDeleted | go/action_kit_commons/network/netfault/tcp_reset.go:167-176 | deleting the same jumps one by one takes exactly those out |
| ResetScripts.AddThenDeleteIsIdentity | go/action_kit_commons/network/netfault/tcp_reset.go:92-190 | add, then delete with the filter optimised anew and possibly rearranged, restores any state that does not mention the attack chains, and no command fails |
| Qdiscs.IndexQdiscsByHandleMajor | go/action_kit_commons/network/netfault/snapshot.go:130-138 | the loop builds the map from majors to positions |
| Qdiscs.IndexIsLast | go/action_kit_commons/network/netfault/snapshot.go:130-138 | the map has exactly the majors in use, each at the last position that has it |
| Qdiscs.EmitQdiscsWithKnownParents | go/action_kit_commons/network/netfault/snapshot.go:144-158 | a pass emits only qdiscs whose parent is known, and without progress none of the rest has one |
| Qdiscs.EmitToFixedPoint | go/action_kit_commons/network/netfault/snapshot.go:110-115 | at most n+1 passes; exactly the qdiscs whose parent chain ends are emitted, each after its parent |
| Qdiscs.OrderQdiscsForRestore | go/action_kit_commons/network/netfault/snapshot.go:106-124 | a permutation: grounded qdiscs first, each after its parent, the rest in input order |
| Qdiscs.UngroundedIsCycle | go/action_kit_commons/network/netfault/snapshot.go:116-122 | the rest are exactly the qdiscs on or below a parent cycle |
| Restore.BuildAutoManagedRewriteMap | go/action_kit_commons/network/netfault/snapshot.go:224-236 | the loop builds the rewrite map |
| Restore.RewritesMovedRoots | go/action_kit_commons/network/netfault/snapshot.go:217-236 | exactly the majors of saved auto-managed roots with a live root of another major, each to the live major for the last such root |
| Restore.FoundIsFirstLiveRoot | go/action_kit_commons/network/netfault/snapshot.go:238-248 | the live major is that of the first live root of the saved kind |
| Restore.ReAnchorAutoManagedParents | go/action_kit_commons/network/netfault/snapshot.go:212-267 | the loop rewrites the parents the map names, and returns the list itself when it is empty |
| Restore.ReAnchoringIsConservative | go/action_kit_commons/network/netfault/snapshot.go:201-267 | on any list only parents change, their minors stay, and only children of a moved root are touched |
| Restore.AnchoredParent | go/action_kit_commons/network/netfault/snapshot.go:212-267 | re-anchoring a saved tree only cuts qdiscs loose from their saved root |
| Restore.ReplayNeverMissesParent | go/action_kit_commons/network/netfault/snapshot_linux.go:160-177 | in a restore order of a replayable list nothing fails and every qdisc not skipped ends up live |
| Restore.ReplayIsCleanIffNotOrphaned | go/action_kit_commons/network/netfault/snapshot_linux.go:122-177 | replaying a saved tree over any live tree with a fresh root fails nowhere iff no grandchild of an anonymous root is orphaned, no qdisc of its parent's major being left over |
| Restore.RestoreInterfaceQdiscs | go/action_kit_commons/network/netfault/snapshot_linux.go:160-177 | replaces, in a restore order, each qdisc not skipped, without its counters, and collects the failures |
| Restore.SkippedIffHopeless | go/action_kit_commons/network/netfault/snapshot.go:165-190 | apart from the five kinds the kernel attaches, a qdisc is skipped iff replacing it fails over every tree |
| Restore.RequestsAreWanted | go/action_kit_commons/network/netfault/snapshot_linux.go:160-177 | exactly the qdiscs of other kinds with a root mark or a parent are requested, without counters and otherwise as they are |
| Restore.ClaimInterfaceRoots | go/action_kit_commons/network/netfault/snapshot_linux.go:140-150 | asks for exactly the handles of auto-managed roots that had one |
| Restore.ClaimsAreForAttachedRoots | go/action_kit_commons/network/netfault/snapshot_linux.go:153-155 | exactly the saved roots of the five kinds with a handle are claimed, under their handle and kind |
| Restore.ClaimAutoManagedRootHandles | go/action_kit_commons/network/netfault/snapshot_linux.go:138-151 | the same for every interface, touching no other; trees ready for replay stay so whichever claims succeed |
| Restore.RestoreSnapshot | go/action_kit_commons/network/netfault/snapshot_linux.go:102-129 | claims first; for saved trees, whatever else is left over in the live ones, no missing parent, exactly unless an interface has an orphan; elsewhere every qdisc of none of the five kinds with a root mark or a parent is in the tree; none of the five kinds is requested; interfaces outside are untouched |
| Restore.ClaimsPreventOrphans | go/action_kit_commons/network/netfault/snapshot_linux.go:131-155 | when the claim succeeds, or none is due, nothing is orphaned |
| Restore.GrandchildCanBeOrphaned | go/action_kit_commons/network/netfault/snapshot.go:184-187 | a saved tree and a live root for which the replay does meet a missing parent |
| StopEvents.BufferIsRecent | go/action_kit_sdk/action_sdk.go:289-300 | the list holds exactly the last 101 events, in order |
| StopEvents.GateIsRecentlyStopped | go/action_kit_sdk/action_sdk.go:302-311 | an event is found iff one of the last 101 is for the execution |
| StopEvents.StopEventLog.MarkAsStopped | go/action_kit_sdk/action_sdk.go:289-300 | records the event and keeps the last 101 |
| StopEvents.StopEventLog.GetStopEvent | go/action_kit_sdk/action_sdk.go:302-311 | the oldest kept event of the execution, one of the last 101 with its reason |
| Lifecycle.EveryMonitorIsAccounted | go/action_kit_sdk/action_sdk.go:254-287 | in every interleaving each monitor is in the map, stopped, or owned by exactly one in-flight call |
| Lifecycle.NoMonitorLeaks | go/action_kit_sdk/action_sdk.go:254-287 | with no call in flight the running monitors are exactly those in the map that have not stopped, one per execution at most |
| Lifecycle.StopStopsTheMonitor | go/action_kit_sdk/action_sdk.go:280-287 | a stop, by request or by the extension, that finds a monitor of its execution in the map has it stopped, in every interleaving, unless the user's Stop failed in a stop by the extension |
| Lifecycle.MapFollowsHistory | go/action_kit_sdk/action_sdk.go:254-287 | the map holds the monitor installed last for each execution unless taken since; only monitors that were taken or ended are stopped |
| Lifecycle.CallsFinishWhatTheyBegan | go/action_kit_sdk/action_sdk.go:119-184 | a call that ended installed its monitor, answered or refused its request, or recorded its event and ran the user's Stop |
| Lifecycle.EveryCallBegan | go/action_kit_sdk/action_http_adapter.go:278-388 | every start, stop, status request and stop by the extension of a run is on record as a call |
| Lifecycle.CallsDoWhatTheyBeganFor | go/action_kit_sdk/action_http_adapter.go:278-388 | the user's Status runs only for status requests and Stop only for stop requests, or after the event is recorded; only starts, stop requests and successful stops by the extension take a monitor |
| Lifecycle.ListHoldsRecentMarks | go/action_kit_sdk/action_sdk.go:289-300 | over every run the list holds the last 101 marks in order |
| Lifecycle.CheckPassesIffNotRecentlyStopped | go/action_kit_sdk/action_http_adapter.go:286-297 | a request gets past the gate iff none of the last 101 marks is for its execution (also lines 370-379) |
| Lifecycle.StoppedExecutionsStayGated | go/action_kit_sdk/action_http_adapter.go:370-379 | after a mark, no check of that execution passes before more than 100 further marks |
| Lifecycle.CallbacksFollowTheirCheck | go/action_kit_sdk/action_http_adapter.go:278-388 | a request's callback runs only after its own check passed |

## Left out

- CondenseNetWithPortRange: coverage is stated for sound input, completeness for sound input in which neighbours suffice. A caller can check both; they are sufficient, not exact for the outcome: a join that hides an entry may never be queued, a lost entry may be covered by others, and a merge that is not queued at first may be queued later.
- RestoreSnapshot: interfaces come as a list in any order instead of a map, filters are not replayed, and `Replace` fails only for a missing parent or runtime counters.
- AddThenDeleteIsIdentity: the scripts are lists of commands, not text; families have separate tables, as iptables and ip6tables do.
- MergeIPNet: of the merge of an IPv4 with an IPv6 net only the unspecified base is modelled, not the mask, which is as long as the zero bits they share. IPv6 nets that begin with 80 zero bits and a one, among them IPv4 addresses in 16-byte form, are not modelled: their merge with an IPv4 net can have another base.
- The comment of an entry, which is only displayed.
- Packets without ports and ports 0 and 65535, which the any-port rule of tc matches and iptables does not.
- What the rules around the jumps in the built-in chains do to a packet before or after it reaches the attack chain.
- A new qdisc does not remove the previous occupant of its class in the live tree.
- The blackhole attack's `ip rule` order, the other tc attacks, conflict detection between attacks, preflight checks and command execution.
- Heartbeat recording and the timer inside a monitor: a monitor may end, and a timeout may start a stop, at any time.
- Persisted action state, HTTP parsing and file handling: a stop by signal or timeout may begin whether or not state is found.
