# k8gobgp reconciler: a Dafny model

k8gobgp runs one agent per node. It reads a `BGPConfiguration` and makes the node's gobgpd match it, by
listing what the daemon holds, deleting what is not wanted, adding what is missing and updating what a
comparator calls different. The daemon does not report what it was sent: it fills in defaults, derives
fields, redacts passwords and lets peer groups supply what their members omit. This project models the
reconciler, the daemon's answers, the comparators, the ownership and cleanup of configurations, netlink
export, router ID resolution and the node status reporter, and proves what they keep and where they stop.

`dafny verify dfyconfig.toml` checks everything.

## How the model is laid out

- `Messages`, `Converters`: API messages, custom resource types, and the conversion between them.
- `Echo`: what gobgpd reports for what it was sent. The daemon's defaults are symbolic, except the BFD
  ones, which the comparator hard-codes. `Comparators`: `peerConfigEqual`, `peerGroupConfigEqual` and theirs.
- `NoChurn`, `ChangeDetection`: the agreement of converter, echo and comparator, in both directions.
  `Effect`: the same from end to end, in the custom resource's own fields.
- `Desired`: which entries apply on a node and what is sent for them. `Outcome`: what a pass without failures
  shows for each entry.
- `Daemon`: gobgpd as a class that holds peers and groups as sent; `ListPeer` is a function of them.
  `Plans`: what a pass is asked for and what it leaves. `Reconciler`: `reconcilePeerGroups` and
  `reconcileNeighbors`, with failures anywhere. `Convergence`: repeated passes.
- `Cleanup`, `Tenure`, `Text`, `Election`, `Lifecycle`: deletion, what it leaves behind, ownership, and whole
  runs of one agent.
- `Netlink`: rule comparison, global and per-VRF passes.
- `RouterIdPool`, `NodeRetry`: generated router IDs and the wait for the node object.
- `Sorting`, `StatusComparison`, `RibReport`, `StatusWriter`: the node status reporter.

A daemon call can fail at any time unless the daemon is called healthy, and a call that reports an error may
still have taken effect; a healthy daemon refuses only by its own rules. These rules are: `AddPeer` refuses
an existing key; `UpdatePeer` and `DeletePeer` refuse an unknown one; a peer group with members cannot be
deleted, which controllers/roundtrip_gobgpd_test.go:372-376 says; `StartBgp` is refused while a speaker runs
and without an AS number. Whether deleting an unknown peer group is an error is not stated in the
repository, so it is a parameter. Fields that the test fakes drop
(`ipTos`, `staleRoutesTime`, and a group's policies, graceful restart and local address) are echoed as sent,
as are a rule's metric and communities. A block belongs to a neighbor exactly when its message is present
(controllers/bgpconfiguration_controller.go:348-352). Go map iteration is an arbitrary choice of the next key.

Some methods drive the modelled ones over several passes: `ReconcileRepeatedly`, `RetryNeighborStep`,
`DeleteUntilReleased`, the methods of `Tenure`, `Lifecycle.Agent.Run`,
`ReconcileNetlinkTwice` and `WriteAll` stand for the requeues and the reporting cycle, and
`LostReplyLeavesAStaleObject` is a scenario.

## Where the code does less than its comments, or than one would expect

- A field that a neighbor stops stating is a documented gap. It is not the only one: a neighbor that
  *starts* to state a timers block, with values already in effect, gives up its group's other timers, and
  nothing is sent (`ChangeDetection.ClaimingABlockCanBeUnseen`). `UnseenEditsAreInvisible` lists all the ways.
- controllers/bgpconfiguration_controller.go:268-273 says that nothing is to be detected where a group states
  no peer AS. An edit of a grouped member's peer AS is effective there, and never seen (`PeerAsnEdit`, and
  `GroupedPeerAsnEditIsLost` at an input).
- A timers block of zeros is ignored by the comparator but reported as the neighbor's own
  (`IgnoredExactlyWhenInherited`, and `ZeroTimersAreIgnoredUnreported` at an input).
- The blocks reported as inherited can be those of an earlier entry when two entries share a key
  (`InheritedReportIsExactIff`, and `ReplacedEntryIsStillReported` at an input).
- controllers/bgpconfiguration_controller.go:166-173 rules interface peers out of dynamic ranges, but the
  daemon reports their resolved link-local address, so a range that covers it keeps them
  (`DroppedInterfacePeerGoesIff`, and `LinkLocalRangeKeepsDroppedPeer` at an input).
- Cleanup looks before it deletes neighbors, but not before it deletes peer groups. Against a daemon that
  refuses to delete an unknown group, a spec that names a group is released by a clean first pass or never
  (`DeleteUntilReleased` has the exact condition, `RepeatedNeighborIsNeverReleased` an input).
- Cleanup walks the spec as it is when the object is deleted. A peer or group that an edit dropped and that was
  not reconciled away before then outlives its configuration (`Tenure.Configuration.Delete`, `DropThenDelete`).
- "Ownership never moves to a config created later" (controllers/bgpconfiguration_controller.go:749-751) holds
  for strictly later timestamps; an equal timestamp and a smaller name take ownership over
  (`AddingChangesOwnerIff`).
- Export rules that repeat a name with different contents are re-sent on every pass, and repeated with equal
  contents they can hide a rule that is not wanted (`PermutationMatchesIff`, `MatchesOnlyPermutationsIff`).
  VRF entries that repeat a name settle only when they are compatible (`VrfsSettleIff`).
- `writeStatus` can report success over a stale object after a lost reply (`LostReplyLeavesAStaleObject`).

## Model

| member | source | states |
|---|---|---|
| NoChurn.StoredPeerIsQuietIff | controllers/bgpconfiguration_controller.go:227-395 | Under every set of peer groups and every daemon defaults, a stored peer compares equal to its own report exactly when its sendCommunity has an encoding; its password presence never drifts |
| NoChurn.ConvertedNeighborNeverChurns | controllers/bgpconfiguration_controller.go:2968-3007 | A neighbor stored as converted never needs an UpdatePeer, whatever its group supplies or comes to supply |
| NoChurn.StoredGroupIsQuietIff | controllers/bgpconfiguration_controller.go:399-469 | The same equivalence for a peer group and its report |
| NoChurn.ConvertedGroupNeverChurns | controllers/bgpconfiguration_controller.go:2943-2963 | A group stored as converted never needs an UpdatePeerGroup |
| NoChurn.InheritedBlocksDoNotInterfere | controllers/bgpconfiguration_controller.go:363-393 | Replacing any of the inherited blocks of the report by anything leaves the comparison's answer |
| NoChurn.IgnoredExactlyWhenInherited | controllers/bgpconfiguration_controller.go:2288-2313 | For a grouped neighbor the comparator ignores a block if and only if the status names it, but for a timers block of zeros |
| NoChurn.ZeroTimersAreIgnoredUnreported | controllers/bgpconfiguration_controller.go:2299-2301 | A timers block of zeros: not among the inherited blocks, and a hold time of 30 and one of 60 both compare equal |
| ChangeDetection.DetectionIsExact | controllers/bgpconfiguration_controller.go:227-395 | No update is due if and only if every field the desired message states would come out as the daemon shows it now |
| ChangeDetection.FamiliesAreExact | controllers/bgpconfiguration_controller.go:488-515 | The family comparison is equality of the families and enabled flags, where the neighbor lists any |
| ChangeDetection.TimersAreExact | controllers/bgpconfiguration_controller.go:562-574 | The timers comparison sees exactly the non-zero timers, through defaulting and inheritance |
| ChangeDetection.RestartIsExact | controllers/bgpconfiguration_controller.go:627-649 | Likewise for graceful restart, through the derived restart time |
| ChangeDetection.BfdIsExact | controllers/bgpconfiguration_controller.go:3046-3093 | Comparing with the controller's own BFD defaults is comparing what the daemon would report |
| ChangeDetection.UnseenEditsAreInvisible | controllers/bgpconfiguration_controller.go:227-395 | An edit that passes unseen and still changes a field changes it in one of four listed ways |
| ChangeDetection.AsPathEdit | controllers/bgpconfiguration_controller.go:297-315 | Exactly when an edit of the three as-path fields, which share one presence signal, is seen, and exactly when it has an effect |
| ChangeDetection.TransportEdit | controllers/bgpconfiguration_controller.go:584-591 | The same for the transport block, whose omitted local address is not compared |
| ChangeDetection.RestartEdit | controllers/bgpconfiguration_controller.go:627-649 | The same for the graceful-restart block, whose omitted restart time is not compared |
| ChangeDetection.RestartTimeFollowsHoldTime | controllers/bgpconfiguration_controller.go:639-647 | A timers edit changes the restart time if and only if that is derived and the hold time comes out differently |
| ChangeDetection.ReflectorEdit | controllers/bgpconfiguration_controller.go:657-663 | Exactly when an edit of the route-reflector block is seen, and exactly when it has an effect |
| ChangeDetection.LocalAsnEdit | controllers/bgpconfiguration_controller.go:257-267 | The same for the local AS, which is not compared when omitted |
| ChangeDetection.DescriptionEdit | controllers/bgpconfiguration_controller.go:280-290 | The same for the description, which is compared when empty but not when omitted |
| ChangeDetection.FamiliesEdit | controllers/bgpconfiguration_controller.go:488-515 | The same for the address families, whose prefix limits and add-paths are not compared |
| ChangeDetection.PeerAsnEdit | controllers/bgpconfiguration_controller.go:268-279 | Exactly when a peer AS edit is seen, and exactly when it has an effect |
| ChangeDetection.GroupedPeerAsnEditIsLost | controllers/bgpconfiguration_controller.go:268-279 | In a group without a peer AS an edit from 64512 to 64513 would have an effect and is not seen |
| ChangeDetection.ClaimingTimers | controllers/bgpconfiguration_controller.go:562-574 | Exactly when starting to state timers is seen, and exactly when it has an effect |
| ChangeDetection.ClaimingABlockCanBeUnseen | controllers/bgpconfiguration_controller.go:348-352 | A concrete edit that starts to state a block, changes the hold time from 30 to 90, and is not seen |
| Effect.QuietIffShown | controllers/bgpconfiguration_controller.go:227-395 | For every neighbor, password, held peer, groups and defaults: converted and compared with the report, no update is due if and only if the report shows each field the neighbor states, spelled out field by field, and zero blocks where neither it nor a group states one |
| Effect.ConvertedNeighborShows | controllers/bgpconfiguration_controller.go:2968-3007 | What is sent for a neighbor makes the daemon show every field it states under any groups, and carries the password, the prefix limits and the add-paths, which no comparison sees |
| Effect.OmittedIsInherited | README.md:305-322 | What a neighbor omits comes from its group, and the daemon where that omits it too: the group wins on peer AS, one stated as-path field claims all three, one timer claims all, the other blocks go as a whole, and an unstated password is the group's |
| Effect.GroupQuietIffShown | controllers/bgpconfiguration_controller.go:399-469 | The same equivalence for a peer group: no update is due if and only if the report shows each of its fields |
| Effect.ConvertedGroupShows | controllers/bgpconfiguration_controller.go:2943-2963 | What is sent for a group makes the daemon report every field it states, and carries password, limits and add-paths |
| Effect.GroupDetectionIsExact | controllers/bgpconfiguration_controller.go:399-469 | No group update is due if and only if each field that the desired group states comes out in its own report as in the daemon's present one |
| Desired.AdmissionIs | controllers/bgpconfiguration_controller.go:2060-2101 | A neighbor entry is refused exactly when its selector cannot be looked up or it applies and its Secret has no such key, and taken exactly when it applies and has a password; then with that of the Secret, or else the inline one |
| Desired.DesiredNeighborsAre | controllers/bgpconfiguration_controller.go:2060-2101 | The desired peers fail exactly when an entry is refused, and otherwise hold for each key exactly the message of the last entry that applies on the node, and no other key |
| Desired.GroupAdmissionGives | controllers/bgpconfiguration_controller.go:1976-2004 | The same for a group entry |
| Desired.DesiredGroupsAre | controllers/bgpconfiguration_controller.go:1976-2004 | The same for the desired groups, by name |
| Outcome.SettledShows | controllers/bgpconfiguration_controller.go:2042-2172 | A settled daemon shows, for each key, what the last entry that applies states, and holds exactly the keys so named and the earlier peers whose reported address a range contains |
| Outcome.SettledGroupsShow | controllers/bgpconfiguration_controller.go:1961-2040 | A settled daemon reports each desired group with every field it states, drifted or not before |
| Plans.InheritedReportIsExactIff | controllers/bgpconfiguration_controller.go:2096-2100 | The blocks handed to the reporter are those of the sent peers if and only if no inheriting entry is replaced by one that inherits nothing |
| Plans.ReplacedEntryIsStillReported | controllers/bgpconfiguration_controller.go:2060-2100 | Two entries of one address, the first grouped and the second not: nothing is inherited and all six blocks are reported |
| Plans.DroppedInterfacePeerGoesIff | controllers/bgpconfiguration_controller.go:166-190 | An interface peer that leaves the spec is gone after a pass if and only if no range covers the link-local address it is reported with |
| Plans.LinkLocalRangeKeepsDroppedPeer | controllers/bgpconfiguration_controller.go:166-190 | With the range fe80::/10, a dropped interface peer at fe80::1 is kept in every pass |
| Plans.DeletingShrinksWork | controllers/bgpconfiguration_controller.go:2117-2139 | Deleting an unwanted peer removes exactly one key from the work |
| Plans.SendingShrinksWork | controllers/bgpconfiguration_controller.go:2141-2163 | So does sending a missing or drifted one |
| Plans.SettledIsQuiet | controllers/bgpconfiguration_controller.go:2117-2163 | After a pass there is no work, a further pass changes nothing, and the keys are the desired and the kept ones |
| Plans.QuietIffSettled | controllers/bgpconfiguration_controller.go:2117-2163 | There is no work if and only if the daemon already is what a pass would make of it |
| Plans.SettledGroupsWork | controllers/bgpconfiguration_controller.go:2007-2038 | After a group pass the only work left is the unwanted groups that had members |
| Reconciler.BGPConfigurationReconciler.IsDynamicallyAcceptedPeer | controllers/bgpconfiguration_controller.go:174-190 | True if and only if some range contains the reported address |
| Reconciler.BGPConfigurationReconciler.BuildDesiredNeighbors | controllers/bgpconfiguration_controller.go:2060-2101 | The loop builds the specified desired map and inherited blocks, and fails exactly when the specification does |
| Reconciler.BGPConfigurationReconciler.DeleteUnwantedNeighbors | controllers/bgpconfiguration_controller.go:2117-2139 | Only unwanted listed peers go, whatever fails and whichever replies are lost, and the work falls by one with each effective call |
| Reconciler.BGPConfigurationReconciler.SendNeighbors | controllers/bgpconfiguration_controller.go:2141-2163 | Only desired peers are written, each as desired, and the work falls by one with each effective call, answered or not |
| Reconciler.BGPConfigurationReconciler.ReconcileNeighbors | controllers/bgpconfiguration_controller.go:2042-2172 | Under any failures, lost replies and truncated lists no wanted or kept peer is lost, every peer is as before or as desired, and effective calls equal work done; an error means that nothing was written; without failures the peers are settled after exactly as many calls as there was work, and the daemon shows for each key what the last entry that applies states |
| Reconciler.BGPConfigurationReconciler.ReconcilePeerGroups | controllers/bgpconfiguration_controller.go:1961-2040 | The same for groups: no desired group and none with members is lost, and without failures the calls are exactly the work and every wanted group is reported with each field it states |
| Convergence.NeighborsSettleInOnePass | controllers/bgpconfiguration_controller.go:2042-2163 | From any state one pass over groups and neighbors leaves nothing for the neighbors of the next |
| Convergence.TwoPassesConverge | controllers/bgpconfiguration_controller.go:1961-2172 | From any state the third pass changes nothing and issues one refused call for each unwanted group that a kept peer holds |
| Convergence.QuietAfterTwoPassesIff | controllers/bgpconfiguration_controller.go:1961-2172 | After two passes a pass issues no call if and only if no kept peer that nothing asks for sits in an unwanted group |
| Convergence.ReconcilePeers | controllers/bgpconfiguration_controller.go:878-899 | The two functions run in sequence make the specified pass with the specified number of calls |
| Convergence.RunsSettle | controllers/bgpconfiguration_controller.go:1961-2172 | For any number of passes, the state from the second on and the total of calls |
| Convergence.ReconcileRepeatedly | controllers/bgpconfiguration_controller.go:878-899 | n reconciles of an unedited configuration end in the state after two, with that total of calls |
| Cleanup.NothingLeftToRepeat | controllers/bgpconfiguration_controller.go:1079-1116 | A neighbor step over absent peers has nothing to report |
| Cleanup.NoRepeatsIff | controllers/bgpconfiguration_controller.go:1079-1116 | The first neighbor step reports no error if and only if no present peer is named twice |
| Cleanup.NoRefusalsIff | controllers/bgpconfiguration_controller.go:1126-1132 | The group step reports no error if and only if every named group is memberless and, for a strict daemon, present and named once |
| Cleanup.CleanupReconciler.ListPeerKeys | controllers/bgpconfiguration_controller.go:196-212 | Success means exactly the daemon's keys; a stream that breaks off is an error |
| Cleanup.CleanupReconciler.CleanUpNeighbors | controllers/bgpconfiguration_controller.go:1079-1116 | Only named peers go; no error means none is left; without failures the errors are exactly the repeats |
| Cleanup.CleanupReconciler.CleanUpGroups | controllers/bgpconfiguration_controller.go:1126-1132 | Only named groups go; no error means none is left; without failures the errors are exactly the refusals |
| Cleanup.CleanAtOnceIff | controllers/bgpconfiguration_controller.go:1079-1132 | A first cleanup without failures reports no error if and only if no present peer is named twice, no named group has an unnamed member and, for a strict daemon, each named group is present and named once |
| Cleanup.RetriesAreAlike | controllers/bgpconfiguration_controller.go:1088-1132 | A pass over what an earlier one left repeats nothing, and refuses nothing if and only if no named group has members and a strict daemon is asked for none |
| Cleanup.RepeatedNeighborIsNeverReleased | controllers/bgpconfiguration_controller.go:1126-1132 | For a strict daemon, a present neighbor named twice beside one group makes a configuration that no retry releases |
| Cleanup.CleanupReconciler.ReconcileDelete | controllers/bgpconfiguration_controller.go:1059-1227 | The finalizer goes exactly when nothing failed that is recorded and the update succeeded, and then nothing the spec names is left; only named things ever go; netlink failures neither block nor count, and netlink that the spec does not name stays; without failures the pass runs, with exactly the repeats and refusals as errors, and disables exactly the netlink import and export that were on and named |
| Cleanup.CleanupReconciler.DeleteUntilReleased | controllers/bgpconfiguration_controller.go:1059-1227 | Any number of retries: a release leaves exactly what the spec does not name; without failures the named netlink is off after any pass, the first pass releases if and only if it is clean, and two or more if and only if the configuration is cleanable; a strict daemon that lacks a named group never releases, whatever fails |
| Cleanup.CleanupReconciler.RetryNeighborStep | controllers/bgpconfiguration_controller.go:1088-1116 | Over any number of retries, every neighbor step but the first is without errors |
| Tenure.DesiredAreNamed | controllers/bgpconfiguration_controller.go:2060-2101 | Every peer a reconcile wants is named in the spec it reconciles |
| Tenure.Configuration.Reconcile | controllers/bgpconfiguration_controller.go:878-899 | Without failures a reconcile succeeds exactly when the intent wants something definite, and then is one pass towards it; always, what is held was held or is sent |
| Tenure.Configuration.Live | controllers/bgpconfiguration_controller.go:878-899 | Over any edits and reconciles: the last edit is the intent, what was sent lies between what a healthy daemon was asked for and all that was wanted, and nothing else is held that was not before |
| Tenure.Configuration.Delete | controllers/bgpconfiguration_controller.go:1106-1132 | At release no peer or group ever sent is left if and only if every sent one still held is named in the last spec; without failures released if and only if cleanable |
| Tenure.Configuration.ReconcileThenDelete | controllers/bgpconfiguration_controller.go:1106-1132 | Without failures, released if and only if cleanable in the state the last pass leaves, and then only unnamed peers that a dynamic range covers are held |
| Tenure.Configuration.DropThenDelete | controllers/bgpconfiguration_controller.go:1106-1132 | Peers and groups that an unreconciled edit drops stay as they are, while the configuration is released if and only if cleanable, and always when its last spec names no group |
| Text.LessIsTransitive | controllers/bgpconfiguration_controller.go:772-775 | The string order is transitive |
| Text.LessIsTotal | controllers/bgpconfiguration_controller.go:772-775 | The string order is total |
| Text.LessIsLexicographic | controllers/bgpconfiguration_controller.go:772-775 | One string is less if and only if, after a common prefix, it ends first or has the smaller character |
| Election.PrecedesIsTransitive | controllers/bgpconfiguration_controller.go:768-776 | configPrecedes is transitive |
| Election.PrecedesIsTotal | controllers/bgpconfiguration_controller.go:768-776 | Of two configurations with different names exactly one precedes the other |
| Election.ElectOwningConfig | controllers/bgpconfiguration_controller.go:754-762 | For any list order: the one configuration that precedes all others, or none for an empty list |
| Election.OwnerIsUnique | controllers/bgpconfiguration_controller.go:749-751 | Agents that see the same configurations elect the same owner |
| Election.SomeoneOwns | controllers/bgpconfiguration_controller.go:754-762 | Wherever there is a configuration there is an owner |
| Election.AddingChangesOwnerIff | controllers/bgpconfiguration_controller.go:744-776 | A new configuration takes ownership if and only if it precedes the owner: when strictly earlier always, when strictly later never, and on a tie if its namespace, or in one namespace its name, is smaller |
| Election.RemovingOthersKeepsOwner | controllers/bgpconfiguration_controller.go:744-762 | Removing any non-owners leaves the owner, and only it |
| Lifecycle.CleanupComesBetween | controllers/bgpconfiguration_controller.go:1194-1223 | In an orderly history, writes for two configurations have a cleanup without errors of the first between them |
| Lifecycle.OneRouterIdEach | controllers/bgpconfiguration_controller.go:1578-1622 | All that is applied for one configuration is applied under one router ID |
| Lifecycle.HolderWrites | controllers/bgpconfiguration_controller.go:797-831 | A write by the owner with a finalizer, under the right identity, keeps the run's invariant |
| Lifecycle.HolderCleanedUp | controllers/bgpconfiguration_controller.go:1194-1223 | A cleanup without errors leaves nothing unclean, and then the cached router ID may be dropped |
| Lifecycle.Agent.IsOwned | controllers/bgpconfiguration_controller.go:798-806 | The election answers for a configuration exactly whether it is the owner |
| Lifecycle.Agent.ResolveEffectiveRouterID | controllers/bgpconfiguration_controller.go:1578-1678 | A cached router ID is returned and kept; a new one is cached |
| Lifecycle.Agent.ReconcileGlobal | controllers/bgpconfiguration_controller.go:1343-1437 | Success means that the running speaker has the cached router ID and the configuration's non-zero AS number |
| Lifecycle.Agent.ReconcileDelete | controllers/bgpconfiguration_controller.go:1194-1223 | An object is let go only directly after its cleanup began and ended without errors, and then has no unclean writes |
| Lifecycle.Agent.DeleteIgnoredConfig | controllers/bgpconfiguration_controller.go:1043-1056 | Lets go of a configuration that is not the owner without touching daemon, cache or history |
| Lifecycle.Agent.Reconcile | controllers/bgpconfiguration_controller.go:778-899 | Nothing is done to the daemon for anyone but the owner, nor by an owner whose spec is invalid; without failures a deleted object of another is let go, an owner first gets its finalizer and nothing else, then the seven phases in their order if the identity fits, and a deleted owner goes only right after a cleanup without errors |
| Lifecycle.Agent.Run | controllers/bgpconfiguration_controller.go:778-899 | Over any run with any failures: every existing configuration that ever wrote is the current owner and has a finalizer; every write of one that is not the owner now was followed by its cleanup without errors, so ownership moved only after that; histories are exclusive; everything is applied under the identity resolved once; and nothing is resolved, started or applied for a spec that the checks refuse |
| Netlink.NetlinkExportRulesMatch | controllers/bgpconfiguration_controller.go:2731-2781 | True if and only if the lists have one length and each desired rule, with unset validateNexthop as true, is the last current one of its name |
| Netlink.RulesMatchIffPermutation | controllers/bgpconfiguration_controller.go:2731-2781 | With distinct desired names, a match if and only if the current rules are a permutation of the desired ones |
| Netlink.PermutationMatchesIff | controllers/bgpconfiguration_controller.go:2731-2781 | Rules compare equal to themselves, in any order, if and only if equal names mean equal rules |
| Netlink.RepeatedNamesCanHideARule | api/v1/types.go:78-80 | A repeated desired name makes a match that is no permutation |
| Netlink.MatchesOnlyPermutationsIff | controllers/bgpconfiguration_controller.go:2731-2781 | Every match is a permutation if and only if the desired names are distinct, or repeat with different contents so that nothing matches |
| Netlink.ExportSettlesIff | controllers/bgpconfiguration_controller.go:2414-2496 | After a pass the export is in order if and only if nothing had to be enabled or equal names mean equal rules, through the daemon's defaults |
| Netlink.VrfSettlesIff | controllers/bgpconfiguration_controller.go:2548-2704 | What one entry's calls leave needs no call for another if and only if the two are compatible, as an entry is with itself, through name default, table lookup and polarity flip |
| Netlink.VrfsSettleIff | controllers/bgpconfiguration_controller.go:2541-2653 | After a pass over any entries, names repeated or not, the VRFs need no call if and only if each entry is compatible with the last due one of its VRF |
| Netlink.EntriesSettleTogetherIff | controllers/bgpconfiguration_controller.go:2541-2653 | Some state that an enable can leave needs no call for either of two entries if and only if they agree on every compared field |
| Netlink.NoVrfCallsIff | controllers/bgpconfiguration_controller.go:2541-2653 | A pass over the VRFs issues no call if and only if every entry is in order |
| Netlink.ImportQuietIffInForce | controllers/bgpconfiguration_controller.go:2364-2384 | The import needs no call if and only if what runs is what the spec states: on with its VRF and interfaces, or off |
| Netlink.ExportPassInForce | controllers/bgpconfiguration_controller.go:2414-2496 | After a pass the export in force is the one stated: interval and protocol where given, each rule among those in force with nexthop validation on unless switched off, and no others where names are distinct |
| Netlink.VrfQuietIffInForce | controllers/bgpconfiguration_controller.go:2541-2704 | An entry needs no call if and only if its VRF imports and exports what it states, field by field |
| Netlink.NetlinkReconciler.ReconcileVrfNetlink | controllers/bgpconfiguration_controller.go:2507-2653 | Unnamed VRFs are as before, whatever fails; without failures exactly the calls due against the states read first, every VRF as its last due entry leaves it, and all entries in force field by field if and only if they are compatible |
| Netlink.NetlinkReconciler.ReconcileNetlink | controllers/bgpconfiguration_controller.go:2344-2504 | Success means that the import and export in force are those the spec states, field by field, the export rules as a permutation where names are distinct; whatever fails, each is that or as before, and unnamed VRFs are as before; without failures it succeeds, with all VRF entries in force if and only if they are compatible, after exactly the calls that were due |
| Netlink.NetlinkReconciler.ReconcileNetlinkTwice | controllers/bgpconfiguration_controller.go:2344-2504 | The second pass issues no Enable or Disable if and only if no export with conflicting rule names had to be enabled and the VRF entries are compatible, as those with distinct names are |
| RouterIdPool.UsableAddresses | controllers/router_id_resolution.go:420-431 | The modulus is the pool size less two for every prefix length up to 24, for /0 by way of truncation and wrap-around |
| RouterIdPool.GeneratedIsUsable | controllers/router_id_resolution.go:404-439 | The network address is the multiple of the pool size just below the pool's address; for every hash and pool the ID lies strictly between network and broadcast address, and the addition does not wrap |
| RouterIdPool.EveryUsableIsGenerated | controllers/router_id_resolution.go:426-437 | Every usable address of the pool is the ID of some hash |
| RouterIdPool.AcceptedIffGenerates | controllers/router_id_resolution.go:404-518 | A stated pool passes validation if and only if it yields an ID, for any hash, and if and only if it is IPv4 text with a prefix of at most 24 bits |
| NodeRetry.NodeCache.Get | controllers/router_id_resolution.go:109-124 | A hit is no older than the lifetime, and an expired entry is evicted |
| NodeRetry.DeadlineAfterFourteenWaits | controllers/router_id_resolution.go:45-49 | Thirteen waits fit before the deadline, fourteen do not |
| NodeRetry.BackoffNeverShrinks | controllers/router_id_resolution.go:44-49 | The delays stay between one second and thirty and never shrink |
| NodeRetry.NodeReader.AwaitNode | controllers/router_id_resolution.go:233-276 | At most fifteen reads, with those delays between them; the first read with addresses is returned, after the deadline any last read, and nothing only after an interrupted wait |
| NodeRetry.NodeReader.GetNodeWithRetry | controllers/router_id_resolution.go:223-284 | No read if and only if the cache has a fresh entry, which is returned; otherwise as the loop answers, and a node found is cached |
| Sorting.SortedIsUnique | controllers/bgpnodestatus_reporter.go:1238-1243 | Where the key identifies the elements, an unstable sort still has one result |
| StatusComparison.StringSlicesEqual | controllers/bgpnodestatus_reporter.go:1391-1410 | Exactly multiset equality |
| StatusComparison.SortedComparison | controllers/bgpnodestatus_reporter.go:1238-1266 | Comparing sorted lists view by view is comparing multisets of views, in both directions where keys identify |
| StatusComparison.NeighborsEqual | controllers/bgpnodestatus_reporter.go:1231-1267 | With distinct addresses, success if and only if the lists are permutations on the compared fields; in general success means that, and conversely where neighbors of one address look the same |
| StatusComparison.RibRoutesEqual | controllers/bgpnodestatus_reporter.go:1314-1344 | The same for routes and prefixes, with advertisedTo and communities as multisets |
| StatusComparison.StatusEqual | controllers/bgpnodestatus_reporter.go:1017-1044 | Success means equality on the compared fields in any list order, and conversely where lists are identified |
| StatusComparison.SameStatusMeans | controllers/bgpnodestatus_reporter.go:1017-1344 | Statuses that count as equal agree on each compared field, neighbor by neighbor and route by route |
| StatusComparison.AgreementIsSame | controllers/bgpnodestatus_reporter.go:1017-1344 | And agreement on those fields is enough, whatever else differs |
| StatusComparison.OrderDoesNotMatter | controllers/bgpnodestatus_reporter.go:1017-1044 | Permuting neighbors and routes leaves a status the same |
| RibReport.NoteAdjOut | controllers/bgpnodestatus_reporter.go:678-686 | One neighbor's adj-out, in any order, marks exactly the indexed routes it holds |
| RibReport.ReportIsDetermined | controllers/bgpnodestatus_reporter.go:663-690 | The report of a route does not depend on the order of the neighbors, even with repeated addresses |
| RibReport.LocalRoutesAre | controllers/bgpnodestatus_reporter.go:612-647 | One local route for each usable path that came from netlink, or that is best and was sent by no peer, in table order, and for no other |
| RibReport.ReceivedRoutesAre | controllers/bgpnodestatus_reporter.go:612-647 | One received route, from its neighbor, for each other usable best path, in table order |
| RibReport.ReportCountsNeighbors | controllers/bgpnodestatus_reporter.go:652-693 | The count is the number of established neighbors whose adj-out holds the prefix; the sample is sorted, of such neighbors only, as long as the cap allows, and no neighbor left out precedes a listed one |
| RibReport.NoteAdvertisements | controllers/bgpnodestatus_reporter.go:652-693 | Every local route is reported so; truncated if and only if some count exceeds the cap |
| RibReport.CollectRibStatus | controllers/bgpnodestatus_reporter.go:585-712 | Routes classified as specified, counts before the caps of 500, 100 and 16, and truncated if and only if some cap cut something |
| StatusWriter.BGPNodeStatusReporter.WriteStatus | controllers/bgpnodestatus_reporter.go:869-921 | A success leaves the object equal to what was collected if and only if it wrote or the object equals what was last acknowledged; what is written is the collected status with the time of the write and the heartbeat; a skip happens only before the heartbeat and only for an unchanged status |
| StatusWriter.BGPNodeStatusReporter.WriteAll | controllers/bgpnodestatus_reporter.go:869-921 | The same over any sequence of cycles with any faults, where object and acknowledgement differ only between a lost reply and the next success that writes; and as long as no call fails, the object at the end of a cycle shows an update less than a heartbeat ago |
| StatusWriter.BGPNodeStatusReporter.LostReplyLeavesAStaleObject | controllers/bgpnodestatus_reporter.go:880-919 | A status written, a different one whose reply is lost, the first one again: a success without a write, over the second |

## Left out

- Dialing, Kubernetes client calls, Secrets beyond their lookup, events, logs, metrics and the readiness probe: I/O, kept as failure flags and parameters.
- Label selectors, CIDR text, prefix containment, regular expressions and FNV-1a: abstract functions or arbitrary values.
- The nil `Conf` branch of the comparators: neither converter nor ListPeer produces one.
- Defined sets, policies, VRF contents, dynamic neighbors and the global drift report: each is a list-and-diff of the same shape, with easier comparators. In a run they are phases that may fail.
- Names of address families, enum ordinals of policy statements and community validation: lookup tables.
- Cleanup on other nodes, which share the finalizer, and restarts of the agent or of gobgpd: the runs are those of one agent and one daemon that stay up.
- Runs whose creation timestamps tie: `AddingChangesOwnerIff` says what a tie does.
- Sleeps that take longer than asked: the jitter before a status write is the bound that the source computes. The waits for the node object may take longer.
- Cached reads that lag behind the API server: Reconcile reads one consistent state.
- ChangeDetection.UnseenEditsAreInvisible: the four ways are necessary, not sufficient; what is seen and what has an effect is exact in DetectionIsExact and, field by field or block by block, in the lemmas PeerAsnEdit, LocalAsnEdit, DescriptionEdit, AsPathEdit, FamiliesEdit, ClaimingTimers, TransportEdit, RestartEdit and ReflectorEdit.
- StatusComparison.StatusEqual: nothing is said of inheritedBlocks, bfdServer, conditions and the overall truncation flag, which the source does not compare.
- RibReport.CollectRibStatus: the tables of the address families are one list, and a neighbor's adj-out is one set that does not change during a collection.
- A reconciler without a node cache: it reads as with an empty one.
- Template and explicit router IDs: easy cases of ResolveRouterID; a run takes any resolved value or failure.
- Netlink effects on the kernel, and what cleanup leaves there when a disable fails.
