# NovaNet management plane: a Dafny model

NovaNet is a Kubernetes network: an agent on each node hands out pod addresses and security
identities, wires pods up, and keeps the kernel dataplane in step with the cluster. This
project models the parts of the agent that carry state and proves what they promise over
whole runs. Every module names the Go file it follows.

| file | what it models |
|---|---|
| `Bitmap.dfy`, `Ipam.dfy` | the address pool: a word array refining a finite set of indices, the `used` counter, reserved addresses, rollback and the state directory |
| `IpamRuns.dfy` | the same pool one file operation or bitmap update at a time, with failed writes, failed removes and crashes at any point |
| `Labels.dfy`, `Separators.dfy`, `Identity.dfy` | canonical label strings, what they identify, and the identity allocator with linear probing and reference counts, for every hash |
| `PodProtocol.dfy` | AddPod and DelPod as a concurrent protocol: each mutex-protected call is one step, requests interleave, network setup may fail |
| `PodDataplane.dfy` | that protocol with the dataplane's endpoint table and the calls still to come |
| `PodRaces.dfy` | runs that end with a wrong endpoint table or a lost address |
| `PodServer.dfy` | the two handlers as methods over the two allocators, tied by a ghost trace to the protocol |
| `EgressManager.dfy`, `EgressSync.dfy`, `EgressGateway.dfy` | the egress rule store, the diff-based sync of compiled policies, and the gateway reconciler; that the last two share one store is an assumption |
| `HostFirewall.dfy` | compiling host policies to flat rules, and the flat rule map |
| `TcpLatency.dfy`, `TcpRefusals.dfy` | the bounded, evicting SYN to SYN-ACK tracker, and what its bound costs |
| `Slots.dfy`, `ServiceSlots.dfy` | the first-fit slot allocator and the service watcher's use of it |
| `Probing.dfy`, `Maglev.dfy` | cyclic probe sequences and Maglev lookup tables |
| `Prelude.dfy`, `Text.dfy` | shared definitions; Go string order, `sort.Strings`, `%d` and splitting at a separator |

The imperative code is written as classes and methods with loops. Each is proved against a
function or relation on values, and the run-level theorems are proved about those. The clock,
the label hash, `net.ParseCIDR`, the order of Go map iteration and the outcome of every file
operation, network setup and dataplane call are parameters, so the theorems hold for all of
them.

## Promises that do not hold as stated

Each of these is kept as the code has it, shown by a lemma, and given the condition under
which it does hold.

- `Gateway()` is index 1 for both families, but IPv6 sets aside index 0 only: a fresh IPv6
  pool hands its gateway address to the first caller (`GatewaySafeIffIPv4`).
- A restart rebuilds the same bitmap unless a failed write or remove left a file behind
  (`ReloadIsExact`, in both directions); one failed write does (`FailedWriteLeavesFile`).
- "The same set of labels always produces the same ID" (identity/allocator.go:45-49) holds
  over all runs exactly for hashes that separate the label sets (`DeterministicIffInjective`,
  `SameLabelsTwoIds`).
- Canonical strings do not escape their separators (`CommaCollides`). They identify the label
  sets with keys in one alphabet and values in another if and only if neither `=` nor `,` is in
  both, keys do not have both, and values do not have both unless they share no character with
  keys (`CanonicalInjectiveIff`); the same condition decides whether ids tell label sets apart
  (`IdsSeparateLabelSetsIff`). Kubernetes labels have neither separator and satisfy it.
- AddPod over an existing endpoint loses the old address and identity for good; nothing is
  lost exactly in runs where that does not happen (`OrphanIffOverwrite`,
  `OrphansAreForever`; `OverwriteReachable` is such a run). Addresses reloaded at start are never given back either
  (`ReloadedIsForever`).
- DelPod releases the address before it calls the dataplane. An AddPod that overtakes that
  call ends up unknown to the dataplane exactly if it was given the same address
  (`LateDropLosesPod`); a push that comes after the delete leaves an entry for no pod
  (`LatePushRevivesPod`). Both happen in short runs from the start (`LateDropReachable`,
  `LatePushReachable`). The table is exact at rest if every call succeeds and each push comes
  while its endpoint has the address and no removal of the address is pending, or while neither
  is the case (`TableExact`); all other steps may interleave freely.
- Identities are cut to 32 bits on the wire. A sync leaves the wanted egress table if and only
  if no key it deletes meets a wanted key there and the table has nothing beyond those keys
  (`SyncExactIff`). Over runs without failures only the last two lists matter
  (`HistoryIndependent`), and such lists exist for every rule (`AliasedRun`).
- A delete that fails is forgotten: the stale egress entry stays until a later list has it
  again and a later sync drops it (`ForgottenRun`, `UntrackedStays`, `DroppedOnceListedAgain`).
- A policy sync prunes the rule store by identity and destination, whoever filed the rules. The
  repository does not construct a gateway reconciler; if it is given the same store, a gateway
  policy survives a sync exactly if the list covers it (`SyncKeepsPolicyIff`).
- Deleting gateway policy `a` can remove rules of policy `b` exactly when one name followed by
  `-` starts the other (`ReachesIffConfusable`), and leaves `b` intact exactly if no rule name of
  `b` has the prefix of `a` (`DeleteKeepsPolicyIff`).
- Applying the compiled rules of a policy that has become empty leaves its old rules in force
  (`EmptiedPolicyKeepsRules`, `EmptiedRun`). The comment on `ApplyRules` says that it replaces them.
- A Maglev table at offset 0 is never freed: it is lost exactly when the service that has it is
  first deleted or reconciled again (`LostIffGivenUp`), and with the Maglev algorithm that is
  the first service that has backends and room for them (`FirstTableIsLost`).
- A full tracker refuses SYNs, which changes the samples exactly for those answered within the
  window (`RefinesIdealIffLate`; `RefinesIdealIff` when events may share a time), and a run does
  so (`FloodLosesSample`).

## Model

| member | source | states |
|---|---|---|
| `Bitmaps.Bitmap.constructor` | internal/ipam/bitmap.go:11-17 | a new bitmap denotes the empty set of indices |
| `Bitmaps.BitUpdates` | internal/ipam/bitmap.go:20-38 | setting or clearing one bit of a 64-bit word changes the test of that bit and of no other |
| `Bitmaps.UpdateOneBit` | internal/ipam/bitmap.go:20-31 | updating one word of the array changes the membership of exactly one index, across words |
| `Bitmaps.Bitmap.Set` | internal/ipam/bitmap.go:20-24 | the denoted set gains exactly the index |
| `Bitmaps.Bitmap.Clear` | internal/ipam/bitmap.go:27-31 | the denoted set loses exactly the index |
| `Bitmaps.Bitmap.Get` | internal/ipam/bitmap.go:34-38 | true exactly for the members of the denoted set |
| `Bitmaps.Bitmap.FindFree` | internal/ipam/bitmap.go:41-57 | the least index below `size` outside the set, or -1 if and only if the set is full, also when `size` is not a multiple of 64 |
| `Ipam.ContainsIffIndexed` | internal/ipam/allocator.go:182-189 | an address is in the CIDR exactly when its offset is an index of the pool, and then the two conversions are inverse; the out-of-range error is unreachable |
| `Ipam.Config.Gateway` | internal/ipam/allocator.go:269-271 | the network address plus one, for both families |
| `Ipam.Allocator.Reserve` | internal/ipam/allocator.go:118-133 | the bitmap becomes the reserved indices and the counter their number |
| `Ipam.Allocator.New` | internal/ipam/allocator.go:75-146 | which of the three errors occurs and exactly when; otherwise the bitmap is the reserved indices and those with a file, whatever the listing order and other entries, and the counter is its size |
| `Ipam.Allocator.LoadState` | internal/ipam/allocator.go:284-313 | the bitmap gains exactly the in-range indices the listing names; repeated and foreign entries do not disturb the counter |
| `Ipam.StateDir.Save` | internal/ipam/allocator.go:316-319 | a write that succeeds creates the file; one that fails may or may not leave it |
| `Ipam.StateDir.Remove` | internal/ipam/allocator.go:330-338 | the file goes, or stays when the removal fails |
| `Ipam.Allocator.Allocate` | internal/ipam/allocator.go:149-173 | returns the least free address; when the pool is full or the write fails the bitmap and counter are as before, and the file may remain |
| `Ipam.Allocator.AllocateSpecific` | internal/ipam/allocator.go:176-207 | each error exactly under its condition; succeeds exactly for a free address of the CIDR whose file is written, and then only that index is added |
| `Ipam.Allocator.Release` | internal/ipam/allocator.go:210-251 | each error exactly under its condition, per reserved address; succeeds exactly for an allocated unreserved address, and then only that index and possibly its file go |
| `Ipam.Allocator.Available` | internal/ipam/allocator.go:262-266 | the number of indices that are free in the bitmap, not only what the counter says |
| `IpamRuns.AllocateAsRun` | internal/ipam/allocator.go:149-173 | the method is the run claim, save, roll back of the step machine, with the same outcome and address |
| `IpamRuns.AllocateSpecificAsRun` | internal/ipam/allocator.go:176-207 | the method is the run claim, save, roll back, with the same outcome |
| `IpamRuns.ReleaseAsRun` | internal/ipam/allocator.go:210-251 | the method is the run release, remove, and succeeds exactly when the machine releases |
| `IpamRuns.StepConsistent` | internal/ipam/allocator.go:149-251 | every single step keeps the reserved indices set, the counter equal to the number of set bits and the index in progress accounted for |
| `IpamRuns.RunInvariant` | internal/ipam/allocator.go:149-251 | over every run with failures and crashes that invariant holds, and every index a caller holds has its bit and its file |
| `IpamRuns.NoDoubleGrant` | internal/ipam/allocator.go:149-251 | between two grants of one address there is a release of it that takes effect, not merely an attempt, whatever writes and removes fail and wherever crashes fall |
| `IpamRuns.StaysHeld` | internal/ipam/allocator.go:149-251 | an address stays held until a release of it takes effect, across restarts |
| `IpamRuns.ReservedForever` | internal/ipam/allocator.go:118-133 | over every run and restart a reserved address is set, is never granted and is never accepted for release; the counter equals the number of set bits |
| `IpamRuns.GatewaySafeIffIPv4` | internal/ipam/allocator.go:118-133 | no run ever grants the gateway address if and only if the pool is IPv4 |
| `IpamRuns.FirstIPv6Grant` | internal/ipam/allocator.go:269-271 | the first Allocate of a fresh IPv6 pool grants the address that Gateway reports |
| `IpamRuns.ReloadIsExact` | internal/ipam/allocator.go:284-338 | over every run, a restart between calls gives the old bitmap plus exactly the files left behind by failed writes and removes; it gives the same bitmap and counter if and only if there are none |
| `IpamRuns.FailedWriteLeavesFile` | internal/ipam/allocator.go:316-319 | in every fresh pool one Allocate whose write fails after creating the file makes the next restart take the address |
| `IpamRuns.NoFailureNothingLeft` | internal/ipam/allocator.go:316-338 | without a failed remove and a write that fails after creating its file nothing is left behind, whatever crashes |
| `IpamRuns.RunMirrors` | internal/ipam/allocator.go:284-338 | at every step of every run the directory holds the bitmap, up to the index in progress, and exactly the files left behind |
| `IpamRuns.ExactCapacity` | internal/ipam/allocator.go:262-266 | from every node at rest, of any number of consecutive calls whose writes succeed exactly as many succeed as `Available()` says; they return precisely the free indices in increasing order |
| `IpamRuns.CallsRun` | internal/ipam/allocator.go:149-173 | after any number of such calls the machine is at rest and its bitmap and counter have gained exactly what the calls granted |
| `IpamRuns.OneCall` | internal/ipam/allocator.go:149-173 | one such call claims and saves the least free index, or leaves the machine as it was when there is none |
| `Labels.CanonicalLabels` | internal/identity/allocator.go:212-224 | the loops compute the canonical string, for every order in which the map may be iterated |
| `Labels.CanonicalIs` | internal/identity/allocator.go:212-224 | any ascending listing of the keys yields the same string, so neither iteration order nor sorting algorithm matters |
| `Labels.JoinParts` | internal/identity/allocator.go:223 | joining in a loop is the recursive join |
| `Text.LeIsLexicographic` | internal/identity/allocator.go:217 | the order behind sorting is the lexicographic one: a prefix, or smaller at the first difference |
| `Labels.RoundTrip` | internal/identity/allocator.go:212-224 | the parser that cuts at every comma and then at the first equals sign recovers the label set if and only if no key has a separator and no value a comma |
| `Labels.CanonicalInjective` | internal/identity/allocator.go:212-224 | label sets of that kind are identified by their canonical string |
| `Separators.CanonicalInjectiveIff` | internal/identity/allocator.go:212-224 | canonical strings identify the label sets with keys and values in two given alphabets if and only if no separator is in both alphabets, keys do not have both, and values do not have both unless they share no character with keys |
| `Separators.SeparableIdentifies` | internal/identity/allocator.go:212-224 | with such alphabets two label sets with one string are equal |
| `Separators.Collision` | internal/identity/allocator.go:212-224 | for all other alphabets there are two different label sets with one string |
| `Separators.ReadForwards` | internal/identity/allocator.go:219-223 | when keys have no equals sign, and values no comma or no character of a key, the entries can be read off the string from the left |
| `Separators.ReadBackwards` | internal/identity/allocator.go:219-223 | when keys have no comma and values no equals sign, the entries can be read off the string from the right |
| `Labels.CommaCollides` | internal/identity/allocator.go:221 | two different label sets, one with a comma in a value, share a canonical string |
| `Identity.ProbeBound` | internal/identity/allocator.go:62-83 | a run of taken ids from any starting point, across the 64-bit wrap-around, is no longer than the number of live ids |
| `Identity.IncrementWraps` | internal/identity/allocator.go:62-83 | the next id after the largest 64-bit one is 0 |
| `Identity.FirstFreeExists` | internal/identity/allocator.go:62-83 | with an id to spare the probe meets a free id |
| `Identity.FirstFreeUnique` | internal/identity/allocator.go:62-83 | the first free id at or cyclically after the hash is unique |
| `Identity.Allocator.Probe` | internal/identity/allocator.go:62-83 | the loop ends at the first free id cyclically at or after the hash |
| `Identity.Allocator.AllocateIdentity` | internal/identity/allocator.go:50-100 | returns the live id of the canonical string or the first free one, and the three maps become exactly the specified ones |
| `Identity.Allocator.GetIdentity` | internal/identity/allocator.go:122-130 | finds an id exactly if some live id has these labels, and then such an id |
| `Identity.Allocator.RemoveIdentity` | internal/identity/allocator.go:134-152 | drops one reference; the id stays live exactly if it had more than one |
| `Identity.AllocatedInverse` | internal/identity/allocator.go:50-100 | allocating keeps the maps mutually inverse and makes the returned id live |
| `Identity.RemovedInverse` | internal/identity/allocator.go:134-152 | removing keeps the maps mutually inverse, also in the middle of a probe chain |
| `Identity.CountAllocated` | internal/identity/allocator.go:57-60 | allocating adds one reference to the returned id and none to any other |
| `Identity.CountRemoved` | internal/identity/allocator.go:134-152 | removing a live id takes one of its references and none of any other |
| `Identity.RemoveUndoesAllocate` | internal/identity/allocator.go:134-152 | removing what was just allocated restores all three maps, whether the labels were live or new |
| `Identity.Run` | internal/identity/allocator.go:50-152 | every run of allocations and removals keeps the three maps mutually inverse, for every hash |
| `Identity.IdsSeparateLabels` | internal/identity/allocator.go:50-152 | in every reachable state two canonical strings are equal exactly if their ids are |
| `Identity.IdIsStable` | internal/identity/allocator.go:50-152 | a canonical string keeps its id for as long as it stays live, whatever else comes and goes |
| `Identity.IdsSeparateLabelSetsIff` | internal/identity/allocator.go:50-100 | over all runs, and for every hash, live label sets in two given alphabets share an id only if they are equal, if and only if the alphabets are separable |
| `Identity.InjectiveRun` | internal/identity/allocator.go:207-209 | with a hash that separates the label sets in use every id is the hash of its labels |
| `Identity.DeterministicIffInjective` | internal/identity/allocator.go:205-209 | ids are the hashes over all runs on a family of label sets if and only if the hash separates the family |
| `Identity.TwoAllocations` | internal/identity/allocator.go:65-80 | of two colliding label sets the second gets the next id |
| `Identity.SameLabelsTwoIds` | internal/identity/allocator.go:45-50 | with a collision the same labels get different ids in two runs |
| `PodProtocol.StepInv` | internal/agent/server.go:209-264 | every atomic step of any AddPod or DelPod keeps the ownership invariant |
| `PodProtocol.Run` | internal/agent/server.go:191-379 | the ownership invariant holds after every interleaving |
| `PodProtocol.AddressesPartitioned` | internal/agent/server.go:209-264 | in every interleaving the allocated addresses are the initial ones and, each in exactly one place, those of requests in progress, endpoints and overwritten endpoints |
| `PodProtocol.AddressesAccounted` | internal/agent/server.go:209-264 | in every interleaving the number of allocated addresses is the initial number plus one for each holder; at rest, one for each endpoint and overwritten endpoint |
| `PodProtocol.PodsHaveDistinctIPs` | internal/agent/server.go:261-264 | two pods in the endpoint table never share an address |
| `PodProtocol.ReleaseNeverFails` | internal/agent/server.go:242 | the address that a rollback or a DelPod releases is always one that the allocator accepts |
| `PodProtocol.IdentityLiveIffHeld` | internal/agent/server.go:232-264 | an identity is live exactly while some place holds it, with one reference for each holder |
| `PodProtocol.DeleteMatchesContainer` | internal/agent/server.go:334-347 | a DelPod takes back only what an AddPod for the same container installed |
| `PodProtocol.FreedAtMostOnce` | internal/agent/server.go:322-362 | the address and the identity of one AddPod are given back at most once each, however often and late deletes come |
| `PodProtocol.OrphansAreForever` | internal/agent/server.go:261-264 | an overwritten endpoint keeps its address and identity for the rest of every run |
| `PodProtocol.OrphanIffOverwrite` | internal/agent/server.go:261-264 | a run has overwritten endpoints if and only if some AddPod in it installed over an endpoint |
| `PodRaces.OverwriteReachable` | internal/agent/server.go:261-264 | for every pool with two free addresses two AddPods for one pod, from the start, leave an overwritten endpoint with the first address |
| `PodProtocol.ReloadedIsForever` | internal/agent/server.go:351-354 | an address reloaded at start stays allocated in every run and no request ever holds it |
| `PodProtocol.MovePartition` | internal/agent/server.go:334-347 | moving an endpoint between table and request keeps the partition |
| `PodProtocol.ReleasePartition` | internal/agent/server.go:358-360 | giving an address back removes its one holder |
| `PodProtocol.AllocateCounted` | internal/agent/server.go:232 | AllocateIdentity adds one reference and one holder |
| `PodProtocol.RemoveCounted` | internal/agent/server.go:362 | RemoveIdentity drops one reference and one holder |
| `PodDataplane.PushKeepsTable` | internal/agent/server.go:269-282 | a successful push keeps the relation between table, endpoints and pending calls if the endpoint has its address and no removal of it is pending, or neither |
| `PodDataplane.PushKeepsTableIff` | internal/agent/server.go:269-282 | a successful push keeps the relation exactly under that condition |
| `PodDataplane.DropKeepsTable` | internal/agent/server.go:367-375 | a successful removal keeps it |
| `PodDataplane.CoreKeepsTable` | internal/agent/server.go:209-362 | every allocator and endpoint step keeps it, in any order |
| `PodDataplane.TableInvHolds` | internal/agent/server.go:269-375 | it holds after every run whose calls succeed and whose pushes meet that condition |
| `PodDataplane.TableExact` | internal/agent/server.go:269-375 | whenever such a run comes to rest the dataplane describes exactly the endpoints and overwritten endpoints, each under its own address |
| `PodDataplane.CoreIsRun` | internal/agent/server.go:191-379 | the allocators and the endpoint table of a run with dataplane calls are those of a run without, so all theorems about the latter apply |
| `PodDataplane.LateDropLosesPod` | internal/agent/server.go:356-375 | an AddPod that overtakes the last call of a DelPod is known to the dataplane afterwards if and only if it was given another address |
| `PodRaces.LateDropReachable` | internal/agent/server.go:356-375 | for every pool with a free address a run from the start, with every call succeeding, comes to rest with a pod in the endpoint table and an empty dataplane |
| `PodDataplane.LatePushRevivesPod` | internal/agent/server.go:261-282 | a push after the endpoint was deleted leaves an entry that no endpoint backs |
| `PodRaces.LatePushReachable` | internal/agent/server.go:261-282 | for every pool with a free address a run from the start comes to rest without pods and with a dataplane entry for an address that is free |
| `PodDataplane.AddPodEffect` | internal/agent/server.go:209-282 | the net effect of an uninterrupted AddPod on addresses, identities, endpoints, overwritten endpoints and table |
| `PodDataplane.FailedAddPodEffect` | internal/agent/server.go:240-246 | an AddPod whose network setup fails leaves the resources as they were |
| `PodDataplane.DelPodEffect` | internal/agent/server.go:334-375 | the net effect of an uninterrupted DelPod |
| `PodDataplane.HalfDelPodEffect` | internal/agent/server.go:334-362 | the net effect of a DelPod up to its call to the dataplane |
| `PodServer.Server.constructor` | internal/agent/server.go:143-165 | a new server over an address pool, reloaded or not, starts with no endpoints and a valid trace |
| `PodServer.KeyInjective` | internal/agent/server.go:201 | endpoint keys tell pods apart by namespace and name |
| `PodServer.OnlyOnePodChanges` | internal/agent/server.go:261-264 | a change under the key of one pod leaves the endpoint of every other namespace and name as it was |
| `PodServer.WireIsLow32` | internal/agent/server.go:269-282 | the number pushed for an identity fits 32 bits and is congruent to the identity |
| `PodServer.Validate` | internal/agent/server.go:168-188 | the checks, one after the other, accept exactly the requests with every field and a container id of at least 11 characters |
| `PodServer.Server.AddPod` | internal/agent/server.go:191-319 | each refusal exactly under its condition and without effect; on success the pod has the least free address, a reference to the identity of its labels and namespace, an endpoint and a table entry whose 32-bit identity is congruent to the id; every other pod, by namespace and name, keeps its endpoint |
| `PodServer.Server.Prepare` | internal/agent/server.go:209-232 | both allocations, or an error that leaves both allocators as they were |
| `PodServer.Server.Abandon` | internal/agent/server.go:240-246 | the rollback restores both allocators exactly |
| `PodServer.Server.InstallPod` | internal/agent/server.go:248-282 | the endpoint replaces any earlier one and the table gets its address and 32-bit identity |
| `PodServer.Server.DelPod` | internal/agent/server.go:322-379 | nothing changes unless the named container owns the endpoint; then its endpoint, address, one identity reference and table entry go and nothing else; every other pod, by namespace and name, keeps its endpoint |
| `PodServer.Server.FreeResources` | internal/agent/server.go:358-362 | the two releases succeed and take exactly the address and one reference |
| `PodServer.DistinctAddresses` | internal/agent/server.go:261-264 | endpoints of the server have pairwise distinct addresses |
| `PodServer.AddInServerTerms` | internal/agent/server.go:248-282 | what the protocol says of an uninterrupted AddPod, as the server's endpoint table and dataplane see it |
| `PodServer.DeleteInServerTerms` | internal/agent/server.go:345-375 | the same for DelPod |
| `PodServer.FailInServerTerms` | internal/agent/server.go:240-246 | the same for a failed AddPod |
| `EgressManager.RuleKeyInjective` | internal/egress/manager.go:191-193 | rule keys tell namespace and name apart when namespaces have no slash |
| `EgressManager.Manager.AddEgressRule` | internal/egress/manager.go:98-129 | files the compiled rule under its key, with every field of the rule and the parsed destination, or changes nothing when the destination does not parse |
| `EgressManager.Manager.RemoveEgressRule` | internal/egress/manager.go:132-145 | removes that key and nothing else |
| `EgressManager.Manager.GetRules` | internal/egress/manager.go:148-157 | lists every rule and nothing else, in some order |
| `EgressSync.Syncer.PushRules` | internal/agent/server.go:625-688 | the upsert loop computes the key set, the table and the manager's rules of the reference definitions |
| `EgressSync.Syncer.DropStale` | internal/agent/server.go:690-707 | exactly the wire keys of stale keys whose deletion succeeds leave the table, in whatever order they are visited |
| `EgressSync.Syncer.PruneManager` | internal/agent/server.go:710-720 | exactly the manager rules whose key is not in the list go, whoever filed them |
| `EgressSync.Syncer.SyncEgressRules` | internal/agent/server.go:620-725 | tracked keys, table and manager rules after a sync with any outcome of each call |
| `EgressSync.UpsertedKeys` | internal/agent/server.go:625-688 | upserts, failed or not, only add keys of the list |
| `EgressSync.UpsertedAll` | internal/agent/server.go:625-688 | with no failure upserting a list overlays the table with the one the list wants |
| `EgressSync.LastRuleDecides` | internal/agent/server.go:674-682 | a key is wanted exactly if some rule has it, with the value of the last such rule |
| `EgressSync.WantedInWords` | internal/agent/server.go:643-682 | a key is wanted exactly if some rule has its identity in 32 bits and its network; the last such rule decides, and the entry has that rule's protocol and port, the given SNAT address, and action 1 if the rule allows and 0 otherwise |
| `EgressSync.SyncExactIff` | internal/agent/server.go:690-708 | whatever the table and whatever deletes fail, a sync whose upserts succeed leaves exactly the wanted table if and only if no key it deletes equals a wanted one in 32 bits and the table has no entries beyond those deleted and wanted |
| `EgressSync.AliasedRun` | internal/agent/server.go:674-698 | for every rule, replacing it by the same rule for an identity equal in 32 bits loses it, and syncing once more restores it |
| `EgressSync.DistinctIdentitiesUnaliased` | internal/agent/server.go:675 | identities that stay distinct in 32 bits never alias |
| `EgressSync.FailedUpsertsStayTracked` | internal/agent/server.go:684-708 | when only upserts fail, every table key is a tracked key |
| `EgressSync.UnlistedEntryIff` | internal/agent/server.go:690-708 | a sync that does not list an entry keeps it, unchanged, if and only if every delete for it fails, and then the server has forgotten it |
| `EgressSync.UntrackedStays` | internal/agent/server.go:694-708 | over every run a forgotten entry stays in the table, unchanged, for as long as no list has it again: a failed delete is never retried |
| `EgressSync.ForgottenRun` | internal/agent/server.go:694-708 | for every rule two syncs from the start, the second failing to delete it, leave a forgotten entry |
| `EgressSync.DroppedOnceListedAgain` | internal/agent/server.go:690-708 | once a list has it again, the next sync without it drops it if its deletes succeed |
| `EgressSync.HistoryIndependent` | internal/agent/server.go:620-708 | from an empty start the table after any sequence of lists is the one the last list wants if and only if the last two lists do not alias |
| `EgressSync.RunTracked` | internal/agent/server.go:620-708 | over every such run the tracked keys are those of the last list and the table has no others |
| `EgressSync.SyncKeysDistinct` | internal/agent/server.go:655 | the manager names of one sync are distinct, whatever the namespaces |
| `EgressSync.SyncedManagerKeys` | internal/agent/server.go:710-720 | after a sync the manager's rules have exactly the keys of the list |
| `EgressSync.SyncedManagerInWords` | internal/agent/server.go:643-663 | after a sync every rule of the list is in the manager under its namespace and index, field by field, as allow or deny as the rule says |
| `EgressGateway.NamesDistinct` | internal/egressgateway/reconciler.go:112-146 | the rule names of one reconcile are pairwise distinct |
| `EgressGateway.ReachesIffConfusable` | internal/egressgateway/reconciler.go:218-228 | the prefix test for one policy accepts some rule name of another, for some non-empty gateway name, exactly when one policy name followed by a dash starts the other |
| `EgressGateway.BothPrefixes` | internal/egressgateway/reconciler.go:218-228 | a rule name with the prefixes of two policies exists only for such names |
| `EgressGateway.Reconciler.RemoveRulesForPolicy` | internal/egressgateway/reconciler.go:220-228 | exactly the rules of the namespace with the policy's prefix go |
| `EgressGateway.Reconciler.Delete` | internal/egressgateway/reconciler.go:175-190 | the policy's rules and its tracking go, nothing else |
| `EgressGateway.Reconciler.Validate` | internal/egressgateway/reconciler.go:75-86 | accepts exactly the lists whose every CIDR parses |
| `EgressGateway.Reconciler.AddProduct` | internal/egressgateway/reconciler.go:113-128 | the policy comes to own exactly the product of destinations and identities; other rules stay |
| `EgressGateway.Reconciler.AddWildcards` | internal/egressgateway/reconciler.go:132-147 | the policy comes to own exactly one identity 0 rule for each destination; other rules stay |
| `EgressGateway.Reconciler.Reconcile` | internal/egressgateway/reconciler.go:58-172 | succeeds exactly on valid input and reports the first failing check; on error nothing changes, on success the policy owns exactly what it says, a SNAT rule for each destination (all of IPv4 if none is given) and each identity (0 if none matches), is tracked with those destinations, other rules stay, and adding a rule cannot fail |
| `EgressGateway.OwnedInWords` | internal/egressgateway/reconciler.go:108-147 | owning the product of the prepared lists is owning, in terms of the policy alone, exactly the SNAT translations from its sources to its destinations |
| `EgressGateway.GatewayIsLeast` | internal/egressgateway/reconciler.go:88-92 | the active gateway is the least node name whatever the order of the nodes |
| `EgressGateway.Isolation` | internal/egressgateway/reconciler.go:220-228 | an operation leaves the rules of every policy in another namespace, or with a name that cannot be confused, exactly as they were |
| `EgressGateway.DeleteKeepsPolicyIff` | internal/egressgateway/reconciler.go:175-190 | a delete leaves a reconciled policy of its namespace intact if and only if no rule of that policy has the deleted policy's prefix |
| `EgressGateway.RulesStay` | internal/egressgateway/reconciler.go:58-190 | over any run a policy's rules stay as its last accepted reconcile left them until the next operation on it or on a confusable name |
| `EgressGateway.SyncAddsBeside` | internal/agent/server.go:655-663 | a policy sync files its rules without touching those of any gateway policy |
| `EgressGateway.SyncKeepsPolicyIff` | internal/agent/server.go:710-720 | a sync leaves a reconciled gateway policy intact if and only if each of its identities and destinations is also a CIDR rule of the synced list |
| `HostFirewall.RuleIDInjective` | internal/hostfirewall/manager.go:143 | rule ids tell policy, direction and index apart for every policy name, slashes included |
| `Text.ItoaIsDecimal` | internal/hostfirewall/manager.go:143 | the printed index is the decimal numeral of its value, without leading zeros |
| `HostFirewall.ConvertAction` | internal/hostfirewall/manager.go:251-260 | 1 for "Allow", 0 for "Deny" and no code for anything else |
| `HostFirewall.ConvertProtocol` | internal/hostfirewall/manager.go:263-277 | the code selects exactly the protocols that the name says: TCP is 6, UDP is 17, SCTP is 132, no name or another one is any |
| `HostFirewall.CodesSay` | internal/hostfirewall/manager.go:251-277 | the codes of a rule select exactly the action and protocol numbers that its names say |
| `HostFirewall.ParseAll` | internal/hostfirewall/manager.go:280-290 | parses all CIDRs or fails, exactly when one does not parse |
| `HostFirewall.Expand` | internal/hostfirewall/manager.go:293-311 | the loop drops exactly the entries whose port is out of range |
| `HostFirewall.PortsMeaning` | internal/hostfirewall/manager.go:293-311 | within the port limits the expanded ranges cover exactly the ports of the source rule, one range for each entry |
| `HostFirewall.OutOfRangePortsWiden` | internal/hostfirewall/manager.go:130-134 | when every port entry is out of range the rule matches every port |
| `HostFirewall.ExpandNoneIff` | internal/hostfirewall/manager.go:130-134 | the default of any port is taken exactly when no entry is in range |
| `HostFirewall.CompileRule` | internal/hostfirewall/manager.go:141-156 | the two inner loops produce the product of CIDRs and ports with consecutive indices |
| `HostFirewall.CompileRules` | internal/hostfirewall/manager.go:107-160 | the flat list of the reference definition, or the error of the first rule that has one |
| `HostFirewall.CompilePolicy` | internal/hostfirewall/manager.go:79-104 | ingress then egress; fails exactly if a rule of either does not compile, with the first such error |
| `HostFirewall.RuleMeaning` | internal/hostfirewall/manager.go:107-160 | the compiled rules of one source rule match exactly the packets that the rule, by its action and protocol names, CIDRs and ports, speaks of |
| `HostFirewall.FlatMeaning` | internal/hostfirewall/manager.go:107-160 | for every packet and action some compiled rule decides it exactly when some source rule does |
| `HostFirewall.PolicyMeaning` | internal/hostfirewall/manager.go:79-160 | for a whole policy, in the packet's own direction: action 1 is decided exactly if a matching rule says "Allow", action 0 exactly if one says "Deny" |
| `HostFirewall.FlatSize` | internal/hostfirewall/manager.go:107-160 | one compiled rule for each CIDR and port entry, with one for an empty list |
| `HostFirewall.OutputProper` | internal/hostfirewall/manager.go:79-160 | compiler output carries the policy's name and no rule id twice |
| `HostFirewall.Manager.DropPolicy` | internal/hostfirewall/manager.go:174-179 | exactly the rules of the policy go |
| `HostFirewall.Manager.ApplyRules` | internal/hostfirewall/manager.go:164-190 | for any list, the rules of policies other than the first entry's with the list filed over them, later entries winning, or nothing for an empty list; a compiled list is then in the map as it is |
| `HostFirewall.FiledIsApplied` | internal/hostfirewall/manager.go:182-184 | filing a compiled list keeps every rule of other policies and every rule of the list |
| `HostFirewall.Manager.RemovePolicy` | internal/hostfirewall/manager.go:193-209 | exactly the rules of the policy go |
| `HostFirewall.NewIdIsFree` | internal/hostfirewall/manager.go:182-184 | a compiled list never overwrites a rule of another policy |
| `HostFirewall.AppliedRepresents` | internal/hostfirewall/manager.go:164-190 | applying a list to the flat map replaces that policy's list in a per-policy store and leaves the others |
| `HostFirewall.RemovedRepresents` | internal/hostfirewall/manager.go:193-209 | removing a policy from the flat map removes its list from the per-policy store |
| `HostFirewall.FlatMapRefinesStore` | internal/hostfirewall/manager.go:164-209 | over any run the flat map is the disjoint union of each policy's last non-empty applied list not removed since |
| `HostFirewall.EmptiedPolicyKeepsRules` | internal/hostfirewall/manager.go:162-167 | after an apply the policy's rules are among the applied list if and only if the list is not empty or the policy had none |
| `HostFirewall.EmptiedRun` | internal/hostfirewall/manager.go:162-167 | for every policy with rules, applying it and then the same policy without rules leaves all its old rules in force |
| `TcpLatency.Tracker.UpdateTCPMetrics` | internal/agent/setup_dataplane.go:193-228 | the sample and the new pending map of one flow |
| `TcpLatency.Tracker.Evict` | internal/agent/setup_dataplane.go:220-227 | exactly the entries older than the cutoff go |
| `TcpLatency.ProcessFlowStream` | internal/agent/setup_dataplane.go:161-177 | the loop emits the samples of the run |
| `TcpLatency.Handshake` | internal/agent/setup_dataplane.go:205-219 | a SYN and then any packet give a sample exactly if that is a SYN-ACK with addresses and ports exchanged, less than ten seconds later, and the sample is the time between them; other flags do not matter |
| `TcpLatency.StepSimulates` | internal/agent/setup_dataplane.go:193-228 | one event on the bounded and on the unbounded tracker gives the same sample and keeps them equal up to entries too old to matter |
| `TcpLatency.RefinesIdeal` | internal/agent/setup_dataplane.go:161-228 | with a clock that does not run backwards and no refused SYN, exactly the samples of a tracker that never evicts are emitted |
| `TcpLatency.RefusedSynLosesSample` | internal/agent/setup_dataplane.go:208-210 | a refused SYN loses a sample that the unbounded tracker emits |
| `TcpRefusals.TrackerByEvents` | internal/agent/setup_dataplane.go:193-228 | in every run the tracker has for each connection the latest accepted SYN since the last answer, unless that is older than the window |
| `TcpRefusals.SampleDiffersIff` | internal/agent/setup_dataplane.go:193-228 | a sample differs from that of the unbounded tracker if and only if its SYN-ACK answers a refused SYN and timing from the last accepted one gives something else |
| `TcpRefusals.RefinesIdealIff` | internal/agent/setup_dataplane.go:161-228 | with a clock that does not run backwards the samples are those of the unbounded tracker if and only if there is no such SYN-ACK |
| `TcpRefusals.RefinesIdealIffLate` | internal/agent/setup_dataplane.go:161-228 | when no two events share a time, if and only if every SYN-ACK that answers a refused SYN comes at least ten seconds after it |
| `TcpRefusals.FloodLosesSample` | internal/agent/setup_dataplane.go:207-210 | a run of 10001 connection attempts, one of them answered at once, loses a sample |
| `TcpLatency.PendingBounded` | internal/agent/setup_dataplane.go:207-210 | the pending map never has more than 10000 entries, in any run |
| `TcpLatency.PendingHasSyn` | internal/agent/setup_dataplane.go:207-219 | every pending time is that of a SYN nothing has answered |
| `TcpLatency.SampleIsRoundTrip` | internal/agent/setup_dataplane.go:211-219 | in every run, also when the clock runs backwards, a sample is the time from an unanswered SYN with both addresses and both ports exchanged and lies strictly between zero and ten seconds |
| `TcpLatency.SynTimedOnce` | internal/agent/setup_dataplane.go:211-219 | no SYN is timed twice |
| `Slots.SlotAllocator.constructor` | internal/service/allocator.go:23-28 | all slots are free and none is handed out, for any number of slots |
| `Slots.SlotAllocator.Alloc` | internal/service/allocator.go:31-43 | the least offset at which so many slots are free, an error exactly when there is none; the block is disjoint from all others and exactly its slots stop being free |
| `Slots.SlotAllocator.Free` | internal/service/allocator.go:47-51 | exactly the slots of the block become free again, and free and handed-out blocks still partition the array |
| `Slots.Merge` | internal/service/allocator.go:53-63 | no two ranges touch afterwards, and the same slots are covered |
| `Slots.RunInOneRange` | internal/service/allocator.go:31-43 | a run of free slots lies in one range, so first fit over ranges misses none |
| `Slots.FirstFitByOwned` | internal/service/allocator.go:31-43 | what first fit over the free list finds is the least offset with room among the blocks handed out |
| `Slots.CanonicalUnique` | internal/service/allocator.go:53-63 | a merged list is determined by the slots it covers |
| `Slots.SortedIsInserted` | internal/service/allocator.go:47-51 | whatever sorts the list by offset, the result is the same |
| `Slots.Carved` | internal/service/allocator.go:35-39 | cutting a block off the front of a range keeps the list merged and loses exactly the block |
| `Slots.Claimed` | internal/service/allocator.go:31-43 | a found block is new and the partition of the array extends to it |
| `Slots.Returned` | internal/service/allocator.go:47-51 | returning a block keeps the partition of the array |
| `Slots.AllocThenFree` | internal/service/allocator.go:31-51 | freeing what was just allocated restores the very same free list |
| `ServiceSlots.ReleaseExact` | internal/service/watcher.go:559-567 | giving up a service keeps the match between services and handed-out blocks and tables |
| `ServiceSlots.TakeExact` | internal/service/watcher.go:433-486 | recording a service with new blocks keeps it |
| `ServiceSlots.Watcher.constructor` | internal/service/watcher.go:104-126 | no service, nothing handed out, 65536 backend slots and 1048576 table slots |
| `ServiceSlots.Watcher.Release` | internal/service/watcher.go:559-567 | the service goes, with its block and, unless it starts at offset 0, its table; this is one step of the runs below |
| `ServiceSlots.Watcher.Reconcile` | internal/service/watcher.go:419-486 | old resources go first; then the service is dropped, or gets the first block and the first table with room, or falls back from Maglev, each exactly under its condition; other services are untouched; this is one step of the runs below |
| `ServiceSlots.RunExact` | internal/service/watcher.go:419-567 | over every run services and backend blocks correspond exactly, and so do Maglev services and tables except for the table at offset 0 |
| `ServiceSlots.LostIffGivenUp` | internal/service/watcher.go:250-252 | over every run the table at offset 0 is handed out with nobody having it if and only if some operation gave up or replaced the service that had it |
| `ServiceSlots.FirstServiceHasFirstTable` | internal/service/watcher.go:450 | a Maglev watcher gives that table, slots 0 to 65536, to the first service that has backends and room for them, whatever operations came before |
| `ServiceSlots.FirstTableIsLost` | internal/service/watcher.go:250-252 | so in every run the next operation on that service, a deletion or a mere reconcile, loses the table for ever |
| `Probing.NoEarlyReturn` | internal/service/maglev.go:45-47 | a probe with a coprime skip does not come back to its start before it has made a full round |
| `Probing.Reaches` | internal/service/maglev.go:45-47 | with a coprime skip every slot is met within one round |
| `Probing.ReachesAllIffCoprime` | internal/service/maglev.go:45-47 | a probe meets every slot if and only if skip and size have no common divisor |
| `Probing.MaglevSizeIsPrime` | internal/service/watcher.go:27-28 | the table size 65537 is prime |
| `Maglev.ProductionSizeTerminates` | internal/service/watcher.go:461 | with that size every backend's skip is coprime, for every hash and backend list |
| `Maglev.Probe` | internal/service/maglev.go:44-47 | the inner loop ends, at the backend's first empty slot, although it starts where the backend left off |
| `Maglev.TakeTurn` | internal/service/maglev.go:44-50 | one turn fills the slot that the reference, searching from the start, would fill |
| `Maglev.Fill` | internal/service/maglev.go:31-55 | the filling loops compute the table of the reference |
| `Maglev.GenerateMaglevTable` | internal/service/maglev.go:9-58 | no table for a size out of range, zeros without backends, otherwise the reference table |
| `Maglev.HashSplits` | internal/service/maglev.go:23-29 | the offset is congruent to the hash and the skip, less one, to its upper half, each within the range of the table |
| `Maglev.FirstEntry` | internal/service/maglev.go:42-50 | the first turn puts backend 0 at its hash modulo the size and nothing elsewhere |
| `Maglev.Shares` | internal/service/maglev.go:42-55 | after any number of turns each backend holds exactly its round-robin share |
| `Maglev.Balanced` | internal/service/maglev.go:9-58 | in a finished table every entry is a backend, and each backend has the quotient of size and backends, or one more |
| `Maglev.ChoiceUnique` | internal/service/maglev.go:45-47 | the first empty slot of a backend's sequence is unique |

## Left out

- Ipam.Allocator.New: the CIDR arrives parsed, as family, network number and host bits; parsing text, the byte-level conversions of internal/ipam/pool.go:332-372 and IPv4-mapped IPv6 networks are not modelled, an address is a family and a number.
- IpamRuns.ReloadIsExact: speaks of pools with a state directory; a pool without one keeps nothing across a restart.
- Identity.Allocator.AllocateIdentity: asks for fewer than 2^64 live ids, because with all of them taken the probe of the source does not end.
- PodServer.Server.AddPod: handles one request at a time and asks for an identity to spare; interleavings are the subject of PodProtocol and PodDataplane, over the same steps.
- PodDataplane.TableExact: one direction for whole runs, because a push out of order can be repaired by a later call on the same address; for the two overlaps themselves the outcome is stated exactly.
- EgressSync.SyncExactIff: asks that the upserts succeed; what failed ones leave is FailedUpsertsStayTracked.
- PodServer.KeyInjective: asks for namespaces without a slash, which Kubernetes guarantees; so does what AddPod and DelPod say of other pods.
- EgressManager.RuleKeyInjective: asks for namespaces without a slash, which Kubernetes guarantees; so do the reconciler's theorems.
- EgressSync.Syncer.SyncEgressRules: the early return when the dataplane is not connected is not modelled; it changes nothing.
- EgressSync.SyncedManagerKeys: claims the keys of the manager's rules only, because rules under old index-based names can survive a sync.
- EgressGateway.ReachesIffConfusable: the gateway is any non-empty string; which of them are legal node names is not modelled.
- EgressGateway.Reconciler.Reconcile: takes the matching identities and whether the selector parses as parameters, and runs alone on the rule store; concurrent reconciles are not modelled.
- HostFirewall.FlatMeaning: asks for the port limits of the custom resource (api/v1alpha1/hostendpointpolicy_types.go:56-67) and states the code's meaning of an empty CIDR list, which is all of IPv4 and no IPv6.
- TcpLatency.RefinesIdeal: a sufficient condition; the exact ones are RefinesIdealIff and RefinesIdealIffLate.
- Slots.SlotAllocator.Free: takes blocks that were handed out, which is what its comment asks for (internal/service/allocator.go:46) and what the watcher does; the source does not check.
- ServiceSlots.Watcher.Reconcile: a service has cluster addresses and its counts fit 32 bits; a headless service with state goes through Release; a Maglev service without ports makes the source index an empty list and is not modelled; entries pushed to the dataplane are left out.
- Maglev.GenerateMaglevTable: asks for skips coprime to the size, without which the source may not end, and for a size from 2 to 2^31, because size 1 divides by zero and larger sizes can wrap the 32-bit addition.
- Concurrency inside one allocator, one rule store or one service watcher: their mutexes make each call one step.
- The split of compiled rules by OnPolicyChange, policy compilation, label selectors, LB-IPAM, the pool manager, routing, tunnels, BGP and node watchers.
- Pod network setup and clean-up, MAC addresses, bandwidth, encryption, masquerading and program attachment, beyond whether setup succeeds.
- gRPC, credentials, contexts, timeouts, retries, metrics and logging.
- The Rust eBPF programs; the dataplane is a set of maps.
