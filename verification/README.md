# A model of scnet-server

scnet-server hands out WireGuard tunnels: it keeps peers in a table, in an in-memory address
allocator and in the kernel's peer list; it rate-limits log-ins; it registers accounts with
invite codes; it forwards UDP and learns its own public address by STUN; and it migrates its
database at start-up. Each of these is code that changes state step by step, where any step may
fail or interleave with another. This project states what that code keeps, and proves it.

| file | content |
|---|---|
| `Common.dfy` | options, 32-bit addresses, opaque keys and ids |
| `Ipam.dfy` | first-fit allocator over a string-keyed map, dotted quads, 32-bit arithmetic |
| `Wire.dfy` | the WireGuard device: peer keys and cryptokey routing |
| `PeerModel.dfy` | one transition per peer operation, with any set of failing calls; runs; invariants |
| `PeerManager.dfy` | the manager as a class; every method proved to be its transition |
| `Outcomes.dfy` | what each peer operation answers and leaves, for every set of failing calls |
| `PeerSafety.dfy` | routing safety over runs with failures |
| `PeerHistory.dfy` | permanent revocation, quota |
| `PeerRefinement.dfy` | failure-free runs refine one table |
| `ReconcileDiff.dfy` | Reconcile's change list is a correct, minimal, order-free diff |
| `AddInterleaving.dfy` | AddPeer and Reconcile calls interleaved at every external call: addresses |
| `StaleDiffs.dfy` | a Reconcile's diff sent after the world has moved on |
| `RoutingInterleaving.dfy` | the same interleavings: routing |
| `RoutingExact.dfy` | when a Reconcile has put every row in place; which calls for one key endanger routing |
| `Revocation.dfy` | the same interleavings: what becomes of a revoked row and its key |
| `StaleWrites.dfy` | the peers table with every operation's read and write split |
| `RateLimit.dfy` | the sliding-window limiter, its runs, greedy optimality |
| `Registration.dfy` | registration transactions, locks and admin invite calls interleaved |
| `RegistrationOutcomes.dfy` | what registrations and the admin's invite calls come to |
| `Stun.dfy` | binding-response parser and serialiser, bytes and XOR |
| `Probes.dfy` | probes in flight against the read loop |
| `Sessions.dfy` | the UDP session table and its sockets |
| `SessionLife.dfy` | which sessions a cleanup closes, and what keeps one alive |
| `Migrations.dfy` | the migration runner, cut short anywhere |
| `MigrationOutcomes.dfy` | what a successful run has executed, and what text of a file runs |
| `SqlUpdate.dfy` | the two UPDATE builders and what PostgreSQL makes of them |

Operations are written twice on purpose: as a class method in the code's own form, and as a
function of the state that the method is proved to compute. Lemmas speak about the function.
A `fails` set names the store and device calls that fail in one operation; a failing call has
no effect, and one that succeeds has all of it (`ConfigureWg`, `RecordMigration`). The device
follows the WireGuard configuration protocol: `ReplacePeers` replaces everything, otherwise
entries apply in order, removing an absent key does nothing, and giving an address to one peer
takes it from any other.

## What does not hold

The proofs also settle where the code does not give what one would expect of it.

* `ReplaceKey` does not check who holds the new key. If another active row holds it and the key
  is off the device, the device ends up with the key but without that row's address, and
  `Reconcile`, which compares keys only, never puts the address back. `ReplaceKeySafeIff` is the
  exact condition; `StrandingHappens` reaches it from every table with two active rows, by one
  removal whose table write fails. Even without failures a `ReplaceKey` onto any held key leaves
  device and table disagreeing (`ReplaceRefines`).
* `Reconcile` takes no lock: it lists the rows, reads the device and sends its changes in separate
  calls. A diff sent late keeps routing exactly if each of its changes spares the active rows of
  the moment (`SendRoutedIff`), and puts every active row in place exactly if each is put there
  (`SendRoutesAllIff`). A removal and an addition in between misroute the new row, a key change
  the changed one, with no call failing; a table write in between leaves the new row off the
  device although the Reconcile succeeds; a revocation in between leaves the revoked key on it
  (`StaleSendAfterRemoval`, `StaleSendAfterReplace`, `StaleSendDropsNewRow`,
  `StaleSendRestoresRevoked`). No later Reconcile repairs a misrouted row (`UnroutedForever`).
* Two `AddPeer` calls in flight for one key can misroute as well. Every careful continuation keeps
  routing if and only if no call could write its row now while another for the same key is yet to
  be configured, and no two are to activate the same row (`RoutingKeptIff`, `MisroutingHappens`).
* What is left is safe: in every interleaving of `AddPeer`, `Reconcile` and rebuild calls, split at
  every external call, in which no removal, key change or admin call is aimed at a row that a
  sweep under way has listed, and keys in flight do not clash, each active row whose key is on the
  device is routed (`InterleavingRouted`). `RemovePeer`, `ReplaceKey` and the admin calls are
  single steps there.
* Revocation is permanent along runs of whole operations without an admin disconnect of the row
  (`RevokedForever`). With calls in flight it is not: every write of a row goes by id and ignores
  the status it overwrites. Among interleaved calls exactly two steps change a revoked row, the
  `Activate` of a call that found it disconnected and an admin disconnect of it
  (`RevokedStepIff`), so the row is safe exactly if no such call is in flight when it is revoked
  (`RevokedForeverIff`; `RevocationLost` is a run). When every operation's read and write are
  split, a `RemovePeer` in flight undoes a revocation as well, and a `ReplaceKey` in flight changes
  the key of a revoked row (`RemovalUndoesRevocation`, `RekeyAfterRevocation`); the row is safe
  exactly if nothing but revocations and changes to the key it has is pending on it
  (`QuietStaysIff`). Its key returns to the device by the steps of `KeyRestoredIff` only.
* `Reconcile` equals the full rebuild of `enableWG` exactly when the keys already on the device
  had the right addresses (`ReconcileEqualsRebuildIff`).
* `UpdateInvite` reads the use count and writes the maximum in two statements, and `DeleteInvite`
  reads and deletes in two. A registration that commits in between can leave `use_count` above
  `max_uses` (`StaleUpdateHappens`), or a user whose invite is gone (`StaleDeleteHappens`); a run is
  free of either exactly when no such write occurs in it (`InviteCapIff`, `InviteKeptIff`).
* `Close` of the UDP proxy is final exactly if, when the shared socket is closed, the table is still
  empty, the read loop has no packet in hand and no `sessionFor` caller is between its two locked
  regions (`CloseIsFinalIff`). Otherwise an open socket ends in the closed service's table
  (`LateInsertSurvivesClose`, `LateListenSurvivesClose`, `PacketInHandSurvivesClose`), which a
  packet arriving between the two halves of Close can bring about (`ArrivalDuringClose`).

## Model

The first 65 rows are the main results; the rest are the code itself, in file order, and the
steps that carry them.

| member | source | states |
|---|---|---|
| PeerSafety.RunSafe | internal/peer/manager.go:195-443 | along every careful run of whole operations, whatever fails, each active row whose key is on the device has its address routed to it; after any successful Reconcile that holds for all active rows |
| PeerSafety.ReplaceKeySafeIff | internal/peer/manager.go:343-363 | a key change keeps routing safe exactly when its device call does not happen or the new key is not that of another active row off the device |
| PeerSafety.UnroutedForever | internal/peer/manager.go:392-434 | a row whose key is on the device without its address keeps missing it through any sequence of Reconciles, whatever fails in them |
| PeerRefinement.StrandingHappens | internal/peer/manager.go:275-363 | from any state in which all replicas agree with two active rows, a removal whose table write fails and then a key change strand the removed row, and no sequence of Reconciles repairs it |
| PeerRefinement.RunRefines | internal/peer/manager.go:138-577 | after every failure-free run the device holds exactly the active rows and the allocator exactly the server and active addresses |
| PeerRefinement.BootRefines | cmd/scnet-server/main.go:88-147 | reserve, enable and a first Reconcile reach such a state from any device |
| PeerRefinement.ReplaceRefines | internal/peer/manager.go:354-363 | a key change is one table update exactly when no other row holds the new key; otherwise the replicas agree with no table at all |
| AddInterleaving.InterleavingSafe | internal/peer/manager.go:184-443 | in every interleaving of AddPeer and Reconcile calls, split at every external call, with the other operations, the server, active and in-flight addresses stay pairwise distinct and reserved |
| RoutingInterleaving.InterleavingRouted | internal/peer/manager.go:184-443 | in every careful interleaving of AddPeer, Reconcile and rebuild calls, split at every external call, with the other operations as single steps, each active row whose key is on the device has its address routed to it |
| RoutingExact.RoutingKeptIff | internal/peer/manager.go:184-235 | every careful continuation keeps routing if and only if no live call could write its row now while another for the same key is yet to be configured, and no two are to activate the same row |
| RoutingExact.SweepRoutesAll | internal/peer/manager.go:366-446 | a Reconcile beside which only quiet steps happen from listing to end leaves every active row on the device with its address when it succeeds |
| StaleDiffs.SendRoutedIff | internal/peer/manager.go:441-443 | a diff of any age, sent now, keeps routing exactly if each change spares the active rows of the moment: which Adds and Removes do is said entry by entry |
| StaleDiffs.SendRoutesAllIff | internal/peer/manager.go:441-443 | and it leaves every active row on the device with its address exactly if its changes put each there |
| StaleDiffs.StaleSendAfterRemoval | internal/peer/manager.go:380-443 | a RemovePeer and an AddPeer between diff and send: the new active row loses its address to the removed key, no call failing |
| StaleDiffs.StaleSendDropsNewRow | internal/peer/manager.go:424-443 | a table write in between: the Reconcile succeeds and the new active row is off the device |
| StaleDiffs.StaleSendRestoresRevoked | internal/peer/manager.go:392-443 | a revocation in between: the Reconcile succeeds and the revoked key is on the device |
| ReconcileDiff.DiffReconciles | internal/peer/manager.go:390-443 | whatever order rows and map are visited in, the device key set becomes the active key set and the route the goal's |
| ReconcileDiff.DiffIsMinimal | internal/peer/manager.go:390-441 | each key changes at most once, the list has the size of the symmetric difference, and no list reaching the active keys is shorter |
| ReconcileDiff.ReconcileEqualsRebuildIff | internal/peer/manager.go:390-443 | diff and full rebuild agree exactly when keys on both sides already had the right addresses |
| PeerHistory.RevokedForever | internal/peer/manager.go:343-434 | along every run of whole operations without an admin disconnect of it, a revoked row keeps status, key, owner and address, and its key is off the device after each successful Reconcile |
| Revocation.RevokedStepIff | internal/peer/manager.go:202-209 | with AddPeer calls in flight, a step changes a revoked row exactly if it is the Activate of a call that found the row, or an admin disconnect of it that reaches its write |
| Revocation.RevokedForeverIff | internal/peer/manager.go:170-209 | it stays in every such interleaving if and only if no call in flight can still activate it |
| Revocation.RevocationLost | internal/store/peer_store.go:172-179 | a run: checks of an AddPeer, a whole revocation, the rest of the AddPeer; the row ends active |
| Revocation.KeyRestoredIff | internal/peer/manager.go:354-441 | exactly the steps that put the key of a revoked row back on the device: a call yet to configure it, a diff or rebuild drawn from an older table, a ReplaceKey aimed at it |
| Revocation.RevokedKeyStaysOff | internal/peer/manager.go:366-443 | once it is off and none of these is in flight, it stays off in every interleaving without an admin disconnect or a ReplaceKey to it |
| StaleWrites.QuietStaysIff | internal/admin/service.go:218-231 | the row stays as it is along every continuation in which no admin disconnect of it begins, if and only if nothing but revocations and key changes to its own key is pending on it |
| PeerHistory.RunWithinQuota | internal/peer/manager.go:152-158 | with quotas never lowered, no sequential run takes a user's active rows past the quota |
| RateLimit.DecisionExact | internal/api/ratelimit.go:36-41 | a request is refused exactly when `limit` accepts lie in its window |
| RateLimit.WindowBound | internal/api/ratelimit.go:21-42 | one k windows long holds at most k times `limit` |
| RateLimit.GreedyDominates | internal/api/ratelimit.go:21-42 | on every prefix the bucket accepts at least as many requests as any selection respecting the limit |
| RateLimit.GreedyOptimalIff | internal/api/ratelimit.go:21-42 | which holds for all times and selections exactly unless the window is empty and the limit zero |
| RateLimit.KthNoLater | internal/api/ratelimit.go:21-42 | its k-th accept comes no later than the k-th of any such selection |
| RateLimit.KeysIndependent | internal/api/ratelimit.go:55-74 | in every interleaved run each key's decisions are those of its run alone |
| Registration.InviteConservation | internal/store/user_store.go:138-196 | so does every interleaving of registrations with invite creation, update and deletion |
| Registration.InviteCapIff | internal/store/user_store.go:158-166 | use_count stays within max_uses at every point of an interleaving exactly when it has no such write, despite the stale pre-check |
| Registration.StaleUpdateHappens | internal/admin/service.go:278-299 | a concrete interleaving that ends above the cap |
| Registration.InviteKeptIff | internal/admin/service.go:304-322 | users keep their invite throughout an interleaving exactly when no delete in it lands on an invite used since the delete read it |
| Registration.StaleDeleteHappens | internal/admin/service.go:310-321 | a concrete interleaving that ends with a user whose invite is gone |
| Registration.SingleBootstrap | internal/auth/service.go:87-142 | from an empty table, in every interleaving, once any user is committed the first one and only that one is admin |
| Stun.ParseSoundAndComplete | internal/punch/service.go:354-394 | success exactly when a good header is followed by a chain of in-bounds padded attributes, all but the last undecodable, and then with that last address |
| Stun.RoundTrip | internal/punch/service.go:354-394 | parsing a serialised success response with any padded attributes gives its transaction id and its first decodable address, or fails exactly when there is none |
| Probes.FirstResponseWins | internal/punch/service.go:165-248 | in every interleaving a probe reads only the first response to its own transaction since it registered, nothing stays registered without a probe, and the forwarder is handed exactly the other packets in order |
| Sessions.RunAccounted | internal/punch/service.go:203-338 | in every interleaving the open sockets are those in the table plus one per caller between its regions, each in one place and none closed |
| Sessions.CloseIsFinalIff | internal/punch/service.go:132-140 | the table stays empty along every continuation if and only if, when the shared socket is closed, it is empty, no packet is in hand and no caller between its locked regions |
| Migrations.ExactlyOnceInOrder | internal/store/db.go:65-124 | over any sequence of runs each cut short anywhere, every Up section commits at most once, in ascending order, never one recorded at the start |
| Migrations.CrashesChangeNothing | internal/store/db.go:65-124 | runs cut short anywhere followed by a complete one end in the database one undisturbed run gives |
| SqlUpdate.UserUpdateMeans | internal/store/user_store.go:245-279 | the account row becomes what the caller asked, stamped; no statement only if nothing was asked |
| SqlUpdate.InviteUpdateMeans | internal/store/invite_store.go:111-138 | the invite row becomes what the caller asked, clearing the expiry winning over setting it |
| Ipam.FirstFreeIsLeast | internal/peer/ipam.go:51-62 | the answer is the least free address strictly between network and broadcast, and there is none exactly when every such address is taken |
| Ipam.FormatInjective | internal/peer/ipam.go:55-57 | distinct 32-bit addresses have distinct texts, so the string-keyed map is a set of numbers |
| Outcomes.AdminOutcome | internal/api/admin_handler.go:266-336 | the admin call succeeds and the row has the new status, the rest of the table as it was, exactly if the row can be loaded, loaded again and written, whatever becomes of the removal before |
| Outcomes.RemoveOutcome | internal/peer/manager.go:254-285 | device, row, address and answer of a removal for every set of failing calls |
| Outcomes.ReplaceOutcome | internal/peer/manager.go:343-363 | device, row and answer of a key change for every set of failing calls; the table takes it exactly if no other row holds the key |
| Outcomes.RefusedAdd | internal/peer/manager.go:144-182 | which refusal an addition gets, the first that applies, and that it changes nothing |
| Outcomes.AddOutcome | internal/peer/manager.go:184-235 | an addition that is not refused takes the least free host address; what it answers and leaves on device, table and allocator for every set of failing calls, the undo included |
| Outcomes.ReconcileOutcome | internal/peer/manager.go:366-446 | Reconcile succeeds exactly if table and device can be read, every last-seen time of an active row on the device can be written, and the device call succeeds or is not needed; what is held back and on the device then and otherwise |
| RegistrationOutcomes.UndisturbedRegister | internal/store/user_store.go:138-196 | a registration that nothing disturbs commits one ordinary user with the invite and counts the use exactly if uses are left and the expiry had not passed at the first look and lay ahead at the second; else nothing changes |
| RegistrationOutcomes.SelectIff | internal/store/user_store.go:158-166 | the look under the row lock passes, and the call holds the row, exactly if uses are left and the expiry lies ahead |
| Stun.SampleParses | internal/punch/service.go:354-414 | the sample IPv4 response of section 2.2 of RFC 5769 parses to 192.0.2.1, port 32853, past a padded attribute |
| Stun.MaskedDigit | internal/punch/service.go:401-406 | a masked address decodes, binary digit by digit, to the digits that differ from the magic cookie |
| SessionLife.CleanupExactly | internal/punch/service.go:328-338 | a cleanup closes exactly the sessions last seen before the cutoff and leaves all else as it is |
| SessionLife.HeardSurvives | internal/punch/service.go:266-268 | in every run a remote whose packet or reply came at time t keeps its session, on an open socket, through all cleanups that cut off no later |
| MigrationOutcomes.CompleteRunRan | internal/store/db.go:65-124 | a run that succeeds has executed exactly the .sql files not recorded before, in ascending order, leaving out the initial one exactly if the three tables were there at its turn, and has recorded them all |
| MigrationOutcomes.CompletesIff | internal/store/db.go:65-124 | a run succeeds exactly if its set-up does and every such file, unless recognised, has text to run and nothing fails |
| SqlUpdate.UserUpdateColumns | internal/store/user_store.go:245-279 | the account update column by column: no statement exactly if nothing is set, else one row changes, only where a field is set, and the time stamp |
| Ipam.NoWrap | internal/peer/ipam.go:49-54 | network plus subnet size never passes 2^32, so `networkNum + uint32(idx)` does not wrap for any prefix length |
| Ipam.ReadQuadText | internal/peer/ipam.go:55 | the dotted-quad reader gives back the four bytes of a formatted address |
| Ipam.ReadQuadOnly | internal/peer/ipam.go:77-80 | and accepts no other text |
| Ipam.Parse | internal/peer/ipam.go:77-80 | four numerals up to 255 between three dots: text reads as an address exactly when it is that address's canonical form |
| Ipam.Allocator.constructor | internal/peer/ipam.go:25-35 | a new allocator holds nothing back |
| Ipam.Allocator.Search | internal/peer/ipam.go:41-62 | the counting loop with wrapping addition and text lookups finds the first free address of the abstract set |
| Ipam.Allocator.Allocate | internal/peer/ipam.go:37-63 | hands out and marks that one address, or fails and changes nothing |
| Ipam.Allocator.Release | internal/peer/ipam.go:65-71 | frees exactly the address the text denotes; other text changes nothing |
| Ipam.Allocator.Reserve | internal/peer/ipam.go:73-87 | succeeds exactly for addresses inside the subnet and then marks exactly that one |
| Ipam.ContainsIff | internal/peer/ipam.go:81 | a subnet contains exactly the addresses that agree with its network in the first `ones` bits |
| Ipam.FormatSample | internal/peer/ipam.go:55 | the text of one known address |
| PeerManager.Manager.constructor | cmd/scnet-server/main.go:118-127 | the manager starts in the state its parts are in |
| PeerManager.Manager.ActiveRows | internal/store/peer_store.go:139-161 | lists every active row exactly once, in some order |
| PeerManager.Manager.FindActiveByKey | internal/peer/manager.go:254-268 | the scan for a key finds the user's active row with it, or none exists |
| PeerManager.Manager.FindByPublicKey | internal/store/peer_store.go:103-119 | finds the row holding a key, or none exists |
| PeerManager.Manager.CheckAddPeer | internal/peer/manager.go:144-182 | the checks in their order admit or reject as the transition says, whatever calls fail |
| PeerManager.Manager.AddPeer | internal/peer/manager.go:138-246 | table, device, allocator, outcome and the address given, for every set of failing calls, including the ignored undo |
| PeerManager.Manager.AddAdmitted | internal/peer/manager.go:184-235 | the part after the checks: address, device, table write and the compensations |
| Outcomes.AddExhausted | internal/peer/manager.go:184-187 | with no host address free it says so and changes nothing |
| PeerManager.Manager.RemovePeer | internal/peer/manager.go:248-286 | the same for removal, which may stop with the device entry gone and the row active |
| Outcomes.RemoveNothing | internal/peer/manager.go:254-268 | of a peer the user does not have nothing is removed, and that is said |
| PeerManager.Manager.ReplaceKey | internal/peer/manager.go:332-364 | the same for a key change, which may stop with the device changed and the row not |
| PeerManager.Manager.AdminSetStatus | internal/api/admin_handler.go:266-336 | disconnect and revoke: removal first with its error ignored, then the status write |
| Outcomes.AdminRemoval | internal/api/admin_handler.go:283-297 | what that removal leaves on device, allocator and row in each of its failures |
| Outcomes.AdminNothing | internal/api/admin_handler.go:273-281 | for a row that does not exist nothing happens, and that is said |
| Outcomes.ReplaceNothing | internal/peer/manager.go:343-352 | a key change of a peer the user does not have does nothing, and says so |
| PeerManager.Manager.AppendStale | internal/peer/manager.go:424-434 | adds a removal for exactly the device keys no active row has, in any map order, no key twice |
| PeerManager.Manager.Diff | internal/peer/manager.go:380-434 | the change list is exactly the wanted entries; fails exactly when an attempted last-seen write fails |
| PeerManager.Manager.Reconcile | internal/peer/manager.go:366-447 | the call with nothing in between: outcome, reserved addresses and device for every set of failing calls, on any table |
| PeerManager.SomehowIsReconcile | internal/peer/manager.go:390-443 | with distinct addresses that order does not show: the result is the one order-free goal |
| PeerManager.Manager.Rebuild | internal/peer/manager.go:540-567 | one ReplacePeers call with every active row in some order, or nothing changes |
| PeerManager.SomehowIsRebuilt | internal/peer/manager.go:540-567 | with distinct addresses that order does not show |
| PeerManager.RebuiltRoutesSome | internal/peer/manager.go:540-567 | on any table, even one whose active rows share addresses, exactly the active keys are on the device and each active address leads to an active row at it |
| PeerManager.Manager.RotateServerKey | internal/peer/manager.go:470-511 | all active peers under the new key, or nothing changes |
| PeerManager.Manager.SetWGEnabled | internal/peer/manager.go:526-592 | enabling restores key and all active peers, disabling clears both, a failure changes nothing |
| Outcomes.RebuildOutcomes | internal/peer/manager.go:470-592 | rotation, enabling and disabling change the device in one call or not at all, and to what |
| Outcomes.EntryMeans | internal/peer/manager.go:489-495 | what one entry of a device configuration does to keys and routes, with and without replacing addresses |
| PeerManager.RebuildFromList | internal/peer/manager.go:477-504 | any listing order, with or without ReplaceAllowedIPs, gives one and the same device |
| PeerManager.DiffKeySet | internal/peer/manager.go:390-443 | on any table, applying the change list makes the device key set the active key set |
| PeerSafety.StrandedSurvivesReconcile | internal/peer/manager.go:343-434 | in particular a row stranded by ReplaceKey, through any sequence of Reconciles |
| PeerHistory.StepChangesOneRow | internal/store/peer_store.go:172-197 | every operation changes at most one row and only in the ways its name allows |
| Revocation.RevokedInterleaved | internal/peer/manager.go:170-209 | if no call in flight can still activate the row, every interleaving without an admin disconnect of it leaves it alone; a Reconcile that then runs with nothing in between takes its key off the device |
| StaleWrites.RevokedStepIff | internal/store/peer_store.go:172-197 | with every read and write split, a step leaves a revoked row alone exactly when no write but a revocation, or a key change without effect, lands on it |
| StaleWrites.RevokedStaysIff | internal/store/peer_store.go:172-197 | along one interleaving the row stays throughout exactly when no such write lands in it |
| StaleWrites.RemovalUndoesRevocation | internal/peer/manager.go:254-281 | for any active row, a RemovePeer in flight turns a revocation into a disconnect |
| StaleWrites.RekeyAfterRevocation | internal/peer/manager.go:338-363 | for any active row, a ReplaceKey in flight changes the key of the row after its revocation |
| ReconcileDiff.ApplyIndependent | internal/peer/manager.go:441-443 | the entries of a diff have the sum of their effects in any order and on any device, also one that has changed since |
| ReconcileDiff.SecondReconcileIdle | internal/peer/manager.go:436-439 | a second Reconcile changes nothing and succeeds even if the device refuses changes |
| AddInterleaving.SoloCallIsAddPeer | internal/peer/manager.go:184-246 | the steps of an admitted call run alone are exactly the one-step AddPeer |
| StaleDiffs.SoloSweepIsReconcile | internal/peer/manager.go:366-443 | the steps of a Reconcile run alone are exactly the one-step Reconcile |
| StaleDiffs.SoloRebuild | internal/peer/manager.go:470-577 | a listing and a rebuild run alone are exactly the one-step RotateServerKey and enableWG |
| StaleDiffs.ReserveOneIff | internal/peer/manager.go:375-377 | reserving a listed address holds it back if it lies inside the subnet, and otherwise ends the sweep |
| StaleDiffs.ReachesDiff | internal/peer/manager.go:380-434 | from any good table with an active row, a disable and a Reconcile reach the moment between diff and send with every active row pending |
| StaleDiffs.StaleSendAfterReplace | internal/peer/manager.go:354-443 | a ReplaceKey in between: the row loses its address to its old key |
| RoutingInterleaving.PersistRoutedIff | internal/peer/manager.go:202-235 | one table write of a call in flight keeps routing if and only if its key is off the device or leads to its address |
| RoutingExact.MisroutingHappens | internal/peer/manager.go:195-235 | two calls that begin with one new key misroute in some continuation, with no call failing |
| RateLimit.LogExact | internal/api/ratelimit.go:25-40 | at every later time the compacted list and the full history of accepts agree on the current window |
| RateLimit.StoredExact | internal/api/ratelimit.go:28-40 | the stored list is the accept history filtered to the window |
| RateLimit.OneWindowBound | internal/api/ratelimit.go:21-42 | no half-open interval one window long holds more than `limit` accepts |
| RateLimit.FeasibleIffEveryWindow | internal/api/ratelimit.go:28-38 | at most `limit` requests taken in the window ending at each request taken is the same as at most `limit` in every half-open window |
| RateLimit.GreedyFeasible | internal/api/ratelimit.go:21-42 | the bucket's own selection respects the limit in that sense |
| RateLimit.LimiterSeparates | internal/api/ratelimit.go:55-74 | each key's bucket is that of its own requests alone, with its first request's limit and window |
| RateLimit.Compact | internal/api/ratelimit.go:28-34 | compaction through the aliased slice keeps exactly the recent entries, in order |
| RateLimit.RateLimitBucket.Append | internal/api/ratelimit.go:40 | one more timestamp at the end, in the old or a new backing array |
| RateLimit.RateLimitBucket.Allow | internal/api/ratelimit.go:21-42 | decision and new list are those of the specification |
| RateLimit.RateLimiter.GetOrCreate | internal/api/ratelimit.go:55-69 | the key's one bucket, new and empty on first use; no other bucket notices |
| RateLimit.RateLimiter.Allow | internal/api/ratelimit.go:71-74 | serves one request of one key and leaves every other bucket alone |
| Registration.StepCappedIff | internal/admin/service.go:286-301 | a step keeps every count within its maximum, and room in every locked invite, exactly when it is not a late write of a lower maximum |
| Registration.AtomicUpdateNotStale | internal/admin/service.go:278-299 | an update whose read and write are not separated is never such a write |
| Registration.RunKeepsStudents | internal/store/user_store.go:125-130 | no interleaving commits two users with one student id |
| RegistrationOutcomes.PreCheckIff | internal/model/invite.go:22-30 | the unlocked look passes exactly if uses are left and the expiry has not passed |
| RegistrationOutcomes.SelectWaits | internal/store/user_store.go:153-158 | while another call holds the row, the look under the lock waits |
| RegistrationOutcomes.UnknownCodeEnds | internal/auth/service.go:126-132 | a code no invite has ends the call at either look |
| RegistrationOutcomes.RegisterRefused | internal/auth/service.go:79-132 | with an unknown code or a student who has an account nothing changes |
| RegistrationOutcomes.UndisturbedBootstrap | internal/store/user_store.go:105-135 | the first registration needs no invite and makes the admin |
| RegistrationOutcomes.LockTableIff | internal/store/user_store.go:105 | the table lock is granted exactly if nobody holds it and nobody has an uncommitted row |
| RegistrationOutcomes.InsertIff | internal/store/user_store.go:169-182 | an insert waits for the table lock and for an uncommitted row of the same student, and goes through exactly if no such account is committed |
| RegistrationOutcomes.MarkUsedIff | internal/store/user_store.go:184-190 | the use is counted only if the invite is still there; otherwise the call ends |
| RegistrationOutcomes.RollbackLeavesNoTrace | internal/store/user_store.go:143-147 | a call that fails frees its locks and changes no committed row |
| RegistrationOutcomes.UndisturbedUpdate | internal/admin/service.go:272-302 | an update changes the fields asked for exactly if the invite exists and a new maximum is at least one and the uses so far |
| RegistrationOutcomes.UndisturbedDelete | internal/admin/service.go:304-322 | a delete removes the invite exactly if it exists and has never been used |
| RegistrationOutcomes.CreateIff | internal/admin/service.go:237-270 | an invite is made, unused, exactly if it allows at least one use and neither id nor code is taken |
| Stun.ParseBindingResponse | internal/punch/service.go:354-394 | the loop over a moving offset terminates, stays inside the packet and computes the attribute walk |
| Stun.ParseLocal | internal/punch/service.go:366-373 | the result depends only on the first 20 plus declared-length bytes |
| Stun.AddressDecodes | internal/punch/service.go:396-414 | plain and XOR address attributes decode to the address and port they were made from |
| Stun.XorDigit | internal/punch/service.go:404-406 | the mask is exclusive or: a digit is 1 exactly if the digits differ |
| Stun.DecodesIff | internal/punch/service.go:396-413 | an attribute decodes exactly if it has eight bytes, family 1 and one of the two types; a plain one to the numbers its bytes spell |
| Stun.HeaderBytes | internal/punch/service.go:356-369 | the header test, byte by byte |
| Probes.Service.RegisterProbe | internal/punch/service.go:165-169 | a new probe's channel is registered, empty, under its transaction |
| Probes.Service.Unregister | internal/punch/service.go:170-174 | a finished probe is no longer registered |
| Probes.Service.LookupResponse | internal/punch/service.go:231-242 | the locked half: exactly the binding responses are consumed, and those to a registered transaction are held for its channel |
| Probes.Service.Send | internal/punch/service.go:244-247 | the unlocked half delivers into an empty channel and drops otherwise, whatever has happened to the registration since |
| Probes.Service.HandleStun | internal/punch/service.go:230-249 | both halves in a row are the steps of the proxy in a row |
| Probes.Service.ProbeServers | internal/punch/service.go:116-130 | given one outcome for each server, the answer of the first that answers; none exactly when all fail |
| Sessions.CloseLeavesInFlight | internal/punch/service.go:132-138 | after the locked half of Close exactly the sockets callers hold are open, so none exactly when none holds one |
| Sessions.LateInsertSurvivesClose | internal/punch/service.go:283-290 | a caller holding a socket then puts it, open, into the closed service's table |
| Sessions.LateListenSurvivesClose | internal/punch/service.go:273-290 | a caller without one opens a socket after Close and does the same |
| Sessions.PacketInHandSurvivesClose | internal/punch/service.go:211-227 | so does a packet the read loop has in hand |
| Sessions.ArrivalDuringClose | internal/punch/service.go:132-140 | and one that arrives between the two halves of Close, even if nobody was about when it began |
| Sessions.Service.LookupSession | internal/punch/service.go:264-271 | returns and refreshes the session of a remote, or finds none |
| Sessions.Service.InsertSession | internal/punch/service.go:283-293 | the session serving the remote afterwards: the caller's, or an existing one with the caller's socket closed |
| Sessions.Service.CleanupIdleSessions | internal/punch/service.go:328-338 | closes and forgets exactly the idle sessions, in any map order |
| SessionLife.SilentIsClosed | internal/punch/service.go:332-336 | and one that falls silent is closed by the first cleanup that cuts off later |
| SessionLife.SeenSetsTime | internal/punch/service.go:266-311 | a packet, a reply and the insertion set the time a session was last seen, and nothing else does |
| SessionLife.FailedListenEnds | internal/punch/service.go:273-276 | a caller whose socket cannot be opened is gone and nothing else has changed |
| Sessions.Service.Close | internal/punch/service.go:132-140 | closes and forgets every session in the table, then closes the shared socket |
| Migrations.SortEntriesSorts | internal/store/db.go:82-84 | the sort used here puts the same entries in ascending order |
| Migrations.AnySortAgrees | internal/store/db.go:82-84 | any other sort gives that very list, names being distinct |
| Migrations.ExtractSection | internal/store/db.go:212-254 | the line scanner with its flag finds the text between the first Up marker and the next Down marker, or all of an unmarked file, and refuses blank text |
| Migrations.OnlyTheBodyRuns | internal/store/db.go:221-241 | in a file with both markers exactly the lines between them run, whatever stands before and after |
| MigrationOutcomes.MarkerLines | internal/store/db.go:221-227 | a line is a marker with any white space around it |
| MigrationOutcomes.UnmarkedRunsWhole | internal/store/db.go:248-253 | a file without an Up marker runs as a whole, and a blank one is an error |
| MigrationOutcomes.UpToTheEnd | internal/store/db.go:240-246 | one without a Down marker runs from the Up marker to its end |
| MigrationOutcomes.RepeatedUpLeftOut | internal/store/db.go:221-237 | a repeated Up marker is left out and the lines around it run |
| Migrations.Runner.ApplyMigration | internal/store/db.go:177-199 | Up section and record commit together or not at all |
| Migrations.Runner.RunMigrations | internal/store/db.go:65-124 | a run with a hand-kept applied set is the specified run, wherever it is cut short |
| MigrationOutcomes.EmptyDatabase | internal/store/db.go:95-121 | an empty database ends with every .sql file in its log, once and in order |
| MigrationOutcomes.BeforeIff | internal/store/db.go:82-84 | file names compare as strings do |
| Migrations.CompleteRunSettles | internal/store/db.go:91-94 | after a complete run every .sql file is recorded and no later run changes anything |
| Migrations.LegacyInitNeverRuns | internal/store/db.go:95-104 | a database that already had the three tables never executes the initial migration |
| SqlUpdate.CompileMeans | internal/store/user_store.go:250-264 | for every list of optional updates, placeholders come out $1..$n in order and the clauses with the arguments do what the updates do |
| SqlUpdate.ApplyAllAt | internal/store/user_store.go:290-302 | each update decides its own column and an untouched column keeps its value |
| SqlUpdate.PlaceholdersInOrder | internal/store/user_store.go:270-273 | the finished statement uses exactly $1..$n, the row id last, and every argument |
| SqlUpdate.ExecuteMeans | internal/store/user_store.go:266-278 | the server accepts the statement and changes exactly that one row as asked |
| SqlUpdate.BuildUserUpdate | internal/store/user_store.go:245-279 | the builder with its counter makes the specified statement, or none |
| SqlUpdate.InviteUpdateColumns | internal/store/invite_store.go:111-138 | the invite update column by column |
| SqlUpdate.BuildInviteUpdate | internal/store/invite_store.go:111-138 | likewise for invites |

## Left out

- PeerManager.Manager.AddPeer: keys, ids and account rows are opaque with equality; malformed ids and keys (uuid.Parse, wgtypes.ParseKey), the constant fields of the returned registration and the public-key arithmetic are not modelled. A new row id is assumed unused.
- PeerManager.Manager.Reconcile: when an active address lies outside the subnet only bounds on the reserved set are stated, since the rows' order decides where the loop stops. The branches that skip malformed keys are not modelled; the one for malformed addresses cannot be reached, as Reserve fails first. The last-seen column is not stored, only whether writing it fails.
- PeerManager.Manager.Diff: the branch that skips a malformed key is not modelled.
- PeerManager.Manager.Rebuild: the listen port is not part of the device state, and the branches that skip malformed keys and addresses are not modelled.
- PeerManager.Manager.RotateServerKey: the same branches.
- PeerManager.Manager.SetWGEnabled: the same port and branches.
- Ipam.Parse: IPv4 text only; IPv6 and IPv4-mapped forms are not modelled.
- Ipam.Allocator.Reserve: IPv4 text and IPv4 subnets only, for the same reason.
- PeerRefinement.RunRefines: excludes disabling the interface (Reconcile and AddPeer still put peers on a disabled device) and ReplaceKey onto a held key; a removal that fails inside an admin disconnect leaves the address reserved, so the equality holds for failure-free runs only.
- PeerSafety.RunSafe: operations follow one another.
- RoutingInterleaving.InterleavingRouted: AddPeer, Reconcile, enableWG and RotateServerKey are split; RemovePeer, ReplaceKey and the admin calls are single steps, and overlaps of these are not claimed safe for routing. A failed last-seen write is a sweep abandoned.
- RoutingExact.RoutingKeptIff: asks that two addresses are free if a live call has none yet; without them such a call can come to configure its key only after others free addresses.
- StaleDiffs.StaleSendAfterRemoval: asks that the freed address is the least free one, so that the next peer gets it.
- PeerHistory.RevokedForever: operations follow one another; for calls in flight see Revocation and StaleWrites.
- Revocation.RevokedForeverIff: if a pending call has no address yet, one is to be free; else it can activate the row only after another frees one.
- StaleWrites.QuietStaysIff: device, allocator and quotas are left aside; that a pending change to a key another row holds comes to bear may take admin calls on that other row.
- AddInterleaving.InterleavingSafe: speaks of addresses only; the quota check is not locked, so no quota is claimed for concurrent adds. RemovePeer, ReplaceKey and the admin calls are single steps.
- PeerHistory.RunWithinQuota: sequential runs only, for the same reason.
- Registration.InviteConservation: modelled on values rather than as a class, since the subject is the interleaving of transactions. PostgreSQL is taken to run them READ COMMITTED with row and table locks as documented; the comparison of expiry times at the exact instant differs between pre-check and transaction, and both forms are kept. Field validation, password hashing and the account's other columns are not modelled.
- Probes.Service.ProbeServers: each server's outcome is given; that it is the one of its probe is FirstResponseWins.
- Probes.FirstResponseWins: a packet handed to the forwarder is dropped if no session can be opened or the write fails, which is not modelled; transaction IDs of probes in flight are assumed distinct; timers appear only as a probe leaving at any moment. The text form of an endpoint is not modelled.
- Sessions.RunAccounted: the goroutine per session appears as replies that refresh its session; any number of packets may be in hand, where the read loop has one at a time.
- Migrations.Runner.RunMigrations: the SQL of a file is opaque but for whether the legacy tables exist afterwards; a second server migrating at the same time and the choice of directory are not modelled; sorting is by insertion, which AnySortAgrees shows to be no restriction.
- SqlUpdate.ExecuteMeans: statements are clauses and numbers, not text; column types are not checked.
- HTTP routing, JSON binding, log-in and token handling, password policy, pagination, the list queries' filters, the relay agent, the discovery reporter, configuration and the `ip` command: input and output around libraries, or settled by reading one branch.
