# The control plane, modelled and proved

This project models the part of the VPN control plane that has to stay consistent and proves what
the rest of the system relies on. PostgreSQL holds the clients, their daily usage rows, the
WireGuard peers, the refresh sessions and the backup rows; Xray and WireGuard are runtimes that
must follow it. Everything that a call to a database, a runtime or a random source may answer,
failures included, is a parameter or a free choice of the model. The stores count their failed calls, so that
a method may only fail, or leave a step undone, when a call did (`Failures`, `AllWell`). Every request or tick
has one `now`, given in milliseconds.

The files, in the order in which they build on each other:

- `Basics`, `JsStrings`, `Decimals`, `JsInt32`: options, JavaScript's `trim` and `split`, decimal
  notation, and JavaScript's bit operators, signed (`<<`, `&`, `|`) and unsigned (`>>>`).
- `StatNames`, `TrafficDeltas`, `Usage`, `Clients`: the names of Xray's statistics, the summing of
  counters, a client's daily rows, and the two ways of reading a client's status.
- `ControlPlane`: the state (client table with usage rows, audit log, Xray's user map and counters,
  the service's own flag, the rows that a full sync has read and still has to do, the records that
  wait for their own sync, the rows that an expiry has read and not yet written) and every step that
  changes it, each with the ways in which it may fail. A full sync is a read, one step for each row's
  turn, and an end, an expiry is a read and a write; every other step may come in between.
- `Ledger`, `EnforcementProofs`, `SyncProofs`: what holds over whole runs of steps.
- `Stores`, `XrayService`, `ClientsService`, `DashboardService`: the classes. Each method is proved to be a run of those
  steps (`Next`, `Reaches`), wherever a call inside it fails. Where a sync, an expiry or an admin's
  action waits for an answer, `XrayService.Service.Others` stands for whatever anybody else does
  meanwhile.
- `Recovery`: two health ticks with anything in between.
- `ClientImport`, `ImportService`, `ImportProofs`: import and export of clients, also as such runs.
- `Witnesses`: a concrete state or run for each of the properties below that fails.
- `WireguardIp`, `WireguardIpProofs`, `WireguardPeers`, `WireguardService`: address arithmetic, the
  peer table under interleaved callers, and the rendered configuration.
- `TunnelProofs`: the WireGuard file beside the control plane.
- `Base32`, `Base32Proofs`, `Totp`: the codec of the two-factor secrets (section 6 of RFC 4648
  without padding) and the one-time passwords (section 5.3 of RFC 4226, section 5.2 of RFC 6238).
- `Dashboard`, `DashboardProofs`, `DashboardAnalytics`: two groupings of the same usage rows.
- `LoginLimiter`, `Sessions`, `Backups`: three small state machines whose clean-up must not change
  decisions.

## Where a property fails

Some properties one would expect do not hold of the code. Each is stated as an if-and-only-if whose
other side is the failing family, on the state before the step; the lemma in `Witnesses` shows one
member of the family.

- A full sync acts on rows as it read them, and does not wait for a snapshot under way. A client that
  was read as ACTIVE, then blocked and cut off, is put back by its turn and stays in Xray although its
  row says BLOCKED (`EnforcementProofs.BreaksInForceExactly`; the run is
  `Witnesses.SyncRevivesBlocked`).
- An expiry reads the active rows past their term, and then sets them to EXPIRED whatever they say by
  then. A client that a snapshot blocks between the two calls loses its block: it is over its quota
  and EXPIRED, and the next update to a later term lets it run, which a BLOCKED row would not
  (`EnforcementProofs.BreaksInForceExactly`, `EnforcementProofs.StepKeepsQuotaExactly`,
  `EnforcementProofs.ExpiryLosesBlock`, `ClientsService.OverwrittenBlockRevivesExactly`; the run is
  `Witnesses.ExpiryOverwritesBlock`, its consequence `Witnesses.OverwrittenBlockRevives`). What survives of the quota is
  `EnforcementProofs.OverQuotaStops`: whoever is over it is BLOCKED, or EXPIRED past its term. The
  dashboard's expiry repeats the condition in the call that writes and has no such race.
- That expiry syncs nobody, and no other expiry finds its clients again: their users stay in Xray
  until a full sync, a cut or a restart (`SyncProofs.OverstayEndsExactly`,
  `SyncProofs.NeverReadAgain`, `Witnesses.DashboardExpiryLeavesUser`).
- Enforcement never asks for a rendering: a client that a snapshot blocks stays in the WireGuard file
  until some later rendering has read its row (`TunnelProofs.BlockedLeavesFileExactly`,
  `Witnesses.BlockedStaysListed`).
- An update, of whichever column, writes the status that it computed from the row as it was read: it
  lifts a block that came in between (`ClientsService.RacingUpdateForgetsBlock`), and it puts back the
  term and the switches, so that an extension that came in between is lost
  (`ClientsService.UpdatePutsBackExactly`).
- A tick that notices a restart of Xray by its uptime remembers that uptime before it syncs. If the sync
  fails, or another one is under way, the next tick sees a rising uptime and a flag that is still up and
  does nothing: the runtime stays empty until a snapshot, a probe or an admin moves the flag or syncs
  (`Recovery.TickTwice`, `SyncProofs.FlagMovesExactly`; the run is `Witnesses.RecoveryIsForgotten`).
- A failed snapshot asks for a repair sync, but a complete snapshot withdraws the request without
  repairing (`SyncProofs.RepairForgottenExactly`, `Witnesses.RepairIsForgotten`).
- Users of Xray that are nobody's: an edit that gives a client in Xray another tag (an overwriting
  import does) leaves its old user behind, and a deleted client keeps its access when the one attempt
  to remove its user fails. The comment at `apps/api/src/modules/clients/clients.service.ts:906-909`
  expects the periodic sync to repair such drift, but that sync only knows the tags of the table: the
  user stays, and its traffic is discarded, until Xray restarts or a client takes the tag
  (`SyncProofs.StrangersExactly`, `SyncProofs.StrangersOutliveSyncs`,
  `SyncProofs.DeletedKeepsAccessExactly`, `Witnesses.RenamedUserStays`, `Witnesses.DeletedUserStays`).
- A snapshot that fails between its transaction and the end of enforcement can leave clients running
  over their quota (`EnforcementProofs.SnapshotKeepsQuotaExactly`,
  `Witnesses.HalfDoneSnapshotBreaksQuota`).
- A client that Xray still keeps counters for, that moved nothing, is offline and has no row for
  today goes on being shown with the connections of its last row
  (`EnforcementProofs.SnapshotConnections`, `Witnesses.StaleConnectionsShown`).
- Extending a client writes ACTIVE without looking at its usage, and an update recomputes the status
  as if nothing had been used: the quota is then only enforced again by the next snapshot that names
  the client (`ClientsService.ExtendKeepsQuotaExactly`, `ClientsService.UpdateKeepsQuotaExactly`,
  `ClientsService.ExtendSplitsViewsExactly`, `Witnesses.ExtensionBreaksQuota`,
  `Witnesses.UpdateBreaksQuota`).
- An update that only switches a client to limited traffic drops its limit, so that the client has no
  quota at all (`ClientsService.UpdateKeepsLimitExactly`, `Witnesses.LimitIsDropped`).
- Quota enforcement overwrites DISABLED with BLOCKED, and a later traffic reset then makes the client
  ACTIVE (`ClientsService.DisabledClientRevivedExactly`, `Witnesses.DisabledClientRuns`).
- An import stores a disabled or expired client over its quota as DISABLED or EXPIRED, not BLOCKED
  (`ImportProofs.ImportKeepsQuotaExactly`, `Witnesses.ImportBreaksQuota`); one that fails half-way syncs none of the clients that it
  has already written (`ImportService.Service.ImportClients`).
- For a server address from 128.0.0.0 on, the address allocator compares signed with unsigned numbers
  and hands out the same address whatever is in use (`WireguardIpProofs.AvoidsUsedExactly`); for
  prefix 0 it never finds an address (`WireguardIpProofs.WholeSpaceNeverAllocates`).
- A client shown as over its quota is exported as BLOCKED and stays BLOCKED after the import, also
  when it has expired in between (`ImportProofs.RestoredStatusExactly`).
- A refresh token of the same second as its successor is that successor, so presenting it does not
  revoke the session (`Sessions.SameSecondSameToken`); an older token that has itself expired is
  turned away without revoking (`Sessions.StaleTokenRevokesExactly`).
- Pruned failed backups count as successful; this changes a decision exactly when backups are kept
  for less time than the interval between them (`Backups.PruningNeverMattersExactly`).
- An automatic backup whose audit entry cannot be written is marked FAILED although its archive is complete, and
  the next tick makes another one at once (`Backups.NextKeepsValidExactly`,
  `Backups.AuditFailureRepeatsBackup`).
- A login block ends with the window of the first failure, not a full window after it was set
  (`LoginLimiter.BlockLastsExactly`, `LoginLimiter.BlockedAfterwardsExactly`).

## Model

| member | source | states |
|---|---|---|
| StatNames.OnlineRoundTrip | apps/api/src/modules/xray/xray-limit-enforcement.util.ts:7-9 | parsing the printed presence name gives the tag back exactly for tags without `>>>` that do not end in `>`, and nothing for every other tag |
| StatNames.TrafficRoundTrip | apps/api/src/modules/xray/xray.helpers.ts:26-43 | the same for both directions of the traffic counters |
| StatNames.AcceptedOnlineName | apps/api/src/modules/xray/xray.helpers.ts:45-53 | whatever the presence parser accepts is the printed name of the tag it returns |
| StatNames.AcceptedTrafficName | apps/api/src/modules/xray/xray.helpers.ts:26-43 | whatever the traffic parser accepts is the printed name of the tag and direction it returns |
| StatNames.TrafficNameInjective | apps/api/src/modules/xray/xray.helpers.ts:26-43 | two counters share a name only when they count the same direction of the same tag |
| StatNames.NamesInFull | apps/api/src/modules/xray/xray.helpers.ts:26-53 | the names spelled out, for every tag |
| TrafficDeltas.BuildTrafficDeltaMap | apps/api/src/modules/xray/xray.helpers.ts:62-90 | the loop's map has exactly the non-empty tags that the statistics carry, each with the separately summed directions and their total |
| TrafficDeltas.ReportedIsCounted | apps/api/src/modules/xray/xray.helpers.ts:62-90 | what is summed for a tag is what Xray counted for it, in whatever order the answer lists the counters; nothing for a tag that cannot be read back |
| TrafficDeltas.AggregationIsExact | apps/api/src/modules/xray/xray.helpers.ts:62-90 | the summed map is a function of the counters alone |
| XrayService.NormalizeOnlineTags | apps/api/src/modules/xray/xray.helpers.ts:55-60 | exactly the non-empty tags named by a trimmed bare tag or presence name |
| XrayService.PresenceNamesTheTag | apps/api/src/modules/xray/xray.helpers.ts:55-60 | a presence statistic and the bare tag are the same client |
| ControlPlane.DayIsExact | apps/api/src/modules/xray/xray.helpers.ts:103-105 | a moment belongs to the day whose 24 hours hold it |
| Clients.ViewsAgreeExactly | apps/api/src/modules/clients/client-presenter.ts:34-59 | the usage-blind and the usage-aware reading of a status differ exactly for a client over its quota whose row still lets it run |
| Clients.StatusExactly | apps/api/src/modules/clients/client-presenter.ts:34-59 | every status on display told from the columns: a client may run at every time before its term ends and at none from then on, and below its quota |
| Clients.RemainingIsWhatIsLeft | apps/api/src/modules/clients/client-presenter.ts:85-90 | nothing is left on display exactly for the clients over their quota; otherwise used and left make up the quota |
| Usage.CapturedOtherDays | apps/api/src/modules/xray/xray.service.ts:340-429 | a snapshot changes no row of a client but today's |
| Usage.CapturedBytes | apps/api/src/modules/xray/xray.service.ts:402-429 | today's row grows by exactly the observed uplink and downlink, also where the row is created or skipped |
| Usage.CapturedSum | apps/api/src/modules/xray/xray.service.ts:340-429 | so does the client's all-time sum, in each direction and in total |
| Usage.ConnectionsShown | apps/api/src/modules/xray/xray.service.ts:340-400 | the latest row shows the observed connections, or 0 for an unnamed client, in all cases but one |
| XrayService.Service.PerformCaptureUsageSnapshot | apps/api/src/modules/xray/xray.service.ts:299-462 | the state moves by one of the snapshot steps; it is a complete one unless a call failed, failure asks for a repair sync; the clients taken as online are exactly those that Xray names, each with the number of addresses that Xray lists |
| XrayService.Service.CaptureUsageSnapshot | apps/api/src/modules/xray/xray.service.ts:181-201 | without force nothing happens exactly within the interval after a complete snapshot; otherwise a complete one is taken unless a call failed |
| XrayService.Service.ReadRuntime | apps/api/src/modules/xray/xray.service.ts:301-321 | unless a call failed: what is read is what the counters held, whom Xray names as online and the addresses it lists for them, and the counters are zero afterwards; after a failure they are as they were or zero |
| XrayService.Service.LoadOnlineIpCounts | apps/api/src/modules/xray/xray.service.ts:662-700 | the number of addresses that Xray lists for each tag, blank ones left out, by the fallback query where the list fails, and 0 where both do |
| XrayService.Service.RecordTransaction | apps/api/src/modules/xray/xray.service.ts:340-441 | the transaction's loops together give every client the rows and times that one snapshot means for it |
| XrayService.Service.DismissUnnamed | apps/api/src/modules/xray/xray.service.ts:350-384 | exactly the unnamed clients on display as online get a row of today that says 0 |
| XrayService.Service.ChargeClient | apps/api/src/modules/xray/xray.service.ts:386-440 | a named client's row and times, the skipped idle client included |
| XrayService.Service.Enforce | apps/api/src/modules/xray/xray.service.ts:443-446 | quota and access enforcement in sequence block, cut off and log exactly the clients over a limit, and up to a failure only such clients |
| XrayService.Service.EnforceTrafficQuotas | apps/api/src/modules/xray/xray.service.ts:464-520 | exactly the named clients over their quota are blocked and cut off; a failure leaves a subset of them, blocked before cut off |
| XrayService.Service.EnforceClientAccessLimits | apps/api/src/modules/xray/xray.service.ts:522-578 | the rows moved from ACTIVE to BLOCKED are exactly the rows logged, each once and with what was observed; everybody over a device or IP limit is cut off; nothing of it is missing unless a call failed |
| ControlPlane.BreachesExactly | apps/api/src/modules/xray/xray-limit-enforcement.util.ts:17-41 | no breach exactly when the number of addresses is at most each limit that is set; otherwise each limit that is exceeded, once, with the count |
| XrayService.Service.JudgeClient | apps/api/src/modules/xray/xray.service.ts:535-577 | a row is blocked and logged only while it is still ACTIVE at that moment |
| XrayService.Service.AddOrReplaceUser | apps/api/src/modules/xray/xray.service.ts:580-594 | without a failed call it succeeds, whoever held the tag before, and success leaves the tag with the uuid; a failure leaves it as it was, absent, or with the uuid |
| XrayService.Service.SyncClient | apps/api/src/modules/xray/xray.service.ts:132-163 | the turn of one waiting record: its own tag ends as desired unless a call failed or the transport is not supported, and then as it was, absent or as desired; only an added user marks the runtime as provisioned |
| XrayService.Service.SyncNextRow | apps/api/src/modules/xray/xray.service.ts:257-265 | anything others do, and then the turn of one of the rows that were read, which succeeds unless a call failed; a failed call ends the sync |
| XrayService.Service.PerformSyncAllClients | apps/api/src/modules/xray/xray.service.ts:244-271 | a read, turns at one time on the rows as they were read, others' steps in between, and the end, which is missing only when a call failed |
| XrayService.Service.EnsureRuntimeProvisioned | apps/api/src/modules/xray/xray.service.ts:273-297 | a tick remembers every uptime it is told; a healthy probe starts a full sync exactly when none is under way and the flag is down or the uptime is lower than the last one that any tick was told |
| Recovery.TickTwice | apps/api/src/modules/xray/xray.service.ts:273-297 | over two ticks with anything in between: with uptimes a and then b, no other tick in between and no sync under way, a trusted runtime is synced at the second exactly when b < a, however the first one ended |
| Ledger.NextKeepsValid | apps/api/src/modules/xray/xray.service.ts:299-462 | every step keeps the keys and the uniqueness of tags, uuids and tokens |
| Ledger.SnapshotCharges | apps/api/src/modules/xray/xray.service.ts:301-441 | a recorded snapshot moves a tag's counters into its client's rows to the byte and leaves the counters at zero |
| Ledger.StepBalances | apps/api/src/modules/xray/xray.service.ts:301-441 | for every step, failures included: held after + discarded = held before + credited, per tag and direction |
| Ledger.LedgerBalances | apps/api/src/modules/xray/xray.service.ts:301-441 | the same over every run, imported usage included: no byte of any tag is lost or invented |
| EnforcementProofs.SnapshotUses | apps/api/src/modules/xray/xray.service.ts:386-429 | a recorded snapshot adds exactly the bytes it saw to what a client has used |
| EnforcementProofs.SnapshotSetsStatus | apps/api/src/modules/xray/xray.service.ts:464-560 | after a complete snapshot every client has the status that its limits ask for, told from the row before it |
| EnforcementProofs.SnapshotCutsOff | apps/api/src/modules/xray/xray.service.ts:464-577 | it cuts off exactly the clients it found over a limit |
| EnforcementProofs.SnapshotSeesExactly | apps/api/src/modules/xray/xray.service.ts:386-440 | the two times a client was seen after a recorded snapshot, told from what Xray reported of it |
| EnforcementProofs.SnapshotLogs | apps/api/src/modules/xray/xray.service.ts:543-575 | it logs exactly the clients that it moved from ACTIVE to BLOCKED for an access limit, each once, with the number of addresses and the limits that it exceeds |
| EnforcementProofs.SnapshotKeepsOtherDays | apps/api/src/modules/xray/xray.service.ts:340-429 | a snapshot step changes no row dated before or after today, and keeps the totals consistent |
| EnforcementProofs.SnapshotConnections | apps/api/src/modules/clients/clients.service.ts:662-690 | the connections on display after a snapshot step, and exactly which clients they are wrong for |
| EnforcementProofs.SnapshotKeepsTerms | apps/api/src/modules/xray/xray.service.ts:386-577 | a snapshot changes a client's status and the two times it was seen, nothing else |
| EnforcementProofs.RowAfter | apps/api/src/modules/xray/xray.service.ts:386-577 | without an admin a step changes a client's status to BLOCKED by a snapshot, to EXPIRED by an expiry's write, and nothing else but the two times it was seen |
| EnforcementProofs.BreaksInForceExactly | apps/api/src/modules/clients/clients.service.ts:538-562 | apart from an admin's act on the client, a step undoes its enforcement exactly when it is a successful turn on a record, read before, that still asks for its user, or the write of an expiry that has read the client before |
| EnforcementProofs.StaysInForce | apps/api/src/modules/xray/xray.service.ts:464-660 | a client blocked and cut off, of which no sync and no expiry under way holds an older record, stays so over every interleaved run in which no admin acts on it, whatever fails |
| EnforcementProofs.EnforcedFromThenOn | apps/api/src/modules/xray/xray.service.ts:464-660 | a client that a complete snapshot of a run found over a limit is blocked and cut off at its end, if no sync and no expiry held an older record and no admin acted on it since |
| EnforcementProofs.SnapshotKeepsQuotaExactly | apps/api/src/modules/xray/xray.service.ts:443-520 | a recorded snapshot, also a half-done one, leaves nobody over quota running exactly when it blocked everybody it pushed over it who was not BLOCKED before |
| EnforcementProofs.StepKeepsQuotaExactly | apps/api/src/modules/clients/clients.service.ts:228-562 | exactly which steps leave a client over its quota that is not BLOCKED, the write of an expiry over such a block included |
| EnforcementProofs.ExpiryLosesBlock | apps/api/src/modules/clients/clients.service.ts:538-562 | the write of an expiry that has read a client, which a snapshot blocked for its quota since, leaves it EXPIRED and over its quota |
| EnforcementProofs.QuotaHolds | apps/api/src/modules/xray/xray.service.ts:464-520 | over every run without admin edits, half-done snapshots and expiries that write over a block, every client over its quota is BLOCKED |
| EnforcementProofs.OverQuotaStops | apps/api/src/modules/clients/clients.service.ts:538-562 | with such expiries: every client over its quota is BLOCKED, or EXPIRED with its term passed |
| EnforcementProofs.ViewsAgree | apps/api/src/modules/subscriptions/subscriptions.service.ts:146-149 | over such runs two readings of a row agree: the status that a sync or a rendering would act on is ACTIVE exactly when the one that panel and subscriptions show is; it says nothing about whom the runtimes hold |
| SyncProofs.FullSyncFollowsRead | apps/api/src/modules/xray/xray.service.ts:244-271 | from any user map and with any steps between its turns, a full sync that ends leaves every client whose tag nothing else disturbed as the row that was read asked for |
| SyncProofs.FullSyncConverges | apps/api/src/modules/xray/xray.service.ts:244-271 | so it agrees with the table at its end for every client whose row asks the same as when it was read |
| SyncProofs.UninterruptedSyncAgrees | apps/api/src/modules/xray/xray.service.ts:244-271 | without other steps in between it makes the whole map agree with the table and leaves the tags of nobody alone |
| SyncProofs.SecondSyncChangesNothing | apps/api/src/modules/xray/xray.service.ts:244-271 | a second such sync at the same time changes nothing |
| SyncProofs.FlagMovesExactly | apps/api/src/modules/xray/xray.service.ts:244-297 | exactly which steps raise and which lower the flag that asks for a repair; a restart and a failed sync do neither |
| SyncProofs.RepairForgottenExactly | apps/api/src/modules/xray/xray.service.ts:448-450 | a blocked user left in the runtime survives a complete snapshot, which withdraws the repair request, exactly unless that snapshot finds it over a limit, told from the state before it |
| SyncProofs.StrangersExactly | apps/api/src/modules/clients/clients.service.ts:503-536 | every step keeps the runtime free of users that are nobody's, except exactly an edit that renames a client in the runtime, the deletion of one, and a turn on a record of a client that is gone or renamed |
| SyncProofs.NoStrangersOverRuns | apps/api/src/modules/xray/xray.service.ts:244-265 | over every run without such a step there are none |
| SyncProofs.StrangersOutliveSyncs | apps/api/src/modules/xray/xray.service.ts:244-265 | such a user outlives every run, full syncs included, in which Xray does not restart and no client takes the tag |
| SyncProofs.DeletedKeepsAccessExactly | apps/api/src/modules/clients/clients.service.ts:527-530 | a deleted client keeps its access exactly when it was in the runtime and its one sync had no effect |
| SyncProofs.OverstayEndsExactly | apps/api/src/modules/dashboard/dashboard.service.ts:364-374 | without an admin the user of a client whose row asks for none is lost exactly by a restart, a cut, or a turn that removes it (or the row asks for it again after an expiry wrote over a block and the term was moved) |
| SyncProofs.OverstaysUntilEnded | apps/api/src/modules/dashboard/dashboard.service.ts:364-374 | so it stays over every run without one of these steps |
| SyncProofs.NeverReadAgain | apps/api/src/modules/clients/clients.service.ts:538-546 | over every run without an admin's act on it, no expiry reads a client again that is not ACTIVE |
| ControlPlane.ExpiryFindsExactly | apps/api/src/modules/dashboard/dashboard.service.ts:364-374 | an undisturbed expiry leaves no ACTIVE client past its term, except those whose term ends in that very millisecond, and changes nothing but the status |
| ClientsService.Service.ExpireClients | apps/api/src/modules/clients/clients.service.ts:538-569 | the read of the active clients past their term, whatever others do, the write to exactly the rows that were read, and a sync of each that succeeds unless a call failed; or one of the two calls failed |
| ClientsService.Service.Refresh | apps/api/src/modules/clients/clients.service.ts:102-104 | expiry, then a snapshot unless a complete one is recent; a failed expiry ends it |
| ClientsService.Service.Create | apps/api/src/modules/clients/clients.service.ts:228-299 | a create step with the record that the payload asks for and then its sync; refused exactly without a transport, with an id, a tag, a uuid or a token in use, or by a failed call |
| ClientsService.InUseExactly | apps/api/src/modules/clients/clients.service.ts:228-299 | a new record is refused exactly when its id is taken or the unique indexes would not survive it |
| ClientsService.CreatedAsAsked | apps/api/src/modules/clients/clients.service.ts:228-299 | every column of a new client, told from the request |
| ClientsService.Service.Update | apps/api/src/modules/clients/clients.service.ts:301-394 | whatever others do after the read, an edit step with the columns as computed from the row that was read on top of the row as it is by then, and its sync; or no change, when the client is gone, no transport would be left, or a call failed |
| ClientsService.Service.Extend | apps/api/src/modules/clients/clients.service.ts:396-454 | whatever others do after the read, an edit step to the later term, ACTIVE, and its sync, unless the client is gone or a call failed; when no new term results, what looking at a client does |
| ClientsService.ExtensionsAdd | apps/api/src/modules/clients/clients.service.ts:403-416 | extending by a days and later by b days is extending by a + b days at once |
| ClientsService.ExtensionExactly | apps/api/src/modules/clients/clients.service.ts:403-416 | an extension by days ends that many days after the term did, or after now without one, so never earlier; a date wins; nothing asked for moves nothing |
| ClientsService.Service.ResetTraffic | apps/api/src/modules/clients/clients.service.ts:456-501 | a snapshot, whatever others do, a reset whose status is taken from the row before that snapshot, a sync of the row as it is read again, and a look at the client; without the transaction no more than the steps before it |
| ClientsService.ResetLiftsBlockExactly | apps/api/src/modules/clients/clients.service.ts:456-501 | a reset lifts a block exactly within the term and with a quota that is not zero, and leaves every other status |
| ClientsService.Service.Remove | apps/api/src/modules/clients/clients.service.ts:503-536 | a snapshot, a deletion with the client's rows, and one attempt to remove its user; a failed transaction leaves the snapshot alone |
| ClientsService.UndisturbedUpdate | apps/api/src/modules/clients/clients.service.ts:337-366 | an update that nobody interferes with writes the row that it computed |
| ClientsService.UpdatePutsBackExactly | apps/api/src/modules/clients/clients.service.ts:337-366 | what becomes of somebody else's write between the read and the write of an update, column by column: it stays or is put back |
| ClientsService.UpdateWritesColumns | apps/api/src/modules/clients/clients.service.ts:301-366 | every column that an update mentions has the mentioned value, every other one keeps its own |
| ClientsService.UpdateSetsTerm | apps/api/src/modules/clients/clients.service.ts:301-366 | the end of term after an update: a date, a number of days from the start, none, or as it was |
| ClientsService.UpdateSetsStatus | apps/api/src/modules/clients/clients.service.ts:325-341 | the status after an update, told from the payload and the old row |
| ClientsService.UpdateIsIdempotent | apps/api/src/modules/clients/clients.service.ts:307-366 | applying the same update twice is applying it once |
| ClientsService.UpdateKeepsLimitExactly | apps/api/src/modules/clients/clients.service.ts:632-641 | exactly when an update that does not mention the limit keeps it |
| ClientsService.ExtendKeepsQuotaExactly | apps/api/src/modules/clients/clients.service.ts:396-454 | an extension keeps the quota invariant exactly for clients not over their quota (or with a quota of zero) |
| ClientsService.ExtendSplitsViewsExactly | apps/api/src/modules/clients/clients.service.ts:396-454 | exactly when the runtimes let an extended client in although the panel shows it as blocked |
| ClientsService.UpdateKeepsQuotaExactly | apps/api/src/modules/clients/clients.service.ts:301-394 | which updates keep the quota invariant, told from the payload and the old row |
| ClientsService.RacingUpdateForgetsBlock | apps/api/src/modules/clients/clients.service.ts:301-366 | after an update of a client that was blocked since its row was read, it may run exactly when it could without the block |
| ClientsService.OverwrittenBlockRevivesExactly | apps/api/src/modules/clients/clients.service.ts:325-341 | a blocked client stays blocked through every update without a status; with EXPIRED written over its block it runs exactly for a term that has not passed and a quota that is not zero |
| ClientsService.DisabledClientRevivedExactly | apps/api/src/modules/clients/clients.service.ts:456-501 | exactly when a client that an admin disabled runs again after a snapshot and a reset with the reset's own snapshot, told from the state before the first |
| ClientImport.TakenAreFew | apps/api/src/modules/clients/clients.service.ts:831-853 | the taken candidates for a tag are all different, so there are no more of them than clients |
| ClientImport.FreeProbeExists | apps/api/src/modules/clients/clients.service.ts:831-853 | some candidate is free for every table and every wanted tag |
| ImportService.Service.EnsureUniqueEmailTag | apps/api/src/modules/clients/clients.service.ts:831-853 | the loop ends after at most one probe more than there are clients (one further for a blank tag), with the first candidate that nobody else holds |
| ClientImport.ProbesInOrder | apps/api/src/modules/clients/clients.service.ts:831-853 | the candidates in the order in which they are tried |
| ImportService.Service.FindImportTarget | apps/api/src/modules/clients/clients.service.ts:801-829 | the client found by id, else by uuid, else by tag |
| ImportService.Service.ImportSingleClient | apps/api/src/modules/clients/clients.service.ts:693-799 | one transaction: skipped, or created or updated in one step of the control plane, or refused or failed with everything as it was |
| ImportService.ImportIsAStep | apps/api/src/modules/clients/clients.service.ts:759-795 | what an item writes is a creation with usage, or an edit that replaces the usage, and keeps all indexes |
| ClientImport.ImportedColumns | apps/api/src/modules/clients/clients.service.ts:715-757 | an imported client is what its item says; only the id, the admin who created it and the times it was seen stay of the one it overwrites |
| ImportService.Service.ImportClients | apps/api/src/modules/clients/clients.service.ts:175-199 | a run of such steps, one outcome an item, created + updated + skipped the number of items; then a sync of every client written, each done unless a call failed, and of none after a failure |
| ImportService.ImportAllConsistent | apps/api/src/modules/clients/clients.service.ts:724-757 | tags, tokens and uuids stay unique over every bundle, however it ends |
| ImportProofs.WithoutOverwrite | apps/api/src/modules/clients/clients.service.ts:693-704 | without overwriting no client or usage row changes, no item fails, and every item means a client afterwards |
| ImportProofs.SecondImportSkipsAll | apps/api/src/modules/clients/clients.service.ts:693-704 | importing the bundle again skips every item and changes nothing |
| ImportProofs.UuidClashExactly | apps/api/src/modules/clients/clients.service.ts:801-829 | the uuid index rejects an item exactly when its id finds one client and its uuid belongs to another |
| ImportProofs.ImportedUsage | apps/api/src/modules/clients/clients.service.ts:769-790 | one row carries all three usage sums and the connections over, and no row means none |
| ImportProofs.ImportIsCredited | apps/api/src/modules/clients/clients.service.ts:769-790 | the ledger credits exactly the item's bytes to its client's tag, in each direction |
| ImportProofs.ImportKeepsQuotaExactly | apps/api/src/modules/clients/clients.service.ts:715-726 | an import keeps the quota invariant exactly for items that are not over a quota while disabled or, unless BLOCKED, expired |
| ImportProofs.ExportImportRestores | apps/api/src/modules/clients/clients.service.ts:147-173 | an export imported into an empty table creates exactly one client for each exported one, with its uuid, tag, token, limits, terms and usage sums |
| ImportProofs.RestoredStatusExactly | apps/api/src/modules/clients/clients.service.ts:715-726 | the stored status is the client's effective one at import time except for a shown quota block of a client that expired in between |
| WireguardIp.AllocateWireguardPeerIpv4 | apps/api/src/modules/wireguard/wireguard-ip.util.ts:8-31 | the loop returns the first free candidate, or the error for a bad network, a bad used address or a full subnet |
| WireguardIp.LowNetwork | apps/api/src/modules/wireguard/wireguard-ip.util.ts:40-42 | below 128.0.0.0 the signed operators give the block around the server: both ends in plain numbers, the server between them |
| WireguardIp.HighNetwork | apps/api/src/modules/wireguard/wireguard-ip.util.ts:40-42 | from 128.0.0.0 on both ends come out lower by 2^32 |
| WireguardIpProofs.PrintParse | apps/api/src/modules/wireguard/wireguard-ip.util.ts:52-77 | parsing a printed address gives it back, for all 2^32 addresses |
| WireguardIpProofs.PrintsUnsigned | apps/api/src/modules/wireguard/wireguard-ip.util.ts:70-77 | a negative number prints as the address with the same bits |
| WireguardIpProofs.AllocatesLowest | apps/api/src/modules/wireguard/wireguard-ip.util.ts:8-31 | prefixes 1 to 32 below 128.0.0.0: the smallest host that is not network, broadcast, server or used, and none exactly when all are used |
| WireguardIpProofs.EveryFreeHostOnce | apps/api/src/modules/wireguard/wireguard-ip.util.ts:8-31 | fed with its own printed results the allocator hands out every free host once, in ascending order, and then fails |
| WireguardIpProofs.AvoidsUsedExactly | apps/api/src/modules/wireguard/wireguard-ip.util.ts:19-28 | in a subnet with hosts, used addresses and the server's are avoided exactly below 128.0.0.0 |
| WireguardIpProofs.HighSubnetIgnoresUsed | apps/api/src/modules/wireguard/wireguard-ip.util.ts:19-28 | from 128.0.0.0 on the same candidate is returned whatever is in use |
| WireguardIpProofs.WholeSpaceNeverAllocates | apps/api/src/modules/wireguard/wireguard-ip.util.ts:41-42 | with prefix 0 no address is ever found |
| WireguardPeers.RunKeepsValid | apps/api/src/modules/wireguard/wireguard.service.ts:335-384 | in every interleaving of read, allocate, insert and delete, rejected inserts included: one peer a client, pairwise distinct host addresses |
| WireguardPeers.AssignmentStays | apps/api/src/modules/wireguard/wireguard.service.ts:335-384 | an assignment never changes while its client exists, in every interleaving |
| WireguardPeers.OnePeerEach | apps/api/prisma/schema.prisma:111-116 | two rows of one client, or with one address, are one row |
| WireguardPeers.InsertFailsExactly | apps/api/src/modules/wireguard/wireguard.service.ts:355-384 | an insert fails exactly when the client is gone, no host was left, or another row came first; a row that took the address came after the read |
| WireguardPeers.RetrySucceedsExactly | apps/api/src/modules/wireguard/wireguard.service.ts:335-384 | an undisturbed call, a loser's retry for instance, ends with the client's peer exactly when it has one, or exists and a host is free |
| WireguardIpProofs.NetworkRoundTrip | apps/api/src/modules/wireguard/wireguard-ip.util.ts:31-50 | the printed server address with its prefix is read back as its network, for every address and prefix |
| WireguardPeers.ServiceAllocatorSound | apps/api/src/modules/wireguard/wireguard.service.ts:367-370 | below 128.0.0.0 the address allocator meets what the peer table needs |
| WireguardPeers.ServerIsNoHost | apps/api/src/modules/wireguard/wireguard-ip.util.ts:20-22 | no peer ever gets the server's address |
| WireguardService.EnsuredIsARun | apps/api/src/modules/wireguard/wireguard.service.ts:335-384 | the service's method is the protocol's run without anybody in between |
| WireguardService.Service.EnsurePeerForClientId | apps/api/src/modules/wireguard/wireguard.service.ts:335-384 | the table after the call and how the call ended |
| WireguardService.Service.EnsurePeersForClientIds | apps/api/src/modules/wireguard/wireguard.service.ts:329-333 | the clients in order up to the first failure |
| WireguardService.EnsuredAllServes | apps/api/src/modules/wireguard/wireguard.service.ts:329-333 | without a failure everybody has a peer, a failure means that the hosts ran out, and no row is lost |
| WireguardService.Service.BuildServerConfig | apps/api/src/modules/wireguard/wireguard.service.ts:448-488 | the lines of the file, one block a peer, in order, each with its own key and address |
| WireguardService.ConfigExactly | apps/api/src/modules/wireguard/wireguard.service.ts:428-438 | a reader of the file finds exactly the keys and addresses of the enabled active clients' peers, each address with its own peer's key; no key and no address twice |
| WireguardService.ReadConfig | apps/api/src/modules/wireguard/wireguard.service.ts:448-488 | reading the written file back gives every peer with its own key and address, in order |
| WireguardService.Service.PerformRenderConfig | apps/api/src/modules/wireguard/wireguard.service.ts:398-446 | fills the table first; a failure leaves the old file |
| WireguardService.RenderingExactly | apps/api/src/modules/wireguard/wireguard.service.ts:398-446 | a rendering that succeeds lists exactly those pairs, every enabled client has a peer, and all addresses are hosts of the network |
| TunnelProofs.BlockedLeavesFileExactly | apps/api/src/modules/wireguard/wireguard.service.ts:386-446 | over every course of steps and renderings without an admin's act on it, a blocked client leaves the file exactly when a rendering that reads the table since is written |
| Base32.EncodeBase32 | apps/api/src/modules/auth/totp.util.ts:68-89 | the loops give the five-bit groups of the bit stream, although the accumulator wraps at 32 bits |
| Base32.DecodeBase32 | apps/api/src/modules/auth/totp.util.ts:91-113 | the loop gives the eight-bit groups of the characters' bit stream, or the error |
| Base32Proofs.EncodeShape | apps/api/src/modules/auth/totp.util.ts:68-89 | one character for each five bits begun, all from the alphabet, whose bits are the bytes' bits and then zeros |
| Base32Proofs.RoundTrip | apps/api/src/modules/auth/totp.util.ts:68-113 | decoding undoes encoding for every byte sequence |
| Base32Proofs.EncodeInjective | apps/api/src/modules/auth/totp.util.ts:68-89 | different keys have different secrets |
| Base32Proofs.GroupedRoundTrip | apps/web/src/features/admin-users/admin-users-page.tsx:18-20 | the secret grouped into fours with spaces, also in lower case, still decodes to the key |
| Base32Proofs.DecodeFailsExactly | apps/api/src/modules/auth/totp.util.ts:91-102 | decoding fails exactly on a character that is neither dropped nor has an upper case made of the alphabet's letters |
| Base32Proofs.CanonicalExactly | apps/api/src/modules/auth/totp.util.ts:91-113 | a text is the encoding of what it decodes to exactly when fewer than five bits are left over, all zero |
| Totp.CounterRoundTrip | apps/api/src/modules/auth/totp.util.ts:49-51 | the eight bytes of the counter determine it |
| Totp.Truncate | apps/api/src/modules/auth/totp.util.ts:53-63 | masks, signed shifts and unions give the 31 bits that the last four bits of the digest point to |
| Totp.GenerateHotp | apps/api/src/modules/auth/totp.util.ts:48-66 | the code of a counter, or the error for a bad secret |
| Totp.CodeShape | apps/api/src/modules/auth/totp.util.ts:65 | every code has six digits and reads back as the truncated number modulo a million |
| Totp.Rfc4226Example | apps/api/src/modules/auth/totp.util.ts:53-65 | the digest of section 5.4 of RFC 4226 gives 0x50EF7F19 and the code 872921 |
| Totp.Rfc6238Steps | apps/api/src/modules/auth/totp.util.ts:30 | the counters of the times in appendix B of RFC 6238 |
| Totp.VerifyTotpCode | apps/api/src/modules/auth/totp.util.ts:23-46 | the loop is the search through the window, negative counters left out |
| Totp.VerifiedExactly | apps/api/src/modules/auth/totp.util.ts:23-46 | with a usable secret the answer is yes exactly for the code of some counter in the window, white space aside |
| Totp.BrokenSecretExactly | apps/api/src/modules/auth/totp.util.ts:23-46 | with a bad secret the error shows exactly for a well-formed code when some counter is tried |
| Totp.FreshCodeAccepted | apps/api/src/modules/auth/totp.util.ts:23-66 | a code made when the clocks differ by no more than the window is accepted, also with the grouped secret |
| Dashboard.BuildTrendBuckets | apps/api/src/modules/dashboard/dashboard.service.ts:103-141 | one bucket for each day of the window, in order, with the sums and the active clients of that day's rows |
| DashboardProofs.RowGoesToItsDay | apps/api/src/modules/dashboard/dashboard.service.ts:103-141 | one more row adds its bytes, direction by direction, to the bucket of its day and to no other |
| DashboardProofs.DirectionsAreKept | apps/api/src/modules/dashboard/dashboard.service.ts:103-141 | incoming bytes of the timeline plus those of the rows outside the window are the incoming bytes of all rows, and so for outgoing |
| Dashboard.BuildClientStats | apps/api/src/modules/dashboard/dashboard.service.ts:224-267 | each client's sums, peak and active days over its own rows |
| DashboardProofs.RowGoesToItsClient | apps/api/src/modules/dashboard/dashboard.service.ts:224-267 | one more row counts in the figures of its own client and in no other's |
| DashboardProofs.PeakIsTheMost | apps/api/src/modules/dashboard/dashboard.service.ts:224-267 | the peak is attained by a row of the client and exceeded by none |
| Dashboard.SortClients | apps/api/src/modules/dashboard/dashboard.service.ts:269-289 | a sorted permutation |
| Dashboard.SortedMeans | apps/api/src/modules/dashboard/dashboard.service.ts:269-289 | down a sorted list the window's traffic falls, then today's, then that of all time; names only decide between equal figures |
| Dashboard.FindTopClient | apps/api/src/modules/dashboard/dashboard.service.ts:290 | the first client with traffic has the most of all; none means that nobody had any |
| Dashboard.FindBusiest | apps/api/src/modules/dashboard/dashboard.service.ts:156-162 | the first of the days with the most traffic |
| DashboardProofs.GroupingsDifferExactly | apps/api/src/modules/dashboard/dashboard.service.ts:103-267 | for any rows: traffic by client plus rows of unlisted clients = traffic by day plus rows outside the window |
| DashboardProofs.TodayDiffersExactly | apps/api/src/modules/dashboard/dashboard.service.ts:264-266 | today's traffic by client plus that of unlisted clients is the last bucket |
| DashboardProofs.GroupingsAgree | apps/api/src/modules/dashboard/dashboard.service.ts:103-267 | with every client listed and all rows inside the window the two groupings agree, for the window and for today |
| DashboardProofs.TwoWeeks | apps/api/src/modules/dashboard/dashboard.service.ts:145-155 | the total of fourteen days is the last seven plus the previous seven |
| DashboardProofs.ActiveDaysBounded | apps/api/src/modules/dashboard/dashboard.service.ts:260-262 | with one row a client and day, active days are at most the days of the window |
| DashboardProofs.OrderIrrelevant | apps/api/src/modules/dashboard/dashboard.service.ts:269-289 | sorting does not change the list's total |
| DashboardAnalytics.BuildDashboardAnalytics | apps/api/src/modules/dashboard/dashboard.service.ts:196-302 | the answer as a whole: sorted permutation, leading client, total of the list equal to that of the timeline, no top client exactly when there was no traffic |
| DashboardService.Service.PrimeDashboardData | apps/api/src/modules/dashboard/dashboard.service.ts:355-375 | at most a snapshot, whatever others do, and one conditional expiry that syncs nobody |
| LoginLimiter.LoginAttemptService.AssertAllowed | apps/api/src/modules/auth/login-attempt.service.ts:18-31 | the answer of the key's own window, which knows no clean-up and no other key |
| LoginLimiter.LoginAttemptService.RecordFailure | apps/api/src/modules/auth/login-attempt.service.ts:33-58 | the map goes on matching every key's own window |
| LoginLimiter.LoginAttemptService.Cleanup | apps/api/src/modules/auth/login-attempt.service.ts:64-76 | exactly the entries that could no longer matter are deleted |
| LoginLimiter.KeysIndependent | apps/api/src/modules/auth/login-attempt.service.ts:18-62 | a key's window is a function of its own events |
| LoginLimiter.BlockLastsExactly | apps/api/src/modules/auth/login-attempt.service.ts:53-72 | a block lasts exactly until the first failure's window ends, one millisecond less when it was set at once |
| LoginLimiter.PassedFromFirst | apps/api/src/modules/auth/login-attempt.service.ts:33-58 | exactly the first max(2, MAX) wrong passwords within a window pass |
| LoginLimiter.BlockedAfterwardsExactly | apps/api/src/modules/auth/login-attempt.service.ts:18-76 | after attempts within a window a key is blocked exactly when there were max(2, MAX) of them, and exactly until the window of the first one ends |
| LoginLimiter.AttemptsBounded | apps/api/src/modules/auth/login-attempt.service.ts:18-76 | whatever came before, at most twice that pass in any interval as long as a window without a success |
| Sessions.NextDecides | apps/api/src/modules/auth/auth.service.ts:134-213 | with or without clean-up, the rows decide what the history of issues and revocations decides |
| Sessions.CleanupChangesNoAnswer | apps/api/src/modules/auth/auth.service.ts:111-115 | over every run of requests the bulk deletion at login changes no answer |
| Sessions.AcceptedOverRunsExactly | apps/api/src/modules/auth/auth.service.ts:134-191 | after every run of requests, with or without clean-up, the rows accept a token exactly when it is the last one issued for its session, nothing revoked the session, and the token has not expired |
| Sessions.StaleTokenRevokesExactly | apps/api/src/modules/auth/auth.service.ts:166-177 | an older, different token revokes a live session exactly if it has not itself expired |
| Sessions.RevokedForGood | apps/api/src/modules/auth/auth.service.ts:161-177 | a revoked session never accepts a token again, whatever follows |
| Sessions.SameSecondSameToken | apps/api/src/modules/auth/auth.service.ts:258-292 | a refresh returns the presented token exactly when it happens in the second of its issue |
| Sessions.AuthService.RefreshSession | apps/api/src/modules/auth/auth.service.ts:134-191 | the rows and the answer after a refresh |
| Sessions.AuthService.LogIn | apps/api/src/modules/auth/auth.service.ts:109-121 | dead sessions are deleted, then one is issued |
| Sessions.AuthService.DeleteDeadSessions | apps/api/src/modules/auth/auth.service.ts:111-115 | exactly the expired and the revoked rows go |
| Sessions.KeptExactly | apps/api/src/modules/auth/auth.service.ts:111-115 | the sessions neither revoked nor past their end stay, as they are, and no others |
| Sessions.AuthService.LogOut | apps/api/src/modules/auth/auth.service.ts:193-213 | any token that verifies revokes its session |
| Backups.PruningNeverMattersExactly | apps/api/src/modules/backups/backups.service.ts:461-498 | pruning changes no due-decision exactly when the retention is at least the interval |
| Backups.NextKeepsValidExactly | apps/api/src/modules/backups/backups.service.ts:344-392 | every step, failed prunings and failed markings included, keeps the spacing of automatic backups, except exactly the failed audit entry of one that is already complete and is marked FAILED |
| Backups.AutomaticBackupsSpaced | apps/api/src/modules/backups/backups.service.ts:516-589 | over every run without such a failure, undeleted automatic backups that were ever ready were created at least the interval apart |
| Backups.AuditFailureRepeatsBackup | apps/api/src/modules/backups/backups.service.ts:357-386 | a run in which such a failure makes two complete automatic backups a millisecond apart |
| Backups.Service.ShouldCreateAutomaticBackup | apps/api/src/modules/backups/backups.service.ts:546-589 | yes exactly when no row is being created within the maintenance interval and no successful row is younger than the backup interval |
| Backups.RowMattersExactly | apps/api/src/modules/backups/backups.service.ts:546-589 | what one row does to the decision: one being created stops mattering once the maintenance interval has passed, a successful one once the backup interval has, a failed one never matters |
| Backups.Service.RunAutomaticMaintenance | apps/api/src/modules/backups/backups.service.ts:516-544 | single flight: a second tick does nothing, otherwise prune and perhaps start a backup; only a failed write ends the tick before |
| Backups.Service.FinishAutomaticMaintenance | apps/api/src/modules/backups/backups.service.ts:344-392 | the row in flight becomes READY or FAILED, or stays as it was when marking it fails, and the flight ends |
| Backups.FlightEndsExactly | apps/api/src/modules/backups/backups.service.ts:344-392 | the row after each way a backup may end; a completed one holds the next one off for the interval, a failed one that is marked does not |
| Backups.Service.PruneExpiredBackups | apps/api/src/modules/backups/backups.service.ts:461-498 | the loop prunes exactly the prunable rows, or as many as it came to before a failed write |
| Backups.PruningTouchesExactly | apps/api/src/modules/backups/backups.service.ts:461-498 | exactly the ready and the failed rows older than the retention change, to PRUNED |
| Witnesses.SyncRevivesBlocked | apps/api/src/modules/xray/xray.service.ts:244-265 | a run: a full sync reads a client as ACTIVE, a complete snapshot blocks it and cuts it off, the sync puts it back and ends |
| Witnesses.RecoveryIsForgotten | apps/api/src/modules/xray/xray.service.ts:273-297 | a run: Xray restarts, the full sync for it fails, the runtime is empty and the flag is still up |
| Witnesses.ExpiryOverwritesBlock | apps/api/src/modules/clients/clients.service.ts:538-562 | a run: an expiry reads a client, a complete snapshot blocks it for its quota, the expiry writes EXPIRED |
| Witnesses.DashboardExpiryLeavesUser | apps/api/src/modules/dashboard/dashboard.service.ts:364-374 | the dashboard expires a client in Xray; its user stays and no expiry reads it again |
| Witnesses.BlockedStaysListed | apps/api/src/modules/xray/xray.service.ts:464-520 | the WireGuard file lists a client after a complete snapshot has blocked it |
| Witnesses.ImportBreaksQuota | apps/api/src/modules/clients/clients.service.ts:715-726 | an import into an empty table stores a disabled client over its quota as DISABLED |
| Witnesses.RepairIsForgotten | apps/api/src/modules/xray/xray.service.ts:448-450 | a blocked user left in Xray, and the complete snapshot after which no repair is due |
| Witnesses.DeletedUserStays | apps/api/src/modules/clients/clients.service.ts:503-536 | a run: a client is deleted, the removal of its user fails, a full sync ends, the user is still there |
| Witnesses.RenamedUserStays | apps/api/src/modules/clients/clients.service.ts:745-757 | an overwriting import gives a client in Xray another tag and leaves the old user |
| Witnesses.HalfDoneSnapshotBreaksQuota | apps/api/src/modules/xray/xray.service.ts:443-446 | a snapshot that fails before enforcement leaves a client over its quota ACTIVE |
| Witnesses.StaleConnectionsShown | apps/api/src/modules/xray/xray.service.ts:340-400 | a client that is offline goes on being shown with yesterday's connection |
| Witnesses.ExtensionBreaksQuota | apps/api/src/modules/clients/clients.service.ts:396-454 | an extension lets a blocked client over its quota run |
| Witnesses.UpdateBreaksQuota | apps/api/src/modules/clients/clients.service.ts:301-394 | so does an update that asks for ACTIVE |
| Witnesses.DisabledClientRuns | apps/api/src/modules/clients/clients.service.ts:456-501 | a disabled client runs again after a snapshot and a reset |

## Left out

- XrayService.Service.PerformCaptureUsageSnapshot: a snapshot is one step, with every way in which it may stop half-way, but other steps come before or after it, not between its calls. So an import that gives a client another tag between the query and the transaction, and thereby moves the old tag's bytes into the new tag's rows, is not expressed by the ledger.
- XrayService.Service.CaptureUsageSnapshot: the sharing of one running promise by several callers is not modelled; a caller that arrives meanwhile takes no step of its own.
- XrayService.Service.ReadRuntime: on failure the contract does not tie the zeroing of the counters to which of the two queries failed, because a query that fails may still have reset them.
- XrayService.Service.EnsureRuntimeProvisioned: the probe and the decision that follows it are one step; others act before a tick, between the turns of its sync, and after it.
- XrayService.Service.PerformSyncAllClients: the calls of one row's turn are one step; steps of others come between the turns.
- WireguardService.Service.BuildServerConfig: the file is a sequence of lines; joining them, preshared keys and the fixed interface lines are not modelled.
- WireguardService.Service.PerformRenderConfig: writing the file succeeds or fails as a whole, and the sharing of one running promise is not modelled.
- WireguardService.Service.EnsurePeerForClientId: runs undisturbed here; interleaving is in WireguardPeers, where keys are fresh numbers instead of random key pairs.
- WireguardIp.AllocateWireguardPeerIpv4: `Number` is modelled on plain decimal integers with an optional sign; hexadecimal, exponent and fraction notation count as malformed.
- Totp.GenerateHotp: HMAC-SHA-1 is any function of key and message.
- ClientsService.Service.Remove: the record that is synced is the row as it was deleted; the service takes the row as it was before its snapshot, which has the same tag.
- ClientsService.Service.Create: who may manage a client, notes, tags and the admin audit entries are left out.
- TunnelProofs.BlockedLeavesFileExactly: the file is the set of clients that it lists; a caller that arrives during a rendering and shares it takes no step of its own.
- ImportService.Service.ImportClients: nobody else's steps come between the items, the syncs afterwards run one after the other, and the audit entry at the end is left out.
- ImportProofs.ExportImportRestores: the drawn client ids are assumed to occur in neither table; note, tags and inbound tag of a client are not modelled.
- ImportService.Service.EnsureUniqueSubscriptionToken: the service repeats random draws without a bound; the first free draw is a parameter here.
- Sessions.AuthService.RefreshSession: the stored hash is the token itself, that is, hashing is taken as injective; a signature verifies exactly for issued tokens.
- LoginLimiter.AttemptsBounded: each attempt is checked and recorded at once; several attempts in flight between check and record are not modelled.
- Backups.Service.RunAutomaticMaintenance: building the archive is the time between the two halves of a tick; files, checksums and restore plans are not modelled, and a restore is one status change.
- Dashboard.SortClients: the sort is an insertion sort, and comparing names is any total preorder; delta percentages and averages of the trends are left out.
- The byte ledger treats a failed snapshot as discarding what the resetting query returned; it does not model Xray's own restart in the middle of a query.
- gRPC, Prisma, HTTP, cookies, timers, the web application apart from one grouping function, deployment scripts, and all cryptography beyond the functions above.
- Admin audit entries other than automatic blocks, role checks, pagination and validation schemas: they would only add easy members.
