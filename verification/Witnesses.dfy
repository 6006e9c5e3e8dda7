/**
 Concrete states and runs in which a property fails: one for each failing family that
 `EnforcementProofs`, `SyncProofs` and `ClientsService` describe exactly.
 */
module Witnesses {

  import opened Basics
  import opened StatNames
  import opened TrafficDeltas
  import opened Clients
  import opened Usage
  import opened ControlPlane
  import opened Ledger
  import opened EnforcementProofs
  import opened SyncProofs
  import opened ClientsService
  import ClientImport
  import ImportService
  import ImportProofs
  import TunnelProofs

  const TAG := "t"

  /** A client with a limit of ten bytes and a term that ends at time 5. */
  function Alice(status: Status): Client {
    Client("c", "u", TAG, "s", "Alice", None, status, 0, None, Some(5), None, Some(10), false, None, None,
           true, true, VLESS_REALITY_TCP, None, None)
  }

  /** One usage row, of day 0. */
  function Used10(connections: nat): Rows {
    map[0 := UsageRow(0, 10, 10, connections)]
  }

  function Only(status: Status, rows: Rows): Table {
    map["c" := Account(Alice(status), rows)]
  }

  function Start(table: Table, users: map<string, string>, counters: map<string, nat>): World {
    World(table, [], users, counters, false, None, multiset{}, multiset{})
  }

  const PRESENT: map<string, string> := map[TAG := "u"]
  const SEEN_ONLINE := Capture(map[], {TAG}, map[])
  const SEEN_NOTHING := Capture(map[], {}, map[])
  const NOTHING_DONE := Enforcement({}, {}, [])
  const ALICE_BLOCKED := Enforcement({"c"}, {TAG}, [])

  lemma NoCounters()
    ensures DeltasOf(map[], map[])
  {
  }

  lemma OneCounter(n: nat)
    ensures DeltasOf(map[TrafficName(TAG, Uplink) := n], map[TAG := Delta(0, n, n)])
  {
    var counters := map[TrafficName(TAG, Uplink) := n];
    assert Parsable(TAG);
    forall tag, dir: Direction | TrafficName(tag, dir) in counters ensures tag == TAG && dir == Uplink {
      TrafficNameInjective(tag, dir, TAG, Uplink);
    }
    assert HasCounter(counters, TAG);
  }

  lemma Used10Is10(connections: nat)
    ensures Sum(Used10(connections)) == Bytes(0, 10, 10)
  {
    OneRowSum(0, UsageRow(0, 10, 10, connections));
  }

  // ----- snapshots of Alice alone -----

  ghost function AfterSnapshot(w: World, now: nat, cap: Capture, e: Enforcement, complete: bool): World {
    World(WithBlocked(Recorded(w.table, cap, now), e.blocked), w.audit + e.logged, w.users - e.cut, Zeroed(w.counters), complete,
          w.inSync, w.waiting, w.expiring)
  }

  /** What enforcement comes to: Alice is blocked if she is over her quota. */
  ghost function Enforced(status: Status, rows: Rows, cap: Capture): Enforcement {
    if OverQuotaIn(Account(Alice(status), rows), cap) then ALICE_BLOCKED else NOTHING_DONE
  }

  lemma AliceHasNoLimits(status: Status, cap: Capture)
    ensures !Breaching(Alice(status), cap)
  {
  }

  lemma AliceHits(status: Status, rows: Rows, counters: map<string, nat>, cap: Capture, now: nat)
    requires DeltasOf(counters, cap.deltas)
    ensures
      var recorded := Recorded(Only(status, rows), cap, now);
      && AccessHits(recorded, cap) == {} && AccessMoves(recorded, cap) == {}
      && QuotaHits(recorded, cap) == (if OverQuotaIn(Account(Alice(status), rows), cap) then {"c"} else {})
      && recorded.Keys == {"c"} && recorded["c"].client.emailTag == TAG
  {
    AliceHasNoLimits(status, cap);
    HitsAt(Only(status, rows), counters, cap, now, "c");
    SeenKeeps(Alice(status), SightingOf(cap, TAG), now);
  }

  lemma EnforcedFinishes(status: Status, rows: Rows, counters: map<string, nat>, cap: Capture, now: nat)
    requires DeltasOf(counters, cap.deltas)
    ensures
      var recorded := Recorded(Only(status, rows), cap, now);
      Finished(Enforced(status, rows, cap), recorded, cap) && Allowed(Enforced(status, rows, cap), recorded, cap)
  {
    AliceHits(status, rows, counters, cap, now);
    var recorded := Recorded(Only(status, rows), cap, now);
    assert TagsOf(recorded, {}) == {} && TagsOf(recorded, {"c"}) == {TAG};
  }

  lemma OnlyIsValid(status: Status, rows: Rows)
    ensures Valid(Only(status, rows))
  {
  }

  lemma AliceSnapshot(w: World, status: Status, rows: Rows, now: nat, cap: Capture)
    requires w.table == Only(status, rows) && DeltasOf(w.counters, cap.deltas)
    ensures
      var e := Enforced(status, rows, cap);
      Next(w, SnapshotRecorded(now, cap, e, true), AfterSnapshot(w, now, cap, e, true))
  {
    EnforcedFinishes(status, rows, w.counters, cap, now);
    OnlyIsValid(status, rows);
  }

  lemma OverIn(status: Status, rows: Rows, cap: Capture, used: nat)
    requires Sum(rows).total + Gain(SightingOf(cap, TAG)).total == used
    ensures OverQuotaIn(Account(Alice(status), rows), cap) <==> TAG in NamedTags(cap) && used >= 10
  {
  }

  // ----- the witnesses -----

  /** Xray still has a counter for a client that was online yesterday and is gone: it goes on being shown as online. */
  lemma StaleConnectionsShown(w: World) returns (w': World)
    requires w == Start(Only(ACTIVE, map[0 := UsageRow(0, 0, 0, 1)]), map[], map[TrafficName(TAG, Uplink) := 0])
    ensures Reaches(w, [SnapshotRecorded(DAY_MS, Capture(map[TAG := NO_DELTA], {}, map[]), NOTHING_DONE, true)], w')
    ensures "c" in w'.table && LatestConnections(w'.table["c"].rows) != 0
  {
    var rows: Rows := map[0 := UsageRow(0, 0, 0, 1)];
    var cap := Capture(map[TAG := NO_DELTA], {}, map[]);
    OneCounter(0);
    OneRowSum(0, UsageRow(0, 0, 0, 1));
    OverIn(ACTIVE, rows, cap, 0);
    AliceSnapshot(w, ACTIVE, rows, DAY_MS, cap);
    w' := AfterSnapshot(w, DAY_MS, cap, NOTHING_DONE, true);
    ReachOne(w, SnapshotRecorded(DAY_MS, cap, NOTHING_DONE, true), w');
    StaleAt(w, DAY_MS, cap, NOTHING_DONE, w', "c", rows);
  }

  lemma StaleAt(w: World, now: nat, cap: Capture, e: Enforcement, w': World, id: ClientId, rows: Rows)
    requires Next(w, SnapshotRecorded(now, cap, e, true), w') && id in w.table && w.table[id].rows == rows
    requires rows == map[0 := UsageRow(0, 0, 0, 1)] && UtcDay(now) > 0
    requires cap == Capture(map[w.table[id].client.emailTag := NO_DELTA], {}, map[])
    ensures id in w'.table && LatestConnections(w'.table[id].rows) != 0
  {
    assert IsLatest(rows, 0);
    LatestIs(rows, 0);
    SnapshotConnections(w, now, cap, e, true, w', id);
  }

  /** A half-done snapshot charges a client over its quota and does not block it. */
  lemma HalfDoneSnapshotBreaksQuota(w: World) returns (w': World)
    requires w == Start(Only(ACTIVE, map[]), PRESENT, map[TrafficName(TAG, Uplink) := 10])
    ensures Reaches(w, [SnapshotRecorded(0, Capture(map[TAG := Delta(0, 10, 10)], {}, map[]), NOTHING_DONE, false)], w')
    ensures QuotaSafe(w) && !QuotaSafe(w')
  {
    var cap := Capture(map[TAG := Delta(0, 10, 10)], {}, map[]);
    OneCounter(10);
    FreshAccountKeepsQuota(Alice(ACTIVE));
    OnlyIsValid(ACTIVE, map[]);
    EmptySum();
    OverIn(ACTIVE, map[], cap, 10);
    assert TagsOf(Recorded(w.table, cap, 0), {}) == {};
    w' := AfterSnapshot(w, 0, cap, NOTHING_DONE, false);
    ReachOne(w, SnapshotRecorded(0, cap, NOTHING_DONE, false), w');
    assert w.table["c"] == Account(Alice(ACTIVE), map[]);
    assert !QuotaMet(w.table["c"], cap, false);
    SnapshotKeepsQuotaExactly(w, 0, cap, NOTHING_DONE, false, w');
  }

  lemma BlockedIsSafe(w: World)
    requires w == Start(Only(BLOCKED, Used10(0)), map[], map[])
    ensures QuotaSafe(w) && Valid(w.table) && "c" in w.table && w.table["c"].client == Alice(BLOCKED)
    ensures Used(w.table["c"]) == 10 && OverQuota(w.table["c"].client, 10) && Quota(w.table["c"].client) == Some(10)
  {
    Used10Is10(0);
  }

  lemma Edited(w: World, id: ClientId, next: Client) returns (w': World)
    requires Valid(w.table) && id in w.table && SameIdentity(w.table[id].client, next)
    ensures Next(w, Edit(next, None), w')
  {
    w' := Written(w, Account(next, w.table[id].rows));
  }

  /** An extension lets a client over its quota run again. */
  lemma ExtensionBreaksQuota(w: World) returns (w': World)
    requires w == Start(Only(BLOCKED, Used10(0)), map[], map[])
    ensures Reaches(w, [Edit(ExtendedClient(Alice(BLOCKED), 5), None)], w')
    ensures QuotaSafe(w) && !QuotaSafe(w')
  {
    BlockedIsSafe(w);
    w' := Edited(w, "c", ExtendedClient(Alice(BLOCKED), 5));
    ReachOne(w, Edit(ExtendedClient(Alice(BLOCKED), 5), None), w');
    ExtendKeepsQuotaExactly(w, "c", 5, w');
  }

  /** So does an update that asks for ACTIVE. */
  lemma UpdateBreaksQuota(w: World, p: UpdatePayload) returns (w': World)
    requires w == Start(Only(BLOCKED, Used10(0)), map[], map[]) && p == NO_CHANGE.(status := Some(ACTIVE))
    ensures Reaches(w, [Edit(UpdatedClient(Alice(BLOCKED), p, 0), None)], w')
    ensures QuotaSafe(w) && !QuotaSafe(w')
  {
    BlockedIsSafe(w);
    w' := Edited(w, "c", UpdatedClient(Alice(BLOCKED), p, 0));
    ReachOne(w, Edit(UpdatedClient(Alice(BLOCKED), p, 0), None), w');
    UpdateKeepsQuotaExactly(w, "c", p, 0, w');
  }

  /** An update that switches a limited client to limited traffic takes its limit away. */
  lemma LimitIsDropped(next: Client)
    requires next == UpdatedClient(Alice(ACTIVE), NO_CHANGE.(isTrafficUnlimited := Some(false)), 0)
    ensures Quota(Alice(ACTIVE)) == Some(10) && Quota(next) == None
  {
  }

  /** An admin disables a client; a snapshot finds it over its quota, a reset follows, and it runs again. */
  lemma DisabledClientRuns(w: World) returns (w': World)
    requires w == Start(Only(DISABLED, Used10(0)), map[], map[])
    ensures Reaches(w, [SnapshotRecorded(0, SEEN_ONLINE, ALICE_BLOCKED, true), SnapshotLost(false), ResetTraffic("c", ACTIVE)], w')
    ensures "c" in w'.table && RuntimeActive(w'.table["c"].client, 0)
  {
    var snapshot := SnapshotRecorded(0, SEEN_ONLINE, ALICE_BLOCKED, true);
    var mid := AliceCutOff(w, DISABLED);
    ReachOne(w, snapshot, mid);
    w' := ResetRuns(mid, "c", mid.table["c"].client, 0);
    ReachBoth(w, [snapshot], mid, [SnapshotLost(false), ResetTraffic("c", ACTIVE)], w');
    assert [snapshot] + [SnapshotLost(false), ResetTraffic("c", ACTIVE)] == [snapshot, SnapshotLost(false), ResetTraffic("c", ACTIVE)];
  }

  /** Whatever the status of a client that used up its quota, a complete snapshot that sees it online blocks it and cuts it off. */
  lemma AliceCutOff(w: World, status: Status) returns (w': World)
    requires w.table == Only(status, Used10(0)) && w.counters == map[]
    ensures Next(w, SnapshotRecorded(0, SEEN_ONLINE, ALICE_BLOCKED, true), w')
    ensures InForce(w', "c") && Valid(w'.table) && SameTerms(Alice(status), w'.table["c"].client) && w'.inSync == w.inSync
  {
    Used10Is10(0);
    NoCounters();
    OverIn(status, Used10(0), SEEN_ONLINE, 10);
    AliceSnapshot(w, status, Used10(0), 0, SEEN_ONLINE);
    w' := AfterSnapshot(w, 0, SEEN_ONLINE, ALICE_BLOCKED, true);
    NextKeepsValid(w, SnapshotRecorded(0, SEEN_ONLINE, ALICE_BLOCKED, true), w');
    SnapshotSetsStatus(w, 0, SEEN_ONLINE, ALICE_BLOCKED, w', "c");
    SnapshotCutsOff(w, 0, SEEN_ONLINE, ALICE_BLOCKED, w', "c");
    SnapshotKeepsTerms(w, 0, SEEN_ONLINE, ALICE_BLOCKED, true, w', "c");
  }

  lemma ResetRuns(mid: World, id: ClientId, c: Client, t: nat) returns (w': World)
    requires Valid(mid.table) && id in mid.table && mid.table[id].client == c
    requires c.status == BLOCKED && Quota(c) != Some(0) && !Expired(c.expiresAt, t)
    ensures Reaches(mid, [SnapshotLost(false), ResetTraffic(id, ACTIVE)], w') && ResetStatus(c, t) == ACTIVE
    ensures id in w'.table && RuntimeActive(w'.table[id].client, t)
  {
    var a := Account(c.(status := ACTIVE), map[]);
    ResetIsWritten(mid.(provisioned := false), id, ACTIVE);
    w' := AfterReset(mid.(provisioned := false), id, ACTIVE);
    TwoSteps(mid, SnapshotLost(false), mid.(provisioned := false), ResetTraffic(id, ACTIVE), w');
    assert w'.table[id] == a;
  }

  /** A blocked user left in Xray, and a complete snapshot that names nobody: no repair is due any more. */
  lemma RepairIsForgotten(w: World) returns (w': World)
    requires w == Start(Only(BLOCKED, map[]), PRESENT, map[])
    ensures Reaches(w, [SnapshotRecorded(0, SEEN_NOTHING, NOTHING_DONE, true)], w')
    ensures w'.provisioned && TAG in w'.users && "c" in w'.table && w'.table["c"].client.status == BLOCKED
  {
    NoCounters();
    AliceSnapshot(w, BLOCKED, map[], 0, SEEN_NOTHING);
    w' := AfterSnapshot(w, 0, SEEN_NOTHING, NOTHING_DONE, true);
    ReachOne(w, SnapshotRecorded(0, SEEN_NOTHING, NOTHING_DONE, true), w');
    RepairForgottenExactly(w, 0, SEEN_NOTHING, NOTHING_DONE, w', "c");
  }

  /** An overwriting import gives a client in the runtime another tag: the old user is nobody's. */
  lemma RenamedUserStays(w: World) returns (w': World)
    requires w == Start(Only(ACTIVE, map[]), PRESENT, map[])
    ensures Reaches(w, [Edit(Alice(ACTIVE).(emailTag := "n"), Some(map[]))], w') && Stranger(w', TAG)
  {
    var a := Account(Alice(ACTIVE).(emailTag := "n"), map[]);
    OnlyIsValid(ACTIVE, map[]);
    w' := Written(w, a);
    assert w'.table == map["c" := a];
    ReachOne(w, Edit(a.client, Some(map[])), w');
  }

  /** A client is deleted, the one attempt to remove its user fails, and a full sync changes nothing about it. */
  lemma DeletedUserStays(w: World) returns (mid: World, w': World)
    requires w == Start(Only(ACTIVE, map[]), PRESENT, map[])
    ensures Reaches(w, [Delete("c"), ClientTurn(Alice(DISABLED), 0, Untouched, false)], mid)
    ensures Reaches(mid, [SyncReads, SyncEnds], w')
    ensures w'.provisioned && Stranger(w', TAG)
  {
    OnlyIsValid(ACTIVE, map[]);
    assert Alice(ACTIVE).(status := DISABLED) == Alice(DISABLED);
    mid, w' := DeletedAt(w, "c", Alice(ACTIVE));
  }

  lemma DeletedAt(w: World, id: ClientId, c: Client) returns (mid: World, w': World)
    requires Valid(w.table) && w.table.Keys == {id} && w.table[id].client == c
    requires c.emailTag in w.users && w.waiting == multiset{} && w.inSync.None?
    ensures Reaches(w, [Delete(id), ClientTurn(c.(status := DISABLED), 0, Untouched, false)], mid)
    ensures Reaches(mid, [SyncReads, SyncEnds], w') && w' == w.(table := map[], provisioned := true)
  {
    var gone := w.(table := map[], waiting := multiset{c.(status := DISABLED)});
    assert w.table - {id} == map[];
    mid := w.(table := map[]);
    var reading := mid.(inSync := Some(map[]));
    w' := w.(table := map[], provisioned := true);
    TwoSteps(w, Delete(id), gone, ClientTurn(c.(status := DISABLED), 0, Untouched, false), mid);
    TwoSteps(mid, SyncReads, reading, SyncEnds, w');
  }

  lemma TwoSteps(w: World, first: Step, mid: World, second: Step, w': World)
    requires Next(w, first, mid) && Next(mid, second, w')
    ensures Reaches(w, [first, second], w')
  {
    ReachOne(w, first, mid);
    ReachMore(w, [first], mid, second, w');
    assert [first] + [second] == [first, second];
  }

  /** A full sync reads a client as ACTIVE, a complete snapshot blocks it and cuts it off, and the sync puts it back. */
  lemma SyncRevivesBlocked(w: World) returns (mid: World, w': World)
    requires w == Start(Only(ACTIVE, Used10(0)), PRESENT, map[])
    ensures Reaches(w, [SyncReads, SnapshotRecorded(0, SEEN_ONLINE, ALICE_BLOCKED, true)], mid) && InForce(mid, "c")
    ensures Reaches(mid, [SyncTurn("c", 0, AsDesired, true), SyncEnds], w')
    ensures "c" in w'.table && w'.table["c"].client.status == BLOCKED && TAG in w'.users && w'.provisioned
  {
    OnlyIsValid(ACTIVE, Used10(0));
    mid := AliceCutOff(w.(inSync := Some(w.table)), ACTIVE);
    TwoSteps(w, SyncReads, w.(inSync := Some(w.table)), SnapshotRecorded(0, SEEN_ONLINE, ALICE_BLOCKED, true), mid);
    w' := PutBack(mid, "c", 0, Only(ACTIVE, Used10(0)));
  }

  lemma PutBack(mid: World, id: ClientId, now: nat, read: Table) returns (w': World)
    requires Valid(mid.table) && mid.inSync == Some(read) && read.Keys == {id} && Desired(read[id].client, now).Some?
    ensures Reaches(mid, [SyncTurn(id, now, AsDesired, true), SyncEnds], w')
    ensures w'.table == mid.table && read[id].client.emailTag in w'.users && w'.provisioned
  {
    var revived := mid.(users := Turned(mid.users, read[id].client, now, AsDesired), inSync := Some(read - {id}));
    assert read - {id} == map[];
    w' := revived.(inSync := None, provisioned := true);
    TwoSteps(mid, SyncTurn(id, now, AsDesired, true), revived, SyncEnds, w');
  }

  /** Xray restarts, and the full sync that a tick starts for it fails: the runtime stays empty, and the flag stays up. */
  lemma RecoveryIsForgotten(w: World) returns (w': World)
    requires w == Start(Only(ACTIVE, map[]), PRESENT, map[]).(provisioned := true)
    ensures Reaches(w, [Restart] + [SyncReads, SyncTurn("c", 0, Untouched, false)], w')
    ensures w'.provisioned && w'.inSync.None? && w'.users == map[] && "c" in w'.table && Desired(w'.table["c"].client, 0).Some?
  {
    OnlyIsValid(ACTIVE, map[]);
    w' := w.(users := map[]);
    ReachOne(w, Restart, w');
    TwoSteps(w', SyncReads, w'.(inSync := Some(w.table)), SyncTurn("c", 0, Untouched, false), w');
    ReachBoth(w, [Restart], w', [SyncReads, SyncTurn("c", 0, Untouched, false)], w');
  }

  /** The WireGuard file goes on listing a client that a complete snapshot blocks and cuts off from Xray. */
  lemma BlockedStaysListed(s: TunnelProofs.System) returns (s': TunnelProofs.System)
    requires s == TunnelProofs.System(Start(Only(ACTIVE, Used10(0)), PRESENT, map[]), {"c"}, None)
    ensures TunnelProofs.Moves(s, TunnelProofs.Control(SnapshotRecorded(0, SEEN_ONLINE, ALICE_BLOCKED, true)), s')
    ensures InForce(s'.w, "c") && "c" in s'.file
  {
    var w := AliceCutOff(s.w, ACTIVE);
    s' := s.(w := w);
  }

  // ----- expiry -----

  const SEEN_TEN := Capture(map[TAG := Delta(0, 10, 10)], {}, map[])

  /** An expiry reads a client as ACTIVE, a complete snapshot finds it over its quota and blocks it, and the expiry writes
      EXPIRED over the block. */
  lemma ExpiryOverwritesBlock(w: World) returns (mid: World, w': World)
    requires w == Start(Only(ACTIVE, map[]), PRESENT, map[TrafficName(TAG, Uplink) := 10])
    ensures Reaches(w, [ExpireReads(10), SnapshotRecorded(10, SEEN_TEN, ALICE_BLOCKED, true)], mid)
    ensures Reaches(mid, [ExpireWrites(map["c" := Alice(ACTIVE)], true)], w')
    ensures QuotaSafe(w) && QuotaSafe(mid) && InForce(mid, "c")
    ensures !QuotaSafe(w') && "c" in w'.table && w'.table["c"].client.status == EXPIRED
  {
    OneCounter(10);
    OnlyIsValid(ACTIVE, map[]);
    FreshAccountKeepsQuota(Alice(ACTIVE));
    ReadsAlice(w);
    var reading := w.(expiring := multiset{map["c" := Alice(ACTIVE)]});
    mid := BlocksAlice(reading);
    TwoSteps(w, ExpireReads(10), reading, SnapshotRecorded(10, SEEN_TEN, ALICE_BLOCKED, true), mid);
    w' := AfterExpiry(mid, map["c" := Alice(ACTIVE)], true);
    ExpiryLosesBlock(mid, map["c" := Alice(ACTIVE)], w', "c");
    ReachOne(mid, ExpireWrites(map["c" := Alice(ACTIVE)], true), w');
  }

  lemma BlocksAlice(w: World) returns (w': World)
    requires w.table == Only(ACTIVE, map[]) && DeltasOf(w.counters, SEEN_TEN.deltas) && QuotaSafe(w)
    ensures Next(w, SnapshotRecorded(10, SEEN_TEN, ALICE_BLOCKED, true), w')
    ensures QuotaSafe(w') && InForce(w', "c") && Valid(w'.table) && w'.expiring == w.expiring
    ensures OverQuota(w'.table["c"].client, Used(w'.table["c"])) && Quota(w'.table["c"].client) == Some(10)
  {
    EmptySum();
    OverIn(ACTIVE, map[], SEEN_TEN, 10);
    AliceSnapshot(w, ACTIVE, map[], 10, SEEN_TEN);
    w' := AfterSnapshot(w, 10, SEEN_TEN, ALICE_BLOCKED, true);
    OverQuotaIsBlocked(w, 10, SEEN_TEN, ALICE_BLOCKED, w', "c");
  }

  lemma ReadsAlice(w: World)
    requires w.table == Only(ACTIVE, map[]) && w.expiring == multiset{} && Valid(w.table)
    ensures Next(w, ExpireReads(10), w.(expiring := multiset{map["c" := Alice(ACTIVE)]}))
  {
    assert ExpiredRows(w.table, 10) == map["c" := Alice(ACTIVE)];
  }

  /** The panel's next update of such a client, to a later term, lets it run; without the overwritten block it would not. */
  lemma OverwrittenBlockRevives(p: UpdatePayload)
    requires p == NO_CHANGE.(expiresAt := Some(Some(100)))
    ensures RuntimeActive(UpdatedClient(Alice(EXPIRED), p, 20), 20) && !RuntimeActive(UpdatedClient(Alice(BLOCKED), p, 20), 20)
  {
    OverwrittenBlockRevivesExactly(Alice(BLOCKED), p, 20);
  }

  /** The dashboard expires a client in Xray: no expiry will find it again, and its user stays. */
  lemma DashboardExpiryLeavesUser(w: World) returns (w': World)
    requires w == Start(Only(ACTIVE, map[]), PRESENT, map[])
    ensures Reaches(w, [ExpireInPlace(10)], w') && Overstays(w', "c", 10)
    ensures forall now: nat :: ExpiredRows(w'.table, now) == map[]
  {
    OnlyIsValid(ACTIVE, map[]);
    w' := w.(table := Only(EXPIRED, map[]));
    assert ExpiredRows(w.table, 10).Keys == {"c"};
    assert ExpiredTable(w.table, {"c"}) == w'.table;
    ReachOne(w, ExpireInPlace(10), w');
  }

  // ----- import -----

  /** An item of a disabled client over its quota. */
  function DisabledItem(): ClientImport.Item {
    ClientImport.Item(None, "u", TAG, "Alice", DISABLED, None, None, None, None, Some(10), false, 10, 0, 10, None, None,
                      true, true, "s", VLESS_REALITY_TCP, 0)
  }

  /** Imported into an empty table, it is stored as DISABLED over its quota. */
  lemma ImportBreaksQuota(w: World, drawn: ClientImport.Drawn) returns (step: Step, w': World)
    requires w == Start(map[], map[], map[]) && drawn == ClientImport.Drawn("c", "x", "y")
    ensures step.Create? && step.client.status == DISABLED && Reaches(w, [step], w')
    ensures QuotaSafe(w) && !QuotaSafe(w')
  {
    var a := ClientImport.ImportedAccount(w.table, DisabledItem(), "admin", 0, drawn);
    step := Create(a.client, a.rows);
    w' := Written(w, a);
    ImportService.ImportIsAStep(w, DisabledItem(), false, "admin", 0, drawn, step);
    ReachOne(w, step, w');
    ImportProofs.ImportKeepsQuotaExactly(w, DisabledItem(), false, "admin", 0, drawn, step);
  }
}
