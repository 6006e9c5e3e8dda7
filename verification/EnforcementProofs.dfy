/**
 What the steps guarantee about limits: limits that were exceeded are enforced and stay so, also
 while a full sync is under way, and the status Xray and WireGuard act on is the status the panel
 shows. Conditions are stated on the state before the step.
 */
module EnforcementProofs {

  import opened Basics
  import opened StatNames
  import opened TrafficDeltas
  import opened Clients
  import opened Usage
  import opened ControlPlane
  import opened Ledger

  ghost function Used(a: Account): nat {
    Sum(a.rows).total
  }

  /** What a client will have used once a snapshot has charged it. */
  ghost function UsedAfter(a: Account, cap: Capture): nat {
    Used(a) + Gain(SightingOf(cap, a.client.emailTag)).total
  }

  // ----- one complete snapshot -----

  predicate Named(c: Client, cap: Capture) {
    c.emailTag in cap.deltas || c.emailTag in cap.online
  }

  /** A snapshot finds the client over its quota. */
  ghost predicate OverQuotaIn(a: Account, cap: Capture) {
    Named(a.client, cap) && OverQuota(a.client, UsedAfter(a, cap))
  }

  /** A snapshot finds the client over its device or IP limit. */
  predicate Breaching(c: Client, cap: Capture) {
    var ips := Lookup(cap.ipCounts, c.emailTag).GetOr(0);
    Named(c, cap) && (Above(ips, c.deviceLimit) || Above(ips, c.ipLimit))
  }

  /** The status a complete snapshot leaves behind. */
  ghost function StatusAfter(a: Account, cap: Capture): Status {
    if OverQuotaIn(a, cap) then BLOCKED
    else if Breaching(a.client, cap) && a.client.status == ACTIVE then BLOCKED
    else a.client.status
  }

  lemma SeenKeeps(c: Client, sighting: Option<Sighting>, now: nat)
    ensures
      var s := Seen(c, sighting, now);
      && s == c.(lastSeenAt := s.lastSeenAt, lastActivatedAt := s.lastActivatedAt)
  {
  }

  lemma UsedRecorded(table: Table, counters: map<string, nat>, cap: Capture, now: nat, id: ClientId)
    requires id in table && DeltasOf(counters, cap.deltas)
    ensures Used(Recorded(table, cap, now)[id]) == UsedAfter(table[id], cap)
  {
    GainIsCounted(counters, cap, table[id].client.emailTag);
    CapturedSum(table[id].rows, UtcDay(now), SightingOf(cap, table[id].client.emailTag));
  }

  /** A recorded snapshot adds exactly what it saw to what a client has used. */
  lemma SnapshotUses(w: World, now: nat, cap: Capture, e: Enforcement, complete: bool, w': World, id: ClientId)
    requires Next(w, SnapshotRecorded(now, cap, e, complete), w') && id in w.table
    ensures id in w'.table && Used(w'.table[id]) == UsedAfter(w.table[id], cap)
  {
    UsedRecorded(w.table, w.counters, cap, now, id);
  }

  lemma HitsAt(table: Table, counters: map<string, nat>, cap: Capture, now: nat, id: ClientId)
    requires id in table && DeltasOf(counters, cap.deltas)
    ensures
      var recorded := Recorded(table, cap, now);
      && (id in QuotaHits(recorded, cap) <==> OverQuotaIn(table[id], cap))
      && (id in AccessHits(recorded, cap) <==> Breaching(table[id].client, cap))
      && (id in AccessMoves(recorded, cap) <==>
            Breaching(table[id].client, cap) && table[id].client.status == ACTIVE && !OverQuotaIn(table[id], cap))
  {
    UsedRecorded(table, counters, cap, now, id);
    SeenKeeps(table[id].client, SightingOf(cap, table[id].client.emailTag), now);
    BreachesExactly(table[id].client, cap);
  }

  /** After a complete snapshot every client has the status its limits ask for. */
  lemma SnapshotSetsStatus(w: World, now: nat, cap: Capture, e: Enforcement, w': World, id: ClientId)
    requires Next(w, SnapshotRecorded(now, cap, e, true), w') && id in w.table
    ensures id in w'.table && w'.table[id].client.status == StatusAfter(w.table[id], cap)
  {
    HitsAt(w.table, w.counters, cap, now, id);
    SeenKeeps(w.table[id].client, SightingOf(cap, w.table[id].client.emailTag), now);
  }

  /** It cuts off exactly the clients over a limit. */
  lemma SnapshotCutsOff(w: World, now: nat, cap: Capture, e: Enforcement, w': World, id: ClientId)
    requires Next(w, SnapshotRecorded(now, cap, e, true), w') && id in w.table
    ensures
      var a := w.table[id];
      Lookup(w'.users, a.client.emailTag)
      == if OverQuotaIn(a, cap) || Breaching(a.client, cap) then None else Lookup(w.users, a.client.emailTag)
  {
    HitsAt(w.table, w.counters, cap, now, id);
    CutExactly(w.table, cap, now, e, id);
  }

  lemma CutExactly(table: Table, cap: Capture, now: nat, e: Enforcement, id: ClientId)
    requires Valid(table) && id in table && Finished(e, Recorded(table, cap, now), cap)
    ensures
      var recorded := Recorded(table, cap, now);
      table[id].client.emailTag in e.cut <==> id in QuotaHits(recorded, cap) + AccessHits(recorded, cap)
  {
    var recorded := Recorded(table, cap, now);
    var hits := QuotaHits(recorded, cap) + AccessHits(recorded, cap);
    SnapshotSameClients(table, cap, now, {});
    if table[id].client.emailTag in e.cut {
      var other :| other in hits && other in recorded && recorded[other].client.emailTag == table[id].client.emailTag;
      SeenKeeps(table[other].client, SightingOf(cap, table[other].client.emailTag), now);
      assert table[other].client.emailTag == table[id].client.emailTag;
    }
    if id in hits {
      SeenKeeps(table[id].client, SightingOf(cap, table[id].client.emailTag), now);
      assert recorded[id].client.emailTag == table[id].client.emailTag;
    }
  }

  /** It writes an audit entry for exactly the clients that it moves from ACTIVE to BLOCKED for their access limits. */
  lemma SnapshotLogs(w: World, now: nat, cap: Capture, e: Enforcement, w': World, id: ClientId)
    requires Next(w, SnapshotRecorded(now, cap, e, true), w') && id in w.table
    ensures id in Logged(e) <==>
      Breaching(w.table[id].client, cap) && w.table[id].client.status == ACTIVE && !OverQuotaIn(w.table[id], cap)
    ensures w'.audit == w.audit + e.logged && LoggedOnce(e)
    ensures id in Logged(e) ==> EntryFor(id, w.table[id].client, cap) in e.logged
  {
    HitsAt(w.table, w.counters, cap, now, id);
    SeenKeeps(w.table[id].client, SightingOf(cap, w.table[id].client.emailTag), now);
    if id in Logged(e) {
      LoggedEntry(Recorded(w.table, cap, now), cap, e, id);
    }
  }

  lemma LoggedEntry(table: Table, cap: Capture, e: Enforcement, id: ClientId)
    requires Truthful(e, table, cap) && id in Logged(e) && id in table
    ensures EntryFor(id, table[id].client, cap) in e.logged
  {
    var i :| 0 <= i < |e.logged| && e.logged[i].entityId == id;
  }

  /** A snapshot changes no usage row but the ones of its own day. */
  lemma SnapshotKeepsOtherDays(w: World, now: nat, cap: Capture, e: Enforcement, complete: bool, w': World, id: ClientId)
    requires Next(w, SnapshotRecorded(now, cap, e, complete), w') && id in w.table
    ensures id in w'.table && w'.table[id].rows - {UtcDay(now)} == w.table[id].rows - {UtcDay(now)}
    ensures TotalsConsistent(w.table[id].rows) ==> TotalsConsistent(w'.table[id].rows)
  {
    var sighting := SightingOf(cap, w.table[id].client.emailTag);
    RecordedRows(w.table, cap, now, e.blocked, id);
    CapturedOtherDays(w.table[id].rows, UtcDay(now), sighting);
    GainIsCounted(w.counters, cap, w.table[id].client.emailTag);
    if TotalsConsistent(w.table[id].rows) {
      CapturedKeepsTotals(w.table[id].rows, UtcDay(now), sighting);
    }
  }

  /** The addresses of a client that a snapshot names; a client online without any counts as one. */
  function ConnectionsOf(c: Client, cap: Capture): nat {
    var ips := Lookup(cap.ipCounts, c.emailTag).GetOr(0);
    if !Named(c, cap) then 0 else if ips == 0 && c.emailTag in cap.online then 1 else ips
  }

  /** When a client was last seen, and last connected: by this snapshot exactly if it moved a byte or was connected. */
  lemma SnapshotSeesExactly(w: World, now: nat, cap: Capture, e: Enforcement, complete: bool, w': World, id: ClientId)
    requires Next(w, SnapshotRecorded(now, cap, e, complete), w') && id in w.table
    ensures
      var c := w.table[id].client;
      var moved := c.emailTag in cap.deltas && cap.deltas[c.emailTag].totalBytes > 0;
      && id in w'.table
      && w'.table[id].client.lastSeenAt == (if moved || ConnectionsOf(c, cap) > 0 then Some(now) else c.lastSeenAt)
      && w'.table[id].client.lastActivatedAt == (if ConnectionsOf(c, cap) > 0 then Some(now) else c.lastActivatedAt)
  {
    RecordedTimes(w.table, cap, now, e.blocked, id);
    SeenExactly(w.table[id].client, cap, now);
  }

  lemma RecordedTimes(table: Table, cap: Capture, now: nat, blocked: set<ClientId>, id: ClientId)
    requires id in table
    ensures
      var c := WithBlocked(Recorded(table, cap, now), blocked)[id].client;
      var seen := Seen(table[id].client, SightingOf(cap, table[id].client.emailTag), now);
      c.lastSeenAt == seen.lastSeenAt && c.lastActivatedAt == seen.lastActivatedAt
  {
  }

  lemma SeenExactly(c: Client, cap: Capture, now: nat)
    ensures
      var seen := Seen(c, SightingOf(cap, c.emailTag), now);
      var moved := c.emailTag in cap.deltas && cap.deltas[c.emailTag].totalBytes > 0;
      && seen.lastSeenAt == (if moved || ConnectionsOf(c, cap) > 0 then Some(now) else c.lastSeenAt)
      && seen.lastActivatedAt == (if ConnectionsOf(c, cap) > 0 then Some(now) else c.lastActivatedAt)
  {
  }

  /** The connection count on display after a snapshot, and the one kind of client for which it is wrong. */
  lemma SnapshotConnections(w: World, now: nat, cap: Capture, e: Enforcement, complete: bool, w': World, id: ClientId)
    requires Next(w, SnapshotRecorded(now, cap, e, complete), w') && id in w.table
    requires NoRowAfter(w.table[id].rows, UtcDay(now))
    ensures
      var tag := w.table[id].client.emailTag;
      var observed := ConnectionsOf(w.table[id].client, cap);
      && id in w'.table
      && (LatestConnections(w'.table[id].rows) == observed <==>
            !(&& tag in cap.deltas && cap.deltas[tag].totalBytes == 0 && observed == 0
              && UtcDay(now) !in w.table[id].rows && LatestConnections(w.table[id].rows) != 0))
  {
    RecordedRows(w.table, cap, now, e.blocked, id);
    ConnectionsShown(w.table[id].rows, UtcDay(now), SightingOf(cap, w.table[id].client.emailTag));
  }

  /** A snapshot changes a client's status and the two times it was seen, nothing else. */
  lemma SnapshotKeepsTerms(w: World, now: nat, cap: Capture, e: Enforcement, complete: bool, w': World, id: ClientId)
    requires Next(w, SnapshotRecorded(now, cap, e, complete), w') && id in w.table
    ensures id in w'.table && SameTerms(w.table[id].client, w'.table[id].client)
  {
    SeenKeeps(w.table[id].client, SightingOf(cap, w.table[id].client.emailTag), now);
  }

  /** Records that differ at most in status and in the times the client was seen. */
  predicate SameTerms(c: Client, c': Client) {
    c' == c.(status := c'.status, lastSeenAt := c'.lastSeenAt, lastActivatedAt := c'.lastActivatedAt)
  }

  // ----- what a step without an admin does to a client's row -----

  /** An admin acts on this client. */
  predicate ActsOn(step: Step, id: ClientId) {
    match step
    case Delete(x) => x == id
    case ResetTraffic(x, _) => x == id
    case Edit(c, _) => c.id == id
    case _ => false
  }

  lemma WriteKeepsRow(w: World, a: Account, id: ClientId)
    requires id in w.table && a.client.id != id
    ensures id in Written(w, a).table && Written(w, a).table[id] == w.table[id]
  {
  }

  /** A block or an expiry; apart from these, only the two times the client was seen may change. */
  function StatusBy(c: Client, step: Step, id: ClientId): Status {
    match step
    case SnapshotRecorded(_, _, e, _) => if id in e.blocked then BLOCKED else c.status
    case ExpireWrites(read, ok) => if ok && id in read then EXPIRED else c.status
    case ExpireInPlace(now) => if ExpireHit(c, now) then EXPIRED else c.status
    case _ => c.status
  }

  predicate Becomes(c: Client, c': Client, status: Status) {
    SameTerms(c, c') && c'.status == status
  }

  lemma RowKept(w: World, step: Step, w': World, id: ClientId)
    requires Next(w, step, w') && id in w.table && !ActsOn(step, id)
    requires !step.SnapshotRecorded? && !step.ExpireWrites? && !step.ExpireInPlace?
    ensures id in w'.table && w'.table[id] == w.table[id]
  {
    match step
    case Create(c, rows) => WriteKeepsRow(w, Account(c, rows), id);
    case ResetTraffic(x, status) => WriteKeepsRow(w, Account(w.table[x].client.(status := status), map[]), id);
    case Edit(c, rows) => WriteKeepsRow(w, EditedAccount(w.table, c, rows), id);
    case _ =>
  }

  lemma RowBySnapshot(w: World, now: nat, cap: Capture, e: Enforcement, complete: bool, w': World, id: ClientId)
    requires Next(w, SnapshotRecorded(now, cap, e, complete), w') && id in w.table
    ensures id in w'.table && Becomes(w.table[id].client, w'.table[id].client,
      if id in e.blocked then BLOCKED else w.table[id].client.status)
  {
    SeenKeeps(w.table[id].client, SightingOf(cap, w.table[id].client.emailTag), now);
  }

  lemma RowByExpiry(w: World, read: Batch, ok: bool, w': World, id: ClientId)
    requires Next(w, ExpireWrites(read, ok), w') && id in w.table
    ensures id in w'.table && Becomes(w.table[id].client, w'.table[id].client,
      if ok && id in read then EXPIRED else w.table[id].client.status)
  {
  }

  lemma RowByExpiryInPlace(w: World, now: nat, w': World, id: ClientId)
    requires Next(w, ExpireInPlace(now), w') && id in w.table
    ensures id in w'.table && Becomes(w.table[id].client, w'.table[id].client,
      if ExpireHit(w.table[id].client, now) then EXPIRED else w.table[id].client.status)
  {
  }

  lemma RowAfter(w: World, step: Step, w': World, id: ClientId)
    requires Next(w, step, w') && id in w.table && !ActsOn(step, id)
    ensures id in w'.table && Becomes(w.table[id].client, w'.table[id].client, StatusBy(w.table[id].client, step, id))
  {
    if step.SnapshotRecorded? {
      RowBySnapshot(w, step.now, step.cap, step.enforcement, step.complete, w', id);
    } else if step.ExpireWrites? {
      RowByExpiry(w, step.read, step.ok, w', id);
    } else if step.ExpireInPlace? {
      RowByExpiryInPlace(w, step.now, w', id);
    } else {
      RowKept(w, step, w', id);
    }
  }

  // ----- enforcement stays in force -----

  ghost predicate InForce(w: World, id: ClientId) {
    id in w.table && w.table[id].client.status == BLOCKED && w.table[id].client.emailTag !in w.users
  }

  /** A record whose turn adds nobody at any time. */
  predicate NeverAdds(c: Client) {
    c.status == BLOCKED || c.status == DISABLED || !c.vlessEnabled
  }

  /** No sync under way holds a record of the tag that could put the user back, and no expiry under way has read
      the client or a record of the tag. */
  ghost predicate Calm(w: World, id: ClientId, tag: string) {
    Unread(w, id, tag) && Quiet(w, tag)
  }

  ghost predicate Unread(w: World, id: ClientId, tag: string) {
    forall read: Batch, x :: read in w.expiring && x in read ==> x != id && read[x].emailTag != tag
  }

  ghost predicate Quiet(w: World, tag: string) {
    && (forall c :: c in w.waiting && c.emailTag == tag ==> NeverAdds(c))
    && (w.inSync.Some? ==> forall x :: x in w.inSync.value && w.inSync.value[x].client.emailTag == tag ==> NeverAdds(w.inSync.value[x].client))
  }

  /** A turn that adds the user of the tag, from a record as it was read some time before. */
  predicate Revives(w: World, step: Step, tag: string) {
    match step
    case SyncTurn(x, now, turn, _) =>
      w.inSync.Some? && x in w.inSync.value && Adds(w.inSync.value[x].client, now, turn, tag)
    case ClientTurn(c, now, turn, _) => Adds(c, now, turn, tag)
    case _ => false
  }

  /** An expiry writes over the client's row, which it read some time before. */
  predicate WritesOver(step: Step, id: ClientId) {
    step.ExpireWrites? && step.ok && id in step.read
  }

  predicate Adds(c: Client, now: nat, turn: Turn, tag: string) {
    turn.AsDesired? && c.emailTag == tag && Desired(c, now).Some?
  }

  lemma TurnedAt(users: map<string, string>, c: Client, now: nat, turn: Turn, tag: string)
    ensures tag !in users ==> (tag in Turned(users, c, now, turn) <==> Adds(c, now, turn, tag))
    ensures c.emailTag != tag ==> Lookup(Turned(users, c, now, turn), tag) == Lookup(users, tag)
  {
  }

  lemma WriteLeavesInForce(w: World, a: Account, id: ClientId)
    requires Valid(w.table) && Valid(w.table[a.client.id := a]) && InForce(w, id) && a.client.id != id
    ensures InForce(Written(w, a), id)
    ensures a.client.emailTag != w.table[id].client.emailTag
  {
    var after := w.table[a.client.id := a];
    assert after[a.client.id].client.emailTag != after[id].client.emailTag;
  }

  lemma UserAddedExactly(w: World, step: Step, w': World, tag: string)
    requires Next(w, step, w') && tag !in w.users
    ensures tag in w'.users <==> Revives(w, step, tag)
  {
    match step
    case SyncTurn(x, now, turn, ok) => TurnedAt(w.users, w.inSync.value[x].client, now, turn, tag);
    case ClientTurn(c, now, turn, ok) => TurnedAt(w.users, c, now, turn, tag);
    case _ =>
  }

  /** Unless an admin acts on the client, two things alone undo the enforcement: a turn on a record that still
      asks for the client's user, and the write of an expiry that read the client's row before it was blocked. */
  lemma BreaksInForceExactly(w: World, step: Step, w': World, id: ClientId)
    requires Next(w, step, w') && InForce(w, id) && !ActsOn(step, id)
    ensures id in w'.table && w'.table[id].client.emailTag == w.table[id].client.emailTag
    ensures InForce(w', id) <==> !Revives(w, step, w.table[id].client.emailTag) && !WritesOver(step, id)
  {
    RowAfter(w, step, w', id);
    UserAddedExactly(w, step, w', w.table[id].client.emailTag);
  }

  lemma ResetLeavesInForce(w: World, x: ClientId, status: Status, id: ClientId)
    requires Valid(w.table) && x in w.table && InForce(w, id) && x != id
    ensures InForce(Written(w, Account(w.table[x].client.(status := status), map[])), id)
    ensures w.table[x].client.emailTag != w.table[id].client.emailTag
  {
    SameIdentityValid(w.table, Account(w.table[x].client.(status := status), map[]));
    WriteLeavesInForce(w, Account(w.table[x].client.(status := status), map[]), id);
  }

  lemma StaysUnread(w: World, step: Step, w': World, id: ClientId)
    requires Next(w, step, w') && InForce(w, id) && Unread(w, id, w.table[id].client.emailTag)
    ensures Unread(w', id, w.table[id].client.emailTag)
  {
    match step
    case ExpireReads(now) => ExpiryIsCalm(w.table, now, id);
    case _ =>
  }

  lemma ExpiryStaysQuiet(w: World, read: Batch, ok: bool, id: ClientId, tag: string)
    requires read in w.expiring && Unread(w, id, tag) && Quiet(w, tag)
    ensures Quiet(AfterExpiry(w, read, ok), tag)
  {
    ExpiredAreRead(read);
  }

  lemma StaysQuiet(w: World, step: Step, w': World, id: ClientId)
    requires Next(w, step, w') && InForce(w, id) && !ActsOn(step, id) && Calm(w, id, w.table[id].client.emailTag)
    ensures Quiet(w', w.table[id].client.emailTag)
  {
    match step
    case SyncReads => ReadIsCalm(w.table, id);
    case Create(c, rows) => WriteLeavesInForce(w, Account(c, rows), id);
    case ResetTraffic(x, status) => ResetLeavesInForce(w, x, status, id);
    case Edit(c, rows) => WriteLeavesInForce(w, EditedAccount(w.table, c, rows), id);
    case ExpireWrites(read, ok) => ExpiryStaysQuiet(w, read, ok, id, w.table[id].client.emailTag);
    case _ =>
  }

  lemma ReadIsCalm(table: Table, id: ClientId)
    requires Valid(table) && id in table && table[id].client.status == BLOCKED
    ensures forall x :: x in table && table[x].client.emailTag == table[id].client.emailTag ==> NeverAdds(table[x].client)
  {
  }

  lemma ExpiryIsCalm(table: Table, now: nat, id: ClientId)
    requires Valid(table) && id in table && table[id].client.status == BLOCKED
    ensures
      var read := ExpiredRows(table, now);
      forall x :: x in read ==> x != id && read[x].emailTag != table[id].client.emailTag
  {
  }

  lemma ExpiredAreRead(read: Batch)
    ensures forall c :: c in ExpiredClients(read) ==> exists x :: x in read && c.emailTag == read[x].emailTag
  {
  }

  lemma StepStaysInForce(w: World, step: Step, w': World, id: ClientId)
    requires Next(w, step, w') && InForce(w, id) && Calm(w, id, w.table[id].client.emailTag) && !ActsOn(step, id)
    ensures InForce(w', id) && Calm(w', id, w'.table[id].client.emailTag)
  {
    BreaksInForceExactly(w, step, w', id);
    StaysUnread(w, step, w', id);
    StaysQuiet(w, step, w', id);
  }

  /** Once blocked and cut off, with no sync and no expiry under way holding an older record of it, a client stays so
      through every run in which no admin acts on it: whatever comes between the calls of a sync or of an expiry,
      whatever fails, restarts, work on other clients. */
  lemma {:induction false} StaysInForce(states: seq<World>, steps: seq<Step>, id: ClientId)
    requires Run(states, steps) && InForce(states[0], id) && Calm(states[0], id, states[0].table[id].client.emailTag)
    requires forall i :: 0 <= i < |steps| ==> !ActsOn(steps[i], id)
    ensures InForce(states[|steps|], id) && Calm(states[|steps|], id, states[|steps|].table[id].client.emailTag)
  {
    if steps != [] {
      var n := |steps| - 1;
      StaysInForce(states[..n + 1], steps[..n], id);
      StepStaysInForce(states[n], steps[n], states[n + 1], id);
    }
  }

  lemma RestOfRun(states: seq<World>, steps: seq<Step>, k: nat)
    requires Run(states, steps) && k <= |steps|
    ensures Run(states[k..], steps[k..]) && states[k..][0] == states[k] && states[k..][|steps[k..]|] == states[|steps|]
    ensures forall i :: 0 <= i < |steps[k..]| ==> steps[k..][i] == steps[k + i]
  {
    var later, rest := states[k..], steps[k..];
    forall i | 0 <= i < |rest| ensures Next(later[i], rest[i], later[i + 1]) {
      assert later[i] == states[k + i] && rest[i] == steps[k + i] && later[i + 1] == states[k + i + 1];
    }
  }

  /** A client that some complete snapshot of a run found over its quota, or ACTIVE and over an access limit, is
      blocked and cut off at the end of the run, if no sync and no expiry held an older record of it at the snapshot
      and no admin acted on it since. */
  lemma EnforcedFromThenOn(states: seq<World>, steps: seq<Step>, k: nat, now: nat, cap: Capture, e: Enforcement, id: ClientId)
    requires Run(states, steps) && k < |steps| && steps[k] == SnapshotRecorded(now, cap, e, true) && id in states[k].table
    requires
      var a := states[k].table[id];
      OverQuotaIn(a, cap) || (Breaching(a.client, cap) && a.client.status == ACTIVE)
    requires Calm(states[k], id, states[k].table[id].client.emailTag)
    requires forall i :: k < i < |steps| ==> !ActsOn(steps[i], id)
    ensures InForce(states[|steps|], id)
  {
    SnapshotSetsStatus(states[k], now, cap, e, states[k + 1], id);
    SnapshotCutsOff(states[k], now, cap, e, states[k + 1], id);
    SnapshotKeepsTerms(states[k], now, cap, e, true, states[k + 1], id);
    RestOfRun(states, steps, k + 1);
    StaysInForce(states[k + 1..], steps[k + 1..], id);
  }

  // ----- the quota and the two views of a client -----

  /** No client over its quota may run. A quota of zero bytes stops a client by itself, in both views. */
  ghost predicate QuotaKept(a: Account) {
    OverQuota(a.client, Used(a)) ==> a.client.status == BLOCKED || Quota(a.client) == Some(0)
  }

  ghost predicate QuotaSafe(w: World) {
    forall id :: id in w.table ==> QuotaKept(w.table[id])
  }

  /** What a step has to do to keep the quota: a recorded snapshot must have come as far as blocking every client
      that it pushed over its quota, a written row must not let a client over its quota run, and an expiry must not
      write over the block of such a client. */
  ghost predicate KeepsQuota(w: World, step: Step) {
    match step
    case SnapshotRecorded(_, cap, e, _) => forall id :: id in w.table ==> QuotaMet(w.table[id], cap, id in e.blocked)
    case Create(c, rows) => QuotaKept(Account(c, rows))
    case Edit(c, rows) => c.id in w.table ==> QuotaKept(EditedAccount(w.table, c, rows))
    case ExpireWrites(read, ok) => ok ==> forall id :: id in read && id in w.table ==> WithinQuota(w.table[id])
    case _ => true
  }

  ghost predicate WithinQuota(a: Account) {
    !OverQuota(a.client, Used(a)) || Quota(a.client) == Some(0)
  }

  ghost predicate QuotaMet(a: Account, cap: Capture, blocked: bool) {
    OverQuotaIn(a, cap) ==> blocked || a.client.status == BLOCKED || Quota(a.client) == Some(0)
  }

  lemma SnapshotQuotaExactly(w: World, now: nat, cap: Capture, e: Enforcement, complete: bool, w': World, id: ClientId)
    requires Next(w, SnapshotRecorded(now, cap, e, complete), w') && id in w.table && QuotaKept(w.table[id])
    ensures id in w'.table && (QuotaKept(w'.table[id]) <==> QuotaMet(w.table[id], cap, id in e.blocked))
  {
    SnapshotUses(w, now, cap, e, complete, w', id);
    SnapshotKeepsTerms(w, now, cap, e, complete, w', id);
  }

  lemma SnapshotKeepsQuotaExactly(w: World, now: nat, cap: Capture, e: Enforcement, complete: bool, w': World)
    requires Next(w, SnapshotRecorded(now, cap, e, complete), w') && QuotaSafe(w)
    ensures QuotaSafe(w') <==> KeepsQuota(w, SnapshotRecorded(now, cap, e, complete))
  {
    forall id | id in w.table ensures id in w'.table && (QuotaKept(w'.table[id]) <==> QuotaMet(w.table[id], cap, id in e.blocked)) {
      SnapshotQuotaExactly(w, now, cap, e, complete, w', id);
    }
  }

  lemma WriteKeepsQuotaExactly(w: World, a: Account)
    requires QuotaSafe(w)
    ensures QuotaSafe(Written(w, a)) <==> QuotaKept(a)
  {
    var w' := Written(w, a);
    assert w'.table[a.client.id] == a;
    forall id | id in w'.table && id != a.client.id ensures QuotaKept(w'.table[id]) {
      assert QuotaKept(w.table[id]);
    }
  }

  lemma FreshAccountKeepsQuota(c: Client)
    ensures QuotaKept(Account(c, map[]))
  {
    EmptySum();
  }

  lemma ExpiryKeepsQuotaExactly(w: World, ids: set<ClientId>)
    requires QuotaSafe(w)
    ensures
      var after := ExpiredTable(w.table, ids);
      (forall id :: id in after ==> QuotaKept(after[id])) <==> forall id :: id in ids && id in w.table ==> WithinQuota(w.table[id])
  {
    var after := ExpiredTable(w.table, ids);
    forall id | id in w.table ensures QuotaKept(after[id]) <==> (id in ids ==> WithinQuota(w.table[id])) {
      assert QuotaKept(w.table[id]);
    }
  }

  /** Rows that are ACTIVE when they are written are within their quota already. */
  lemma ExpiryInPlaceKeepsQuota(w: World, now: nat)
    requires QuotaSafe(w)
    ensures forall id :: id in ExpiredRows(w.table, now) && id in w.table ==> WithinQuota(w.table[id])
  {
    forall id | id in ExpiredRows(w.table, now) && id in w.table ensures WithinQuota(w.table[id]) {
      assert QuotaKept(w.table[id]);
    }
  }

  /** Every step keeps the quota exactly when it does what it has to. */
  lemma StepKeepsQuotaExactly(w: World, step: Step, w': World)
    requires Next(w, step, w') && QuotaSafe(w)
    ensures QuotaSafe(w') <==> KeepsQuota(w, step)
  {
    match step
    case SnapshotRecorded(now, cap, e, complete) => SnapshotKeepsQuotaExactly(w, now, cap, e, complete, w');
    case ExpireWrites(read, ok) => ExpiryKeepsQuotaExactly(w, read.Keys);
    case ExpireInPlace(now) =>
      ExpiryKeepsQuotaExactly(w, ExpiredRows(w.table, now).Keys);
      ExpiryInPlaceKeepsQuota(w, now);
    case Create(c, rows) => WriteKeepsQuotaExactly(w, Account(c, rows));
    case Delete(id) => DeleteKeepsQuota(w, id);
    case ResetTraffic(x, status) =>
      FreshAccountKeepsQuota(w.table[x].client.(status := status));
      WriteKeepsQuotaExactly(w, Account(w.table[x].client.(status := status), map[]));
    case Edit(c, rows) => WriteKeepsQuotaExactly(w, EditedAccount(w.table, c, rows));
    case _ =>
  }

  lemma DeleteKeepsQuota(w: World, id: ClientId)
    requires QuotaSafe(w)
    ensures forall x :: x in w.table - {id} ==> QuotaKept((w.table - {id})[x])
  {
  }

  /** Complete snapshots, creations without usage, everything but edits. */
  predicate Orderly(step: Step) {
    !step.Edit? && (step.SnapshotRecorded? ==> step.complete) && (step.Create? ==> step.usage == map[])
  }

  /** An expiry writes over a row that was blocked since it was read. */
  predicate WritesOverBlock(w: World, step: Step) {
    step.ExpireWrites? && step.ok && exists id :: id in step.read && id in w.table && w.table[id].client.status == BLOCKED
  }

  lemma OrderlyKeepsQuota(w: World, step: Step, w': World)
    requires Next(w, step, w') && QuotaSafe(w) && Orderly(step) && !WritesOverBlock(w, step)
    ensures QuotaSafe(w')
  {
    StepKeepsQuotaExactly(w, step, w');
    match step
    case SnapshotRecorded(now, cap, e, complete) => CompleteMeetsQuota(w, now, cap, e, w');
    case Create(c, rows) => FreshAccountKeepsQuota(c);
    case ExpireWrites(read, ok) =>
      forall id | ok && id in read && id in w.table ensures WithinQuota(w.table[id]) {
        assert QuotaKept(w.table[id]);
      }
    case _ =>
  }

  lemma CompleteMeetsQuota(w: World, now: nat, cap: Capture, e: Enforcement, w': World)
    requires Next(w, SnapshotRecorded(now, cap, e, true), w')
    ensures KeepsQuota(w, SnapshotRecorded(now, cap, e, true))
  {
    forall id | id in w.table ensures QuotaMet(w.table[id], cap, id in e.blocked) {
      HitsAt(w.table, w.counters, cap, now, id);
    }
  }

  /** Over every orderly run from a safe state in which no expiry writes over a block, every client over its quota is blocked. */
  lemma {:induction false} QuotaHolds(states: seq<World>, steps: seq<Step>)
    requires Run(states, steps) && QuotaSafe(states[0])
    requires forall i :: 0 <= i < |steps| ==> Orderly(steps[i]) && !WritesOverBlock(states[i], steps[i])
    ensures QuotaSafe(states[|steps|])
  {
    if steps != [] {
      var n := |steps| - 1;
      QuotaHolds(states[..n + 1], steps[..n]);
      OrderlyKeepsQuota(states[n], steps[n], states[n + 1]);
    }
  }

  /** A complete snapshot leaves a client that it finds over its quota in force, and still over it. */
  lemma OverQuotaIsBlocked(w: World, now: nat, cap: Capture, e: Enforcement, mid: World, id: ClientId)
    requires Next(w, SnapshotRecorded(now, cap, e, true), mid) && QuotaSafe(w)
    requires id in w.table && OverQuotaIn(w.table[id], cap)
    ensures QuotaSafe(mid) && InForce(mid, id) && OverQuota(mid.table[id].client, Used(mid.table[id])) && Valid(mid.table)
    ensures Quota(mid.table[id].client) == Quota(w.table[id].client) && mid.expiring == w.expiring
  {
    OrderlyKeepsQuota(w, SnapshotRecorded(now, cap, e, true), mid);
    NextKeepsValid(w, SnapshotRecorded(now, cap, e, true), mid);
    BlockedBySnapshot(w, now, cap, e, mid, id);
    SnapshotUses(w, now, cap, e, true, mid, id);
  }

  lemma BlockedBySnapshot(w: World, now: nat, cap: Capture, e: Enforcement, mid: World, id: ClientId)
    requires Next(w, SnapshotRecorded(now, cap, e, true), mid) && id in w.table && OverQuotaIn(w.table[id], cap)
    ensures InForce(mid, id) && SameTerms(w.table[id].client, mid.table[id].client)
  {
    SnapshotSetsStatus(w, now, cap, e, mid, id);
    SnapshotCutsOff(w, now, cap, e, mid, id);
    SnapshotKeepsTerms(w, now, cap, e, true, mid, id);
  }

  /** The write of an expiry that has read such a client before loses the block, and with it the quota. */
  lemma ExpiryLosesBlock(mid: World, read: Batch, w': World, id: ClientId)
    requires Next(mid, ExpireWrites(read, true), w') && id in read && id in mid.table && QuotaSafe(mid)
    requires OverQuota(mid.table[id].client, Used(mid.table[id])) && Quota(mid.table[id].client) != Some(0)
    ensures id in w'.table && w'.table[id].client.status == EXPIRED && !InForce(w', id) && !QuotaSafe(w')
  {
    assert !WithinQuota(mid.table[id]);
    StepKeepsQuotaExactly(mid, ExpireWrites(read, true), w');
  }

  // ----- what an expiry leaves of the quota -----

  predicate PastTerm(c: Client, time: nat) {
    c.expiresAt.Some? && c.expiresAt.value < time
  }

  /** Whoever is over its quota is blocked, or expired for good by the given time. */
  ghost predicate Stopped(a: Account, time: nat) {
    OverQuota(a.client, Used(a)) ==>
      a.client.status == BLOCKED || Quota(a.client) == Some(0) || (a.client.status == EXPIRED && PastTerm(a.client, time))
  }

  /** Besides, the rows that the expiries under way have read are past their term by then. */
  ghost predicate StoppedBy(w: World, time: nat) {
    && (forall id :: id in w.table ==> Stopped(w.table[id], time))
    && forall read: Batch, id :: read in w.expiring && id in read && id in w.table ==> PastTerm(w.table[id].client, time)
  }

  /** An orderly step whose reading clock is not later than the time, and which draws no id that an expiry has read. */
  ghost predicate OrderlyBy(w: World, step: Step, time: nat) {
    && Orderly(step)
    && (step.ExpireReads? || step.ExpireInPlace? ==> step.now <= time)
    && (step.Create? ==> forall read: Batch :: read in w.expiring ==> step.client.id !in read)
  }

  lemma SnapshotStops(w: World, now: nat, cap: Capture, e: Enforcement, w': World, time: nat)
    requires Next(w, SnapshotRecorded(now, cap, e, true), w') && StoppedBy(w, time)
    ensures StoppedBy(w', time)
  {
    forall id | id in w'.table ensures Stopped(w'.table[id], time) && w'.table[id].client.expiresAt == w.table[id].client.expiresAt {
      SnapshotStopsAt(w, now, cap, e, w', time, id);
    }
  }

  lemma SnapshotStopsAt(w: World, now: nat, cap: Capture, e: Enforcement, w': World, time: nat, id: ClientId)
    requires Next(w, SnapshotRecorded(now, cap, e, true), w') && id in w.table && Stopped(w.table[id], time)
    ensures id in w'.table && Stopped(w'.table[id], time) && w'.table[id].client.expiresAt == w.table[id].client.expiresAt
  {
    SnapshotUses(w, now, cap, e, true, w', id);
    SnapshotKeepsTerms(w, now, cap, e, true, w', id);
    SnapshotSetsStatus(w, now, cap, e, w', id);
    NotNamedGainsNothing(w.table[id], cap);
  }

  /** Only a snapshot that names a client adds to what it has used. */
  lemma NotNamedGainsNothing(a: Account, cap: Capture)
    ensures OverQuota(a.client, UsedAfter(a, cap)) && !OverQuotaIn(a, cap) ==> OverQuota(a.client, Used(a))
  {
  }

  lemma ExpiryStops(w: World, ids: set<ClientId>, time: nat)
    requires StoppedBy(w, time)
    requires forall id :: id in ids && id in w.table ==> PastTerm(w.table[id].client, time)
    ensures StoppedBy(w.(table := ExpiredTable(w.table, ids)), time)
  {
    var after := ExpiredTable(w.table, ids);
    forall id | id in after ensures Stopped(after[id], time) && after[id].client.expiresAt == w.table[id].client.expiresAt {
      assert Stopped(w.table[id], time);
    }
  }

  lemma ExpiryWriteStops(w: World, read: Batch, ok: bool, time: nat)
    requires StoppedBy(w, time) && read in w.expiring
    ensures StoppedBy(AfterExpiry(w, read, ok), time)
  {
    ExpiryStops(w, read.Keys, time);
    var expired := w.(table := ExpiredTable(w.table, read.Keys));
    assert StoppedBy(expired.(expiring := w.expiring - multiset{read}), time);
  }

  lemma ExpiryReadStops(w: World, now: nat, time: nat)
    requires StoppedBy(w, time) && now <= time
    ensures StoppedBy(w.(expiring := w.expiring + multiset{ExpiredRows(w.table, now)}), time)
  {
  }

  lemma DeleteStops(w: World, id: ClientId, time: nat, waiting: multiset<Client>)
    requires StoppedBy(w, time)
    ensures StoppedBy(w.(table := w.table - {id}, waiting := waiting), time)
  {
  }

  lemma WriteStops(w: World, a: Account, time: nat)
    requires StoppedBy(w, time) && Stopped(a, time)
    requires forall read: Batch :: read in w.expiring && a.client.id in read ==> PastTerm(a.client, time)
    ensures StoppedBy(Written(w, a), time)
  {
    var w' := Written(w, a);
    forall id | id in w'.table ensures Stopped(w'.table[id], time) {
      assert id != a.client.id ==> Stopped(w.table[id], time);
    }
  }

  lemma ResetStops(w: World, x: ClientId, status: Status, time: nat)
    requires StoppedBy(w, time) && Valid(w.table) && x in w.table
    ensures StoppedBy(Written(w, Account(w.table[x].client.(status := status), map[])), time)
  {
    EmptySum();
    WriteStops(w, Account(w.table[x].client.(status := status), map[]), time);
  }

  lemma CreateStops(w: World, c: Client, time: nat)
    requires StoppedBy(w, time)
    requires forall read: Batch :: read in w.expiring ==> c.id !in read
    ensures StoppedBy(Written(w, Account(c, map[])), time)
  {
    EmptySum();
    WriteStops(w, Account(c, map[]), time);
  }

  lemma ExpiryInPlaceStops(w: World, now: nat, time: nat)
    requires StoppedBy(w, time) && now <= time
    ensures StoppedBy(w.(table := ExpiredTable(w.table, ExpiredRows(w.table, now).Keys)), time)
  {
    ExpiryStops(w, ExpiredRows(w.table, now).Keys, time);
  }

  lemma UntouchedStops(w: World, w': World, time: nat)
    requires StoppedBy(w, time) && w'.table == w.table && w'.expiring == w.expiring
    ensures StoppedBy(w', time)
  {
  }

  lemma StepStops(w: World, step: Step, w': World, time: nat)
    requires Next(w, step, w') && StoppedBy(w, time) && OrderlyBy(w, step, time)
    ensures StoppedBy(w', time)
  {
    match step
    case SnapshotRecorded(now, cap, e, complete) => SnapshotStops(w, now, cap, e, w', time);
    case ExpireReads(now) => ExpiryReadStops(w, now, time);
    case ExpireWrites(read, ok) => ExpiryWriteStops(w, read, ok, time);
    case ExpireInPlace(now) => ExpiryInPlaceStops(w, now, time);
    case Create(c, rows) => CreateStops(w, c, time);
    case Delete(id) => DeleteStops(w, id, time, w'.waiting);
    case ResetTraffic(x, status) => ResetStops(w, x, status, time);
    case _ => UntouchedStops(w, w', time);
  }

  /** What survives of the quota over every orderly run, expiries that write over a block included: whoever is over
      its quota is blocked, or EXPIRED past its term. */
  lemma {:induction false} OverQuotaStops(states: seq<World>, steps: seq<Step>, time: nat)
    requires Run(states, steps) && StoppedBy(states[0], time)
    requires forall i :: 0 <= i < |steps| ==> OrderlyBy(states[i], steps[i], time)
    ensures StoppedBy(states[|steps|], time)
  {
    if steps != [] {
      var n := |steps| - 1;
      OverQuotaStops(states[..n + 1], steps[..n], time);
      StepStops(states[n], steps[n], states[n + 1], time);
    }
  }

  /** So two readings of a row agree: the status that a sync or a rendering would act on, without any usage, is ACTIVE
      exactly when the status that the panel and the subscription endpoint show, with it, is. Whom the runtimes
      hold at that time is another matter. */
  lemma ViewsAgree(states: seq<World>, steps: seq<Step>, id: ClientId, time: nat, now: nat)
    requires Run(states, steps) && StoppedBy(states[0], time) && time <= now
    requires forall i :: 0 <= i < |steps| ==> OrderlyBy(states[i], steps[i], time)
    requires id in states[|steps|].table
    ensures
      var a := states[|steps|].table[id];
      RuntimeActive(a.client, now) <==> ShownActive(a.client, Used(a), now)
  {
    OverQuotaStops(states, steps, time);
    var a := states[|steps|].table[id];
    assert Stopped(a, time);
    ViewsAgreeExactly(a.client, Used(a), now);
  }
}
