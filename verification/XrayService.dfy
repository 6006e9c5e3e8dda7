/**
 The service that charges Xray's counters to the clients, blocks the ones over a limit
 and keeps Xray's user map in step with the client table. Every call to the database or
 to Xray may fail; what remains then is always one of the steps of `ControlPlane`. While a
 sync waits for an answer, `Others` lets every other step come in between.
 */
module XrayService {

  import opened Basics
  import opened StatNames
  import opened TrafficDeltas
  import opened Clients
  import opened Usage
  import opened ControlPlane
  import opened JsStrings
  import opened Stores
  import Ledger

  /** Presence names and bare tags alike become tags; empty ones are dropped. */
  method NormalizeOnlineTags(values: seq<string>) returns (tags: set<string>)
    ensures NamesExactly(tags, values)
  {
    tags := {};
    for i := 0 to |values|
      invariant forall tag :: tag in tags <==> tag != "" && exists j :: 0 <= j < i && NormalizedTag(values[j]) == tag
    {
      var tag := NormalizedTag(values[i]);
      if |tag| > 0 {
        tags := tags + {tag};
      }
    }
  }

  ghost predicate NamesExactly(tags: set<string>, values: seq<string>) {
    forall tag :: tag in tags <==> tag != "" && exists i :: 0 <= i < |values| && NormalizedTag(values[i]) == tag
  }

  function NonBlank(ips: set<string>): set<string> {
    set ip | ip in ips && Trim(ip) != ""
  }

  /** The counts are the numbers of addresses that Xray lists for the tags. */
  ghost predicate CountsIps(counts: map<string, nat>, onlineIps: map<string, set<string>>) {
    forall tag :: tag in counts ==> counts[tag] == |NonBlank(Lookup(onlineIps, OnlineName(tag)).GetOr({}))|
  }

  function NormalizedTag(value: string): string {
    var trimmed := Trim(value);
    if ParseOnlineName(trimmed).Some? then ParseOnlineName(trimmed).value else trimmed
  }

  /** A presence statistic and the bare tag name the same client. */
  lemma PresenceNamesTheTag(tag: string)
    requires Trimmed(tag) && Parsable(tag) && ParseOnlineName(tag).None?
    ensures NormalizedTag(OnlineName(tag)) == tag == NormalizedTag(tag)
  {
    OnlineRoundTrip(tag);
    var name := OnlineName(tag);
    assert name[0] == 'u' && name[|name| - 1] == 'e';
    TrimKeeps(name);
    TrimKeeps(tag);
  }

  datatype SnapshotResult = SnapshotResult(capturedAt: nat, deltas: map<string, Delta>, onlineUsers: set<string>)

  /** Rows read before the transaction still tell what access enforcement looks at. */
  ghost predicate IsCopy(named: Table, recorded: Table, cap: Capture) {
    && named.Keys == Tagged(recorded, NamedTags(cap))
    && forall id :: id in named ==>
         var c, r := named[id].client, recorded[id].client;
         c.emailTag == r.emailTag && c.deviceLimit == r.deviceLimit && c.ipLimit == r.ipLimit && c.status == r.status
  }

  predicate IsHit(c: Client, cap: Capture) {
    BreachesOf(c, cap) != []
  }

  /** Table and user map after an enforcement that came as far as `e`. */
  ghost predicate Effect(table: Table, users: map<string, string>, e: Enforcement, table': Table, users': map<string, string>) {
    table' == WithBlocked(table, e.blocked) && users' == users - e.cut
  }

  lemma ExtendEffect(table: Table, users: map<string, string>, e: Enforcement, entry: AutoBlock, tag: string,
                     blocked: bool, logged: bool, cut: bool)
    requires entry.entityId in table
    ensures
      var table', users' := WithBlocked(table, e.blocked), users - e.cut;
      Effect(table, users, Extend(e, entry, tag, blocked, logged, cut),
             if blocked then table'[entry.entityId := WithStatus(table'[entry.entityId], BLOCKED)] else table',
             if cut then users' - {tag} else users')
  {
    ExtendUsers(users, e.cut, tag);
  }

  /** What one turn adds to the sets that the access loop has worked off. */
  lemma TurnTaken(e: Enforcement, recorded: Table, hits: set<ClientId>, moves: set<ClientId>, left: set<ClientId>, id: ClientId,
                  entry: AutoBlock, blocked: bool, logged: bool, cut: bool)
    requires id in left && id in recorded && entry.entityId == id && hits <= recorded.Keys
    requires e.blocked == moves - left == Logged(e) && LoggedOnce(e) && e.cut == TagsOf(recorded, hits - left)
    requires logged ==> blocked
    requires blocked ==> id in moves
    requires cut ==> id in hits
    ensures
      var e' := Extend(e, entry, recorded[id].client.emailTag, blocked, logged, cut);
      && e'.blocked <= moves && e'.cut <= TagsOf(recorded, hits) && Logged(e') <= e'.blocked && LoggedOnce(e')
      && (logged == blocked == (id in moves) ==> e'.blocked == moves - (left - {id}) == Logged(e'))
      && (cut == (id in hits) ==> e'.cut == TagsOf(recorded, hits - (left - {id})))
  {
    ExtendTags(recorded, hits - left, id);
    assert hits - (left - {id}) == if id in hits then (hits - left) + {id} else hits - left;
    assert moves - (left - {id}) == if id in moves then (moves - left) + {id} else moves - left;
    if logged {
      ExtendLog(e, entry);
    }
  }

  lemma NobodyNamed(table: Table, users: map<string, string>, cap: Capture)
    requires NamedTags(cap) == {}
    ensures Finished(Enforcement({}, {}, []), table, cap) && Allowed(Enforcement({}, {}, []), table, cap)
    ensures Effect(table, users, Enforcement({}, {}, []), table, users)
  {
    assert QuotaHits(table, cap) == {} && AccessMoves(table, cap) == {} && AccessHits(table, cap) == {};
  }

  /** The access loop has worked off everybody but `left`. */
  ghost predicate AccessDone(e: Enforcement, recorded: Table, hits: set<ClientId>, moves: set<ClientId>, left: set<ClientId>) {
    e.blocked == moves - left == Logged(e) && LoggedOnce(e) && e.cut == TagsOf(recorded, hits - left)
  }

  lemma AccessTurn(named: Table, recorded: Table, cap: Capture, e: Enforcement, left: set<ClientId>, id: ClientId,
                   entry: AutoBlock, complete: bool, blocked: bool, logged: bool, cut: bool)
    requires IsCopy(named, recorded, cap) && id in named && id in left && entry.entityId == id
    requires AccessDone(e, recorded, AccessHits(recorded, cap), AccessMoves(recorded, cap), left)
    requires
      var hit := IsHit(named[id].client, cap);
      var movable := hit && named[id].client.status == ACTIVE
        && WithBlocked(WithBlocked(recorded, QuotaHits(recorded, cap)), e.blocked)[id].client.status == ACTIVE;
      && (logged ==> blocked) && (blocked ==> movable) && (cut ==> hit)
      && (complete && hit ==> cut && logged == blocked) && (complete && movable ==> blocked)
    ensures
      var hits, moves := AccessHits(recorded, cap), AccessMoves(recorded, cap);
      var e' := Extend(e, entry, recorded[id].client.emailTag, blocked, logged, cut);
      && e'.blocked <= moves && e'.cut <= TagsOf(recorded, hits) && Logged(e') <= e'.blocked && LoggedOnce(e')
      && (complete ==> AccessDone(e', recorded, hits, moves, left - {id}))
  {
    TurnTaken(e, recorded, AccessHits(recorded, cap), AccessMoves(recorded, cap), left, id, entry, blocked, logged, cut);
  }

  lemma EntryIsTruthful(e: Enforcement, named: Table, recorded: Table, cap: Capture, id: ClientId, entry: AutoBlock, tag: string,
                        blocked: bool, logged: bool, cut: bool)
    requires IsCopy(named, recorded, cap) && id in named && Truthful(e, recorded, cap) && entry == EntryFor(id, named[id].client, cap)
    ensures Truthful(Extend(e, entry, tag, blocked, logged, cut), recorded, cap)
  {
    assert id in recorded && entry == EntryFor(id, recorded[id].client, cap);
  }

  lemma QuotaStageAlone(table: Table, cap: Capture, quota: Enforcement)
    requires quota.blocked <= QuotaHits(table, cap) && quota.cut <= TagsOf(table, quota.blocked) && quota.logged == []
    ensures Allowed(quota, table, cap)
  {
    assert QuotaHits(table, cap) * quota.blocked == quota.blocked;
    BlockTwice(table, quota.blocked, AccessHits(table, cap));
  }

  /** What both stages came to. */
  function Both(quota: Enforcement, access: Enforcement): Enforcement {
    Enforcement(quota.blocked + access.blocked, quota.cut + access.cut, access.logged)
  }

  ghost predicate QuotaStage(quota: Enforcement, table: Table, cap: Capture) {
    quota.blocked == QuotaHits(table, cap) && quota.cut == TagsOf(table, quota.blocked)
  }

  ghost predicate AccessStage(access: Enforcement, table: Table, cap: Capture, complete: bool) {
    && access.blocked <= AccessMoves(table, cap) && access.cut <= TagsOf(table, AccessHits(table, cap))
    && Logged(access) <= access.blocked && LoggedOnce(access)
    && (complete ==> access.blocked == AccessMoves(table, cap) == Logged(access) && access.cut == TagsOf(table, AccessHits(table, cap)))
  }

  lemma BothLogged(quota: Enforcement, access: Enforcement)
    ensures Logged(Both(quota, access)) == Logged(access)
    ensures LoggedOnce(access) ==> LoggedOnce(Both(quota, access))
  {
  }

  lemma BothAllowed(table: Table, cap: Capture, quota: Enforcement, access: Enforcement)
    requires QuotaStage(quota, table, cap) && AccessStage(access, table, cap, false)
    ensures Allowed(Both(quota, access), table, cap)
  {
    var hits := QuotaHits(table, cap);
    assert hits * (hits + access.blocked) == hits;
    BothLogged(quota, access);
    BlockTwice(table, hits, AccessHits(table, cap));
  }

  lemma BothFinished(table: Table, cap: Capture, quota: Enforcement, access: Enforcement)
    requires QuotaStage(quota, table, cap) && AccessStage(access, table, cap, true)
    ensures Finished(Both(quota, access), table, cap)
  {
    BothLogged(quota, access);
    BlockTwice(table, quota.blocked, AccessHits(table, cap));
  }

  lemma BothEffect(table: Table, users: map<string, string>, quota: Enforcement, access: Enforcement)
    ensures Effect(table, users, Both(quota, access), WithBlocked(WithBlocked(table, quota.blocked), access.blocked),
                   users - quota.cut - access.cut)
  {
    BlockTwice(table, quota.blocked, access.blocked);
    assert users - quota.cut - access.cut == users - (quota.cut + access.cut);
  }

  /** A client's rows after the first two passes of the transaction: cleared, and dismissed unless named. */
  ghost function Dismissal(a: Account, named: bool, day: nat): Account {
    var cleared := ClearToday(a.rows, day);
    Account(a.client, if named then cleared else Dismissed(cleared, day))
  }

  lemma UnnamedRecorded(a: Account, cap: Capture, now: nat)
    ensures a.client.emailTag !in NamedTags(cap) ==> RecordedAccount(a, cap, now) == Dismissal(a, false, UtcDay(now))
  {
  }

  class Service {
    const db: Database
    const xray: XrayRuntime
    var runtimeProvisioned: bool
    var lastConfigSyncAt: Option<nat>
    var lastStatsSnapshotAt: Option<nat>
    var lastKnownXrayUptimeSeconds: Option<nat>
    /** Every uptime that a health tick was told. */
    ghost var reports: seq<nat>
    /** The full sync under way, with the rows that it still has to do. */
    var inflightSync: Option<Table>
    /** The records of the client syncs that were started and have not ended. */
    ghost var waiting: multiset<Client>
    /** What the expiries that were started and have not written yet have read. */
    ghost var expiring: multiset<Batch>

    constructor (db: Database, xray: XrayRuntime)
      ensures this.db == db && this.xray == xray && !runtimeProvisioned && Remembers()
    {
      this.db, this.xray := db, xray;
      runtimeProvisioned := false;
      lastConfigSyncAt, lastStatsSnapshotAt, lastKnownXrayUptimeSeconds := None, None, None;
      inflightSync, waiting, expiring, reports := None, multiset{}, multiset{}, [];
    }

    ghost function State(): World
      reads this, db, xray
    {
      World(db.table, db.audit, xray.users, xray.counters, runtimeProvisioned, inflightSync, waiting, expiring)
    }

    /** The service knows the uptime that the latest tick was told. */
    ghost predicate Remembers()
      reads this
    {
      lastKnownXrayUptimeSeconds == LastReport(reports)
    }

    /** How many calls have failed so far. A caller that does not succeed has seen one more fail. */
    ghost function Failures(): nat
      reads db, xray
    {
      db.failures + xray.failures
    }

    // ----- the usage snapshot -----

    method PerformCaptureUsageSnapshot(now: nat) returns (result: Option<SnapshotResult>, ghost step: Step)
      requires Valid(db.table)
      modifies this`runtimeProvisioned, this`lastStatsSnapshotAt, db, xray`users, xray`counters, xray`failures
      ensures Next(old(State()), step, State())
      ensures step.SnapshotRecorded? ==> NamesExactly(step.cap.online, xray.onlineNames)
      ensures step.SnapshotRecorded? && Failures() == old(Failures()) ==> CountsIps(step.cap.ipCounts, xray.onlineIps)
      ensures Failures() >= old(Failures()) + if result.Some? then 0 else 1
      ensures lastStatsSnapshotAt == if result.Some? then Some(now) else old(lastStatsSnapshotAt)
      ensures result.Some? ==> step.SnapshotRecorded? && step.complete && step.now == now && runtimeProvisioned
      ensures result.Some? ==> result.value == SnapshotResult(now, step.cap.deltas, step.cap.online)
      ensures result.None? ==> !runtimeProvisioned && (step.SnapshotLost? || (step.SnapshotRecorded? && !step.complete))
    {
      ghost var before := State();
      var read := ReadRuntime();
      if read.None? {
        step := SnapshotLost(xray.counters == Zeroed(before.counters));
        return None, step;
      }
      var named := CaptureUsage(read.value, now);
      if named.None? {
        step := SnapshotLost(true);
        return None, step;
      }
      result, step := EnforceAndFinish(named.value, read.value, now, before);
    }

    /** After the transaction: enforcement, and what a complete snapshot leaves behind. */
    method EnforceAndFinish(named: Table, cap: Capture, now: nat, ghost before: World)
        returns (result: Option<SnapshotResult>, ghost step: Step)
      requires Valid(before.table) && DeltasOf(before.counters, cap.deltas) && IsCopy(named, db.table, cap)
      requires State() == before.(table := Recorded(before.table, cap, now), counters := Zeroed(before.counters),
                                  provisioned := runtimeProvisioned)
      modifies this`runtimeProvisioned, this`lastStatsSnapshotAt, db, xray`users, xray`failures
      ensures Next(before, step, State()) && step.SnapshotRecorded? && step.now == now && step.cap == cap
      ensures Failures() >= old(Failures()) + if result.Some? then 0 else 1
      ensures lastStatsSnapshotAt == if result.Some? then Some(now) else old(lastStatsSnapshotAt)
      ensures runtimeProvisioned == step.complete == result.Some?
      ensures result.Some? ==> result.value == SnapshotResult(now, cap.deltas, cap.online)
    {
      ghost var e;
      var complete;
      complete, e := Enforce(named, cap);
      runtimeProvisioned := complete;
      step := SnapshotRecorded(now, cap, e, complete);
      if complete {
        lastStatsSnapshotAt := Some(now);
        result := Some(SnapshotResult(now, cap.deltas, cap.online));
      } else {
        result := None;
      }
    }

    /** Without `force`, at most one complete snapshot per interval. */
    method CaptureUsageSnapshot(force: bool, usageSnapshotIntervalMs: nat, now: nat)
        returns (result: Option<SnapshotResult>, ghost step: Option<Step>)
      requires Valid(db.table)
      modifies this`runtimeProvisioned, this`lastStatsSnapshotAt, db, xray
      ensures Failures() >= old(Failures()) + if step.None? || result.Some? then 0 else 1
      ensures lastStatsSnapshotAt == if result.Some? then Some(now) else old(lastStatsSnapshotAt)
      ensures step.None? <==> !force && old(lastStatsSnapshotAt).Some? && now - old(lastStatsSnapshotAt).value < usageSnapshotIntervalMs
      ensures step.Some? ==> step.value.SnapshotLost? || step.value.SnapshotRecorded?
      ensures result.Some? <==> step.Some? && WentWell(step.value)
      ensures if step.Some? then Next(old(State()), step.value, State()) else State() == old(State()) && result.None?
    {
      if !force && lastStatsSnapshotAt.Some? && now - lastStatsSnapshotAt.value < usageSnapshotIntervalMs {
        return None, None;
      }
      ghost var s;
      result, s := PerformCaptureUsageSnapshot(now);
      step := Some(s);
    }

    /** The two queries. The first one resets the counters, so a failure from here on loses what they held. */
    method ReadRuntime() returns (read: Option<Capture>)
      modifies this`runtimeProvisioned, xray`counters, xray`failures
      ensures Failures() >= old(Failures()) + if read.Some? then 0 else 1
      ensures read.Some? ==> NamesExactly(read.value.online, xray.onlineNames) && read.value.ipCounts.Keys == read.value.online
      ensures read.Some? && Failures() == old(Failures()) ==> CountsIps(read.value.ipCounts, xray.onlineIps)
      ensures read.Some? ==> xray.counters == Zeroed(old(xray.counters)) && DeltasOf(old(xray.counters), read.value.deltas)
      ensures read.None? ==> !runtimeProvisioned && (xray.counters == old(xray.counters) || xray.counters == Zeroed(old(xray.counters)))
    {
      var stats := xray.QueryStatsReset();
      var onlineNames := xray.GetAllOnlineUsers();
      if stats.None? || onlineNames.None? {
        runtimeProvisioned := false;
        return None;
      }
      var online := NormalizeOnlineTags(onlineNames.value);
      var ipCounts := LoadOnlineIpCounts(online);
      var deltas := ReadDeltas(stats.value, old(xray.counters));
      return Some(Capture(deltas, online, ipCounts));
    }

    method CaptureUsage(cap: Capture, now: nat) returns (named: Option<Table>)
      modifies this`runtimeProvisioned, db`table, db`failures
      ensures Failures() >= old(Failures()) + if named.Some? then 0 else 1
      ensures db.table == if named.Some? then Recorded(old(db.table), cap, now) else old(db.table)
      ensures named.Some? ==> IsCopy(named.value, db.table, cap)
      ensures named.None? ==> !runtimeProvisioned
    {
      named := db.FindByTags(NamedTags(cap));
      if named.Some? {
        var ok := RecordUsage(named.value, cap, now);
        if !ok {
          named := None;
        }
      }
      if named.None? {
        runtimeProvisioned := false;
      }
    }

    // ----- enforcement -----

    method Enforce(named: Table, cap: Capture) returns (complete: bool, ghost e: Enforcement)
      requires IsCopy(named, db.table, cap)
      modifies db, xray`users, xray`failures
      ensures Failures() >= old(Failures()) + if complete then 0 else 1
      ensures Allowed(e, old(db.table), cap) && (complete ==> Finished(e, old(db.table), cap))
      ensures Truthful(e, old(db.table), cap)
      ensures Effect(old(db.table), old(xray.users), e, db.table, xray.users)
      ensures db.audit == old(db.audit) + e.logged
    {
      ghost var table, users := db.table, xray.users;
      if NamedTags(cap) == {} {
        NobodyNamed(table, users, cap);
        assert db.audit == old(db.audit) + [];
        return true, Enforcement({}, {}, []);
      }
      complete, e := EnforceTrafficQuotas(cap);
      if complete {
        ghost var quota := e;
        ghost var access;
        complete, access := EnforceClientAccessLimits(named, cap, table);
        e := Both(quota, access);
        BothAllowed(table, cap, quota, access);
        BothEffect(table, users, quota, access);
        if complete {
          BothFinished(table, cap, quota, access);
        }
      } else {
        QuotaStageAlone(table, cap, e);
        assert db.audit == old(db.audit) + [];
      }
    }

    method EnforceTrafficQuotas(cap: Capture) returns (complete: bool, ghost e: Enforcement)
      modifies db`table, db`failures, xray`users, xray`failures
      ensures Failures() >= old(Failures()) + if complete then 0 else 1
      ensures e.logged == []
      ensures e.blocked <= QuotaHits(old(db.table), cap) && e.cut <= TagsOf(old(db.table), e.blocked)
      ensures complete ==> e.blocked == QuotaHits(old(db.table), cap) && e.cut == TagsOf(old(db.table), e.blocked)
      ensures Effect(old(db.table), old(xray.users), e, db.table, xray.users)
    {
      ghost var table, users := db.table, xray.users;
      ghost var hits := QuotaHits(table, cap);
      complete, e := false, Enforcement({}, {}, []);
      var rows := db.FindByTags(NamedTags(cap));
      if rows.None? {
        return;
      }
      var left := rows.value.Keys;
      while left != {}
        invariant left <= rows.value.Keys
        invariant e.logged == [] && e.blocked == hits - left && e.cut == TagsOf(table, e.blocked)
        invariant Effect(table, users, e, db.table, xray.users) && Failures() >= old(Failures())
      {
        var id :| id in left;
        var over := IsOverQuota(rows.value[id]);
        assert over <==> id in hits;
        assert hits - (left - {id}) == if over then e.blocked + {id} else e.blocked;
        left := left - {id};
        if over {
          var tag := rows.value[id].client.emailTag;
          ghost var blocked, cut;
          complete, blocked, cut := BlockAndCut(id, tag);
          ExtendTags(table, e.blocked, id);
          ExtendEffect(table, users, e, AutoBlock(id, 0, []), tag, blocked, false, cut);
          e := Extend(e, AutoBlock(id, 0, []), tag, blocked, false, cut);
          if !complete {
            return;
          }
        }
      }
      complete := true;
    }

    method IsOverQuota(a: Account) returns (over: bool)
      ensures over == OverQuota(a.client, Sum(a.rows).total)
    {
      if a.client.isTrafficUnlimited || a.client.trafficLimitBytes.None? {
        return false;
      }
      var totalBytes := TotalBytes(a.rows);
      over := totalBytes >= a.client.trafficLimitBytes.value;
    }

    /** Two calls; the row is blocked before the user is cut off. */
    method BlockAndCut(id: ClientId, tag: string) returns (complete: bool, ghost blocked: bool, ghost cut: bool)
      requires id in db.table
      modifies db`table, db`failures, xray`users, xray`failures
      ensures Failures() >= old(Failures()) + if complete then 0 else 1
      ensures complete ==> blocked && cut
      ensures cut ==> blocked
      ensures db.table == if blocked then old(db.table)[id := WithStatus(old(db.table)[id], BLOCKED)] else old(db.table)
      ensures xray.users == if cut then old(xray.users) - {tag} else old(xray.users)
    {
      complete, blocked, cut := false, false, false;
      var updated := db.SetStatus(id, BLOCKED);
      if updated {
        blocked := true;
        complete, cut := Cut(tag);
      }
    }

    method Cut(tag: string) returns (complete: bool, ghost cut: bool)
      modifies xray`users, xray`failures
      ensures Failures() >= old(Failures()) + if complete then 0 else 1
      ensures complete ==> cut
      ensures xray.users == if cut then old(xray.users) - {tag} else old(xray.users)
    {
      var r := xray.RemoveUser(tag);
      complete := r != Failed;
      cut := complete || xray.users != old(xray.users);
      assert tag !in old(xray.users) ==> old(xray.users) - {tag} == old(xray.users);
    }

    /** Access limits are judged on the rows as they were read before the transaction. */
    method EnforceClientAccessLimits(named: Table, cap: Capture, ghost recorded: Table) returns (complete: bool, ghost e: Enforcement)
      requires IsCopy(named, recorded, cap)
      requires db.table == WithBlocked(recorded, QuotaHits(recorded, cap))
      modifies db, xray`users, xray`failures
      ensures Failures() >= old(Failures()) + if complete then 0 else 1
      ensures e.blocked <= AccessMoves(recorded, cap) && e.cut <= TagsOf(recorded, AccessHits(recorded, cap))
      ensures Logged(e) <= e.blocked && LoggedOnce(e) && Truthful(e, recorded, cap)
      ensures complete ==> e.blocked == AccessMoves(recorded, cap) == Logged(e) && e.cut == TagsOf(recorded, AccessHits(recorded, cap))
      ensures Effect(old(db.table), old(xray.users), e, db.table, xray.users)
      ensures db.audit == old(db.audit) + e.logged
    {
      ghost var start := State();
      ghost var hits, moves := AccessHits(recorded, cap), AccessMoves(recorded, cap);
      complete, e := true, Enforcement({}, {}, []);
      var left := named.Keys;
      while left != {}
        invariant left <= named.Keys && complete && Failures() >= old(Failures())
        invariant AccessDone(e, recorded, hits, moves, left) && Truthful(e, recorded, cap)
        invariant Effect(start.table, start.users, e, db.table, xray.users) && db.audit == start.audit + e.logged
      {
        var id :| id in left;
        complete, e := TakeTurn(named, cap, id, recorded, left, e, start);
        if !complete {
          return;
        }
        left := left - {id};
      }
    }

    /** One turn of the access loop, from a state in which everybody but `left` was worked off since `start`. */
    method TakeTurn(named: Table, cap: Capture, id: ClientId, ghost recorded: Table, ghost left: set<ClientId>, ghost before: Enforcement,
                    ghost start: World)
        returns (complete: bool, ghost e: Enforcement)
      requires IsCopy(named, recorded, cap) && id in named && id in left
      requires start.table == WithBlocked(recorded, QuotaHits(recorded, cap))
      requires AccessDone(before, recorded, AccessHits(recorded, cap), AccessMoves(recorded, cap), left)
      requires Truthful(before, recorded, cap)
      requires Effect(start.table, start.users, before, db.table, xray.users) && db.audit == start.audit + before.logged
      modifies db, xray`users, xray`failures
      ensures Failures() >= old(Failures()) + if complete then 0 else 1
      ensures Effect(start.table, start.users, e, db.table, xray.users) && db.audit == start.audit + e.logged
      ensures e.blocked <= AccessMoves(recorded, cap) && e.cut <= TagsOf(recorded, AccessHits(recorded, cap))
      ensures Logged(e) <= e.blocked && LoggedOnce(e) && Truthful(e, recorded, cap)
      ensures complete ==> AccessDone(e, recorded, AccessHits(recorded, cap), AccessMoves(recorded, cap), left - {id})
    {
      var tag := named[id].client.emailTag;
      ghost var entry, blocked, logged, cut;
      complete, entry, blocked, logged, cut := JudgeClient(id, named[id].client, cap);
      AccessTurn(named, recorded, cap, before, left, id, entry, complete, blocked, logged, cut);
      ExtendEffect(start.table, start.users, before, entry, tag, blocked, logged, cut);
      e := Extend(before, entry, tag, blocked, logged, cut);
      EntryIsTruthful(before, named, recorded, cap, id, entry, tag, blocked, logged, cut);
    }

    /** One client's turn: block an active row and log it, then cut the user, whatever its status. */
    method JudgeClient(id: ClientId, client: Client, cap: Capture)
        returns (complete: bool, ghost entry: AutoBlock, ghost blocked: bool, ghost logged: bool, ghost cut: bool)
      requires id in db.table
      modifies db, xray`users, xray`failures
      ensures Failures() >= old(Failures()) + if complete then 0 else 1
      ensures entry == EntryFor(id, client, cap)
      ensures logged ==> blocked
      ensures blocked ==> IsHit(client, cap) && client.status == ACTIVE == old(db.table)[id].client.status
      ensures cut ==> IsHit(client, cap)
      ensures complete && IsHit(client, cap) ==> cut && logged == blocked
      ensures complete && IsHit(client, cap) && client.status == ACTIVE == old(db.table)[id].client.status ==> blocked
      ensures db.table == if blocked then old(db.table)[id := WithStatus(old(db.table)[id], BLOCKED)] else old(db.table)
      ensures db.audit == if logged then old(db.audit) + [entry] else old(db.audit)
      ensures xray.users == if cut then old(xray.users) - {client.emailTag} else old(xray.users)
    {
      var actualOnlineIps := OnlineIps(cap, client.emailTag);
      var breaches := EvaluateBreaches(actualOnlineIps, client.deviceLimit, client.ipLimit);
      complete, entry, blocked, logged, cut := true, AutoBlock(id, actualOnlineIps, breaches), false, false, false;
      if breaches == [] {
        return;
      }
      if client.status == ACTIVE {
        complete, blocked, logged := BlockAndLog(id, AutoBlock(id, actualOnlineIps, breaches));
        if !complete {
          return;
        }
      }
      complete, cut := Cut(client.emailTag);
    }

    method BlockAndLog(id: ClientId, entry: AutoBlock) returns (complete: bool, ghost blocked: bool, ghost logged: bool)
      requires id in db.table
      modifies db
      ensures Failures() >= old(Failures()) + if complete then 0 else 1
      ensures blocked ==> old(db.table)[id].client.status == ACTIVE
      ensures logged ==> blocked
      ensures complete ==> logged == blocked == (old(db.table)[id].client.status == ACTIVE)
      ensures db.table == if blocked then old(db.table)[id := WithStatus(old(db.table)[id], BLOCKED)] else old(db.table)
      ensures db.audit == if logged then old(db.audit) + [entry] else old(db.audit)
    {
      complete, blocked, logged := false, false, false;
      var count := db.BlockIfActive(id);
      if count.Some? {
        complete := true;
        if count.value > 0 {
          blocked := true;
          complete := db.WriteAudit(entry);
          logged := complete;
        }
      }
    }

    /** A user whose list cannot be read counts by the older query, or as 0. */
    method LoadOnlineIpCounts(tags: set<string>) returns (counts: map<string, nat>)
      modifies xray`failures
      ensures counts.Keys == tags && Failures() >= old(Failures())
      ensures Failures() == old(Failures()) ==> CountsIps(counts, xray.onlineIps)
    {
      counts := map[];
      var left := tags;
      while left != {}
        invariant left <= tags && counts.Keys == tags - left && Failures() >= old(Failures())
        invariant Failures() == old(Failures()) ==> CountsIps(counts, xray.onlineIps)
      {
        var tag :| tag in left;
        var count := CountOnlineIps(OnlineName(tag));
        counts := counts[tag := count];
        left := left - {tag};
      }
    }

    method CountOnlineIps(name: string) returns (count: nat)
      modifies xray`failures
      ensures Failures() >= old(Failures())
      ensures Failures() == old(Failures()) ==> count == |NonBlank(Lookup(xray.onlineIps, name).GetOr({}))|
    {
      var ips := xray.GetStatsOnlineIpList(name);
      if ips.Some? {
        return |NonBlank(ips.value)|;
      }
      var stat := xray.GetStatsOnline(name);
      count := if stat.Some? then Max(0, stat.value.GetOr(1)) else 0;
    }

    method RecordUsage(named: Table, cap: Capture, now: nat) returns (ok: bool)
      requires named == Select(db.table, Tagged(db.table, NamedTags(cap)))
      modifies db`table, db`failures
      ensures Failures() >= old(Failures()) + if ok then 0 else 1
      ensures db.table == if ok then Recorded(old(db.table), cap, now) else old(db.table)
    {
      var tx := RecordTransaction(db.table, named.Keys, cap, now);
      ok := db.Commit(tx);
    }

    method RecordTransaction(table: Table, named: set<ClientId>, cap: Capture, now: nat) returns (tx: Table)
      requires named == Tagged(table, NamedTags(cap))
      ensures tx == Recorded(table, cap, now)
    {
      var day := UtcDay(now);
      tx := map id | id in table :: table[id].(rows := ClearToday(table[id].rows, day));
      tx := DismissUnnamed(tx, named, day);
      tx := ChargeNamed(tx, table, named, cap, now);
    }

    method ChargeNamed(dismissed: Table, table: Table, named: set<ClientId>, cap: Capture, now: nat) returns (tx: Table)
      requires named == Tagged(table, NamedTags(cap)) && dismissed.Keys == table.Keys
      requires forall id :: id in table ==> dismissed[id] == Dismissal(table[id], id in named, UtcDay(now))
      ensures tx == Recorded(table, cap, now)
    {
      tx := dismissed;
      var left := named;
      while left != {}
        invariant left <= named && tx.Keys == table.Keys
        invariant forall id :: id in tx ==>
          tx[id] == if id in named - left then RecordedAccount(table[id], cap, now) else dismissed[id]
      {
        var id :| id in left;
        left := left - {id};
        var charged := ChargeClient(tx[id], cap, now, table[id].rows);
        tx := tx[id := charged];
      }
      forall id | id in table ensures tx[id] == RecordedAccount(table[id], cap, now) {
        UnnamedRecorded(table[id], cap, now);
      }
    }

    method ChargeClient(cleared: Account, cap: Capture, now: nat, ghost before: Rows) returns (a: Account)
      requires cleared.client.emailTag in NamedTags(cap) && cleared.rows == ClearToday(before, UtcDay(now))
      ensures a == RecordedAccount(Account(cleared.client, before), cap, now)
    {
      var client := cleared.client;
      var delta := if client.emailTag in cap.deltas then cap.deltas[client.emailTag] else NO_DELTA;
      var activeConnections := ObservedConnections(cap, client.emailTag);
      if delta.totalBytes == 0 && activeConnections == 0 {
        return cleared;
      }
      a := Account(
        client.(lastActivatedAt := if activeConnections > 0 then Some(now) else client.lastActivatedAt,
                lastSeenAt := Some(now)),
        Charge(cleared.rows, UtcDay(now), Sighting(delta, activeConnections)));
    }

    method DismissUnnamed(table: Table, current: set<ClientId>, day: nat) returns (tx: Table)
      ensures tx.Keys == table.Keys
      ensures forall id :: id in table ==>
        tx[id] == if id in current then table[id] else Account(table[id].client, Dismissed(table[id].rows, day))
    {
      tx := table;
      var latest := LatestSnapshots(table);
      var left := table.Keys;
      while left != {}
        invariant left <= table.Keys && tx.Keys == table.Keys
        invariant forall id :: id in table ==>
          tx[id] == if id in current || id in left then table[id] else Account(table[id].client, Dismissed(table[id].rows, day))
      {
        var id :| id in left;
        left := left - {id};
        if latest[id] == 0 || id in current {
          continue;
        }
        tx := tx[id := tx[id].(rows := SetConnections(tx[id].rows, day, 0))];
      }
    }

    // ----- the user map -----

    method AddOrReplaceUser(tag: string, uuid: string) returns (ok: bool)
      modifies xray`users, xray`failures
      ensures Failures() >= old(Failures()) + if ok then 0 else 1
      ensures ok ==> xray.users == old(xray.users)[tag := uuid]
      ensures xray.users == old(xray.users) || xray.users == old(xray.users) - {tag} || xray.users == old(xray.users)[tag := uuid]
    {
      ghost var users := xray.users;
      var r := xray.AddUser(tag, uuid);
      if r != AlreadyExists {
        return r == Done;
      }
      r := xray.RemoveUser(tag);
      if r == Failed {
        return false;
      }
      assert (users - {tag})[tag := uuid] == users[tag := uuid];
      r := xray.AddUser(tag, uuid);
      ok := r == Done;
    }

    /** Brings one tag to what the record asks for. */
    method SyncUser(c: Client, now: nat) returns (ok: bool, ghost turn: Turn)
      modifies xray`users, xray`failures
      ensures Failures() >= old(Failures()) + if ok then 0 else 1
      ensures xray.users == Turned(old(xray.users), c, now, turn)
      ensures ok ==> turn == AsDesired
    {
      ghost var users := xray.users;
      if c.vlessEnabled && RuntimeActive(c, now) {
        ok := AddOrReplaceUser(c.emailTag, c.uuid);
        turn := if xray.users == users[c.emailTag := c.uuid] then AsDesired else if xray.users == users then Untouched else Absent;
      } else {
        ghost var cut;
        ok, cut := Cut(c.emailTag);
        turn := if cut then AsDesired else Untouched;
      }
    }

    /** The sync of one client after its row changed; the caller ignores a failure. */
    method SyncClient(c: Client, now: nat) returns (ghost turn: Turn, ghost ok: bool)
      requires Valid(db.table) && c in waiting
      modifies this`runtimeProvisioned, this`lastConfigSyncAt, this`waiting, xray`users, xray`failures
      ensures Failures() >= old(Failures()) + if ok || Unsupported(c, now) then 0 else 1
      ensures lastConfigSyncAt == if ok && Desired(c, now).Some? then Some(now) else old(lastConfigSyncAt)
      ensures Next(old(State()), ClientTurn(c, now, turn, ok), State())
    {
      waiting := waiting - multiset{c};
      var wanted := c.vlessEnabled && RuntimeActive(c, now);
      if Unsupported(c, now) {
        return Untouched, false;
      }
      var done;
      done, turn := SyncUser(c, now);
      ok := done;
      if done && wanted {
        runtimeProvisioned := true;
        lastConfigSyncAt := Some(now);
      }
    }

    // ----- the full sync, and what happens meanwhile -----

    /** What other requests and ticks do while a sync waits for an answer. Its callers may rely on nothing but this
        contract: any number of any steps that are not those of the one full sync, and that leave the records alone
        whose turn is the caller's, and what the caller has read for its expiry. */
    method Others(ghost mine: multiset<Client>, ghost read: multiset<Batch>) returns (ghost steps: seq<Step>)
      requires Valid(db.table) && mine <= waiting && read <= expiring
      modifies this, db, xray
      ensures Reaches(old(State()), steps, State())
      ensures Valid(db.table) && inflightSync == old(inflightSync) && mine <= waiting && read <= expiring
      ensures Failures() >= old(Failures()) && old(reports) <= reports && (old(Remembers()) ==> Remembers())
      ensures Failures() == old(Failures()) ==> AllWell(steps)
      ensures forall i :: 0 <= i < |steps| ==> !OfFullSync(steps[i])
    {
      ReachNone(State());
      steps := [];
      if * {
        var now: nat := *;
        ghost var before := State();
        var result;
        ghost var step;
        result, step := PerformCaptureUsageSnapshot(now);
        ReachOne(before, step, State());
        Ledger.NextKeepsValid(before, step, State());
        steps := [step];
      }
    }

    /** At most one full sync runs at a time: its caller makes sure of that. */
    method PerformSyncAllClients(now: nat) returns (outcome: SyncOutcome, ghost steps: seq<Step>)
      requires Valid(db.table) && inflightSync.None?
      modifies this, db, xray
      ensures Reaches(old(State()), steps, State()) && Valid(db.table) && inflightSync.None?
      ensures Failures() >= old(Failures()) + if outcome.Completed? then 0 else 1
      ensures Failures() == old(Failures()) ==> AllWell(steps)
      ensures old(reports) <= reports && (old(Remembers()) ==> Remembers())
      ensures outcome.NotRead? ==> steps == []
      ensures outcome.Aborted? ==> SyncTrace(steps, now)
      ensures outcome.Completed? ==> WholeSync(steps, now)
    {
      var rows := db.FindAll();
      if rows.None? {
        ReachNone(State());
        return NotRead, [];
      }
      outcome, steps := SyncRead(rows.value, now);
    }

    /** The sync after its read. */
    method SyncRead(rows: Table, now: nat) returns (outcome: SyncOutcome, ghost steps: seq<Step>)
      requires Valid(db.table) && inflightSync.None? && rows == db.table
      modifies this, db, xray
      ensures Reaches(old(State()), steps, State()) && Valid(db.table) && inflightSync.None?
      ensures Failures() >= old(Failures()) + if outcome.Completed? then 0 else 1
      ensures Failures() == old(Failures()) ==> AllWell(steps)
      ensures old(reports) <= reports && (old(Remembers()) ==> Remembers())
      ensures !outcome.NotRead?
      ensures outcome.Aborted? ==> SyncTrace(steps, now)
      ensures outcome.Completed? ==> WholeSync(steps, now)
    {
      ghost var start := State();
      inflightSync := Some(rows);
      ReachOne(start, SyncReads, State());
      outcome, steps := SyncToEnd(now, start);
    }

    /** The turns of the rows that were read, and the end if none of them failed. */
    method SyncToEnd(now: nat, ghost start: World) returns (outcome: SyncOutcome, ghost steps: seq<Step>)
      requires Valid(db.table) && inflightSync.Some? && Reaches(start, [SyncReads], State())
      modifies this, db, xray
      ensures Reaches(start, steps, State()) && Valid(db.table) && inflightSync.None?
      ensures Failures() >= old(Failures()) + if outcome.Completed? then 0 else 1
      ensures Failures() == old(Failures()) ==> AllWell(steps)
      ensures old(reports) <= reports && (old(Remembers()) ==> Remembers())
      ensures !outcome.NotRead?
      ensures outcome.Aborted? ==> SyncTrace(steps, now)
      ensures outcome.Completed? ==> WholeSync(steps, now)
    {
      var complete;
      complete, steps := SyncRows(now, start);
      if !complete {
        return Aborted, steps;
      }
      outcome := Completed;
      steps := EndSync(now, start, steps);
    }

    method EndSync(now: nat, ghost start: World, ghost before: seq<Step>) returns (ghost steps: seq<Step>)
      requires Reaches(start, before, State()) && Valid(db.table) && inflightSync == Some(map[]) && SyncTrace(before, now)
      modifies this`inflightSync, this`runtimeProvisioned, this`lastConfigSyncAt
      ensures Reaches(start, steps, State()) && inflightSync.None? && lastConfigSyncAt == Some(now)
      ensures WholeSync(steps, now)
      ensures AllWell(before) ==> AllWell(steps)
    {
      ghost var mid := State();
      inflightSync := None;
      runtimeProvisioned := true;
      lastConfigSyncAt := Some(now);
      ReachMore(start, before, mid, SyncEnds, State());
      steps := before + [SyncEnds];
    }

    /** The loop over the rows that were read, the others' steps before each turn. */
    method SyncRows(now: nat, ghost start: World) returns (complete: bool, ghost steps: seq<Step>)
      requires Valid(db.table) && inflightSync.Some? && Reaches(start, [SyncReads], State())
      modifies this, db, xray
      ensures Reaches(start, steps, State()) && SyncTrace(steps, now) && Valid(db.table)
      ensures Failures() >= old(Failures()) + if complete then 0 else 1
      ensures Failures() == old(Failures()) ==> AllWell(steps)
      ensures old(reports) <= reports && (old(Remembers()) ==> Remembers())
      ensures inflightSync == if complete then Some(map[]) else None
    {
      steps := [SyncReads];
      complete := true;
      while inflightSync.value != map[]
        invariant complete && inflightSync.Some? && Valid(db.table)
        invariant Failures() >= old(Failures()) && old(reports) <= reports && (old(Remembers()) ==> Remembers())
        invariant Failures() == old(Failures()) ==> AllWell(steps)
        invariant Reaches(start, steps, State()) && SyncTrace(steps, now)
        decreases |inflightSync.value|
      {
        complete, steps := SyncOneMore(now, start, steps);
        if !complete {
          return;
        }
      }
    }

    /** One turn, added to the run so far. */
    method SyncOneMore(now: nat, ghost start: World, ghost before: seq<Step>) returns (ok: bool, ghost steps: seq<Step>)
      requires Valid(db.table) && inflightSync.Some? && inflightSync.value != map[]
      requires Reaches(start, before, State()) && SyncTrace(before, now)
      modifies this, db, xray
      ensures Reaches(start, steps, State()) && SyncTrace(steps, now) && Valid(db.table)
      ensures Failures() >= old(Failures()) + if ok then 0 else 1
      ensures Failures() == old(Failures()) && AllWell(before) ==> AllWell(steps)
      ensures old(reports) <= reports && (old(Remembers()) ==> Remembers())
      ensures ok ==> inflightSync.Some? && |inflightSync.value| < |old(inflightSync).value|
      ensures !ok ==> inflightSync.None?
    {
      ghost var mid := State();
      ok, steps := SyncNextRow(now);
      ReachBoth(start, before, mid, steps, State());
      steps := before + steps;
    }

    /** What others do meanwhile, and then the turn of one row, as it was read when the sync began. */
    method SyncNextRow(now: nat) returns (ok: bool, ghost steps: seq<Step>)
      requires Valid(db.table) && inflightSync.Some? && inflightSync.value != map[]
      modifies this, db, xray
      ensures Reaches(old(State()), steps, State()) && Valid(db.table)
      ensures Failures() >= old(Failures()) + if ok then 0 else 1
      ensures Failures() == old(Failures()) ==> AllWell(steps)
      ensures old(reports) <= reports && (old(Remembers()) ==> Remembers())
      ensures forall i :: 0 <= i < |steps| ==> SyncsAt(steps[i], now)
      ensures ok ==> inflightSync.Some? && |inflightSync.value| < |old(inflightSync).value|
      ensures !ok ==> inflightSync.None?
    {
      ghost var start := State();
      steps := Others(multiset{}, multiset{});
      ok, steps := SyncSomeRow(now, start, steps);
    }

    method SyncSomeRow(now: nat, ghost start: World, ghost before: seq<Step>) returns (ok: bool, ghost steps: seq<Step>)
      requires Reaches(start, before, State()) && Valid(db.table) && inflightSync.Some? && inflightSync.value != map[]
      modifies this`inflightSync, xray`users, xray`failures
      ensures Reaches(start, steps, State()) && Valid(db.table)
      ensures Failures() >= old(Failures()) + if ok then 0 else 1
      ensures AllWell(steps) <==> AllWell(before) && ok
      ensures |steps| == |before| + 1 && before <= steps && SyncsAt(steps[|before|], now)
      ensures ok ==> inflightSync.Some? && |inflightSync.value| < |old(inflightSync).value|
      ensures !ok ==> inflightSync.None?
    {
      ghost var mid := State();
      var id :| id in inflightSync.value;
      ghost var turn;
      ok, turn := SyncRow(id, now);
      ReachMore(start, before, mid, SyncTurn(id, now, turn, ok), State());
      steps := before + [SyncTurn(id, now, turn, ok)];
    }

    method SyncRow(id: ClientId, now: nat) returns (ok: bool, ghost turn: Turn)
      requires Valid(db.table) && inflightSync.Some? && id in inflightSync.value
      modifies this`inflightSync, xray`users, xray`failures
      ensures Failures() >= old(Failures()) + if ok then 0 else 1
      ensures Next(old(State()), SyncTurn(id, now, turn, ok), State()) && Valid(db.table)
      ensures inflightSync == if ok then Some(old(inflightSync).value - {id}) else None
    {
      ok, turn := SyncUser(inflightSync.value[id].client, now);
      inflightSync := if ok then Some(inflightSync.value - {id}) else None;
    }

    /** Runs on every tick: probe Xray, remember its uptime, and sync when the service does not trust the runtime or
        the uptime is lower than the last one that a tick was told, unless a sync is under way. */
    method EnsureRuntimeProvisioned(now: nat) returns (probe: Probe, outcome: Option<SyncOutcome>, ghost steps: seq<Step>)
      requires Valid(db.table) && Remembers()
      modifies this, db, xray
      ensures Reaches(old(State()), steps, State()) && Valid(db.table) && Remembers()
      ensures Failures() >= old(Failures()) + if probe.Down? || outcome == Some(NotRead) || outcome == Some(Aborted) then 1 else 0
      ensures Failures() == old(Failures()) ==> AllWell(steps)
      ensures old(reports) + Told(probe) <= reports && (outcome.None? ==> reports == old(reports) + Told(probe))
      ensures probe.Down? ==> steps == [Unreachable] && outcome.None?
      ensures probe.Healthy? ==>
        (outcome.Some? <==>
          && old(inflightSync).None?
          && (!old(runtimeProvisioned) || WentBackwards(LastReport(old(reports)), probe.uptime)))
      ensures probe.Healthy? && outcome.None? ==> steps == []
      ensures outcome == Some(Completed) ==> steps != [] && steps[0] == SyncReads && steps[|steps| - 1] == SyncEnds
    {
      ghost var start := State();
      ReachNone(start);
      steps, outcome := [], None;
      var previous := lastKnownXrayUptimeSeconds;
      probe := TakeProbe();
      if probe.Down? {
        ReachOne(start, Unreachable, State());
        return probe, None, [Unreachable];
      }
      if inflightSync.None? && (!runtimeProvisioned || WentBackwards(previous, probe.uptime)) {
        var o;
        o, steps := PerformSyncAllClients(now);
        outcome := Some(o);
      }
    }

    /** An unreachable runtime is not trusted any more; a reported uptime is remembered. */
    method TakeProbe() returns (probe: Probe)
      requires Remembers()
      modifies this`runtimeProvisioned, this`lastKnownXrayUptimeSeconds, this`reports, xray`failures
      ensures Remembers() && reports == old(reports) + Told(probe)
      ensures Failures() >= old(Failures()) + if probe.Down? then 1 else 0
      ensures State() == if probe.Down? then old(State()).(provisioned := false) else old(State())
    {
      probe := xray.GetSysStats();
      if probe.Down? {
        runtimeProvisioned := false;
      } else if probe.uptime.Some? {
        lastKnownXrayUptimeSeconds := probe.uptime;
        reports := reports + [probe.uptime.value];
      }
    }
  }

  /** The uptime that a probe reports, if it does. */
  function Told(probe: Probe): seq<nat> {
    if probe.Healthy? && probe.uptime.Some? then [probe.uptime.value] else []
  }

  function LastReport(reports: seq<nat>): Option<nat> {
    if reports == [] then None else Some(reports[|reports| - 1])
  }

  /** How a full sync ended; the read and every turn may fail. */
  datatype SyncOutcome = NotRead | Aborted | Completed

  /** Another's step, or a turn at the given time. */
  predicate SyncsAt(step: Step, now: nat) {
    !OfFullSync(step) || (step.SyncTurn? && step.now == now)
  }

  /** A full sync as far as it came: one read, then its turns at one time, and others' steps in between. */
  ghost predicate SyncTrace(steps: seq<Step>, now: nat) {
    steps != [] && steps[0] == SyncReads && forall i :: 0 < i < |steps| ==> SyncsAt(steps[i], now)
  }

  /** And its end. */
  ghost predicate WholeSync(steps: seq<Step>, now: nat) {
    steps != [] && SyncTrace(steps[..|steps| - 1], now) && steps[|steps| - 1] == SyncEnds
  }

  predicate WentBackwards(previous: Option<nat>, uptime: Option<nat>) {
    previous.Some? && uptime.Some? && uptime.value < previous.value
  }
}
