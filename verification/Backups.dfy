/**
 The backup scheduler: snapshot rows, the single-flight maintenance tick, and pruning. A row
 also says here what the table does not store: whether the scheduler made it and whether it
 was ever ready.
 */
module Backups {

  import opened Basics

  const DAY_MS := 86_400_000

  datatype SnapshotStatus = CREATING | READY | FAILED | PRUNED | RESTORED

  datatype Snapshot = Snapshot(createdAt: int, status: SnapshotStatus, automatic: bool, wasReady: bool)

  type Rows = map<string, Snapshot>

  datatype Policy = Policy(enabled: bool, intervalDays: nat, retentionDays: nat, maintenanceMs: nat)

  /** `inflight` is the row of the maintenance run under way in this process. */
  datatype World = World(rows: Rows, inflight: Option<string>)

  // ----- decisions -----

  function IsAutomaticBackupDue(intervalDays: nat, latest: Option<int>, now: int): bool {
    latest.None? || now - latest.value >= intervalDays * DAY_MS
  }

  predicate Successful(s: SnapshotStatus) {
    s == PRUNED || s == READY || s == RESTORED
  }

  /** No successful row is younger than the interval. */
  ghost predicate Due(rows: Rows, policy: Policy, now: int) {
    forall id :: id in rows && Successful(rows[id].status) ==> now - rows[id].createdAt >= policy.intervalDays * DAY_MS
  }

  ghost predicate Pending(rows: Rows, policy: Policy, now: int) {
    exists id :: id in rows && rows[id].status == CREATING && now - rows[id].createdAt < policy.maintenanceMs
  }

  ghost predicate ShouldCreate(rows: Rows, policy: Policy, now: int) {
    policy.enabled && !Pending(rows, policy, now) && Due(rows, policy, now)
  }

  /** What one row does to the decision: a row that is being created stops mattering once the maintenance interval has
      passed, so one that a crash left behind does too; a successful one once the backup interval has; a failed one never
      matters. */
  lemma RowMattersExactly(rows: Rows, id: string, s: Snapshot, policy: Policy, now: int)
    ensures
      var age := now - s.createdAt;
      ShouldCreate(rows[id := s], policy, now) <==>
        ShouldCreate(rows - {id}, policy, now) &&
        match s.status
        case CREATING => age >= policy.maintenanceMs
        case FAILED => true
        case _ => age >= policy.intervalDays * 86_400_000
    ensures ShouldCreate(map[], policy, now) <==> policy.enabled
  {
    var others, after := rows - {id}, rows[id := s];
    forall other | other in rows && other != id ensures other in others && other in after && after[other] == others[other] {
    }
    assert id in after;
  }

  // ----- pruning -----

  predicate Prunable(s: Snapshot, policy: Policy, now: int) {
    (s.status == READY || s.status == FAILED) && s.createdAt < now - policy.retentionDays * DAY_MS
  }

  function PrunedRow(s: Snapshot, policy: Policy, now: int): Snapshot {
    if Prunable(s, policy, now) then s.(status := PRUNED) else s
  }

  function Pruned(rows: Rows, policy: Policy, now: int): Rows {
    PrunedSome(rows, rows.Keys, policy, now)
  }

  function PrunedSome(rows: Rows, reached: set<string>, policy: Policy, now: int): Rows {
    map id | id in rows :: if id in reached then PrunedRow(rows[id], policy, now) else rows[id]
  }

  ghost predicate PruningNeverMatters(policy: Policy) {
    forall rows: Rows, now: int :: Due(Pruned(rows, policy, now), policy, now) <==> Due(rows, policy, now)
  }

  lemma DueAfterPruning(rows: Rows, policy: Policy, now: int)
    requires policy.retentionDays >= policy.intervalDays
    ensures Due(Pruned(rows, policy, now), policy, now) <==> Due(rows, policy, now)
  {
    var after := Pruned(rows, policy, now);
    if Due(after, policy, now) {
      forall id | id in rows && Successful(rows[id].status)
        ensures now - rows[id].createdAt >= policy.intervalDays * DAY_MS
      {
        assert id in after && Successful(after[id].status);
      }
    }
  }

  /** Pruning turns failed rows into rows that count as successful. This changes no decision exactly when backups are kept
      at least as long as the interval between them. */
  lemma PruningNeverMattersExactly(policy: Policy)
    ensures PruningNeverMatters(policy) <==> policy.retentionDays >= policy.intervalDays
  {
    if policy.retentionDays >= policy.intervalDays {
      forall rows: Rows, now: int ensures Due(Pruned(rows, policy, now), policy, now) <==> Due(rows, policy, now) {
        DueAfterPruning(rows, policy, now);
      }
    } else {
      var failed := Snapshot(0, FAILED, true, false);
      var now := policy.retentionDays * DAY_MS + 1;
      var rows: Rows := map["f" := failed];
      assert Due(rows, policy, now);
      var after := Pruned(rows, policy, now);
      assert "f" in after && after["f"].status == PRUNED;
      assert !Due(after, policy, now);
    }
  }

  /** Only ready and failed rows past the retention change, and only their status. */
  lemma PruningTouchesExactly(rows: Rows, policy: Policy, now: int, id: string)
    requires id in rows
    ensures Pruned(rows, policy, now).Keys == rows.Keys
    ensures
      var s := rows[id];
      var outdated := (s.status == READY || s.status == FAILED) && now - s.createdAt > policy.retentionDays * 86_400_000;
      Pruned(rows, policy, now)[id] == if outdated then s.(status := PRUNED) else s
  {
  }

  // ----- steps -----

  /** How the making of a backup ends. The row is READY before the audit entry is written; if that fails, it becomes
      FAILED although its archive is complete. Writing FAILED may fail in turn: the row then stays as it is. */
  datatype End = Completed | BuildFailed(marked: bool) | AuditFailed(marked: bool)

  datatype Step =
    | List(now: int)
    /** A pruning fails after it has come to these rows; what it was part of ends. */
    | PruneFails(now: int, reached: set<string>)
    | Maintain(now: int, id: string)
    | MaintenanceEnds(end: End)
    | CreateManually(now: int, id: string)
    | ManualEnds(id: string, end: End)
    | Remove(id: string)
    | Restore(id: string)
    | ProcessRestart

  function Ended(s: Snapshot, end: End): Snapshot {
    match end
    case Completed => s.(status := READY, wasReady := true)
    case BuildFailed(marked) => if marked then s.(status := FAILED) else s
    case AuditFailed(marked) => s.(status := if marked then FAILED else READY, wasReady := true)
  }

  ghost function Next(policy: Policy, w: World, s: Step): World {
    match s
    case List(now) => w.(rows := Pruned(w.rows, policy, now))
    case PruneFails(now, reached) => w.(rows := PrunedSome(w.rows, reached, policy, now))
    case Maintain(now, id) =>
      if w.inflight.Some? then w
      else if !ShouldCreate(w.rows, policy, now) then w.(rows := Pruned(w.rows, policy, now))
      else World(Pruned(w.rows, policy, now)[id := Snapshot(now, CREATING, true, false)], Some(id))
    case MaintenanceEnds(end) =>
      if w.inflight.Some? && w.inflight.value in w.rows
      then World(w.rows[w.inflight.value := Ended(w.rows[w.inflight.value], end)], None)
      else w
    case CreateManually(now, id) => w.(rows := Pruned(w.rows, policy, now)[id := Snapshot(now, CREATING, false, false)])
    case ManualEnds(id, end) =>
      if id in w.rows && w.rows[id].status == CREATING && !w.rows[id].automatic then w.(rows := w.rows[id := Ended(w.rows[id], end)]) else w
    case Remove(id) => if id in w.rows && w.rows[id].status != CREATING then w.(rows := w.rows - {id}) else w
    case Restore(id) => if id in w.rows then w.(rows := w.rows[id := w.rows[id].(status := RESTORED)]) else w
    case ProcessRestart => w.(inflight := None)
  }

  /** Times do not run backwards, new rows get new ids, and nobody restores the backup that is being made. */
  ghost predicate Allowed(w: World, s: Step) {
    match s
    case Maintain(now, id) => id !in w.rows && NotBefore(w.rows, now)
    case CreateManually(now, id) => id !in w.rows && NotBefore(w.rows, now)
    case Restore(id) => w.inflight != Some(id)
    case _ => true
  }

  ghost predicate NotBefore(rows: Rows, now: int) {
    forall id :: id in rows ==> rows[id].createdAt <= now
  }

  ghost function Run(policy: Policy, w: World, steps: seq<Step>): World
    decreases |steps|
  {
    if steps == [] then w else Run(policy, Next(policy, w, steps[0]), steps[1..])
  }

  ghost predicate AllAllowed(policy: Policy, w: World, steps: seq<Step>)
    decreases |steps|
  {
    steps == [] || (Allowed(w, steps[0]) && AllAllowed(policy, Next(policy, w, steps[0]), steps[1..]))
  }

  // ----- spacing -----

  predicate ReadyAutomatic(s: Snapshot) {
    s.automatic && s.wasReady
  }

  predicate Apart(a: Snapshot, b: Snapshot, policy: Policy) {
    a.createdAt - b.createdAt >= policy.intervalDays * DAY_MS || b.createdAt - a.createdAt >= policy.intervalDays * DAY_MS
  }

  /** An automatic backup that was ready counts as successful for as long as its row exists. */
  ghost predicate ReadyMeansSuccessful(rows: Rows) {
    forall id :: id in rows && ReadyAutomatic(rows[id]) ==> Successful(rows[id].status)
  }

  ghost predicate Spaced(rows: Rows, policy: Policy) {
    forall a, b :: a in rows && b in rows && a != b && ReadyAutomatic(rows[a]) && ReadyAutomatic(rows[b]) ==> Apart(rows[a], rows[b], policy)
  }

  /** The end of a run under way: its row says how it ended, unless marking a failure failed too, and the flight is over. A
      backup that was completed holds the next one off for the interval; a failed one that is marked does not. */
  lemma FlightEndsExactly(w: World, policy: Policy, end: End, now: int)
    requires w.inflight.Some? && w.inflight.value in w.rows && w.rows[w.inflight.value].status == CREATING
    ensures
      var id, after := w.inflight.value, Next(policy, w, MaintenanceEnds(end));
      && after.inflight.None? && after.rows - {id} == w.rows - {id} && id in after.rows
      && after.rows[id].createdAt == w.rows[id].createdAt
      && after.rows[id].status == (
           if end == Completed || end == AuditFailed(false) then READY
           else if end == BuildFailed(false) then CREATING
           else FAILED)
      && (end == Completed ==>
            (ShouldCreate(after.rows, policy, now) <==>
               ShouldCreate(w.rows - {id}, policy, now) && now - w.rows[id].createdAt >= policy.intervalDays * 86_400_000))
      && (end == BuildFailed(true) ==> (ShouldCreate(after.rows, policy, now) <==> ShouldCreate(w.rows - {id}, policy, now)))
  {
    var id := w.inflight.value;
    RowMattersExactly(w.rows, id, Ended(w.rows[id], end), policy, now);
  }

  /** The run under way will be far enough from every ready automatic row, should it succeed. */
  ghost predicate InflightApart(w: World, policy: Policy) {
    w.inflight.Some? ==>
      && w.inflight.value in w.rows
      && w.rows[w.inflight.value].automatic && w.rows[w.inflight.value].status == CREATING
      && forall a :: a in w.rows && a != w.inflight.value && ReadyAutomatic(w.rows[a]) ==> Apart(w.rows[a], w.rows[w.inflight.value], policy)
  }

  ghost predicate Valid(w: World, policy: Policy) {
    ReadyMeansSuccessful(w.rows) && Spaced(w.rows, policy) && InflightApart(w, policy)
  }

  lemma PruneKeepsValid(w: World, policy: Policy, now: int, reached: set<string>)
    requires Valid(w, policy)
    ensures Valid(w.(rows := PrunedSome(w.rows, reached, policy, now)), policy)
  {
  }

  lemma MaintainKeepsValid(w: World, policy: Policy, now: int, id: string)
    requires Valid(w, policy) && Allowed(w, Maintain(now, id))
    ensures Valid(Next(policy, w, Maintain(now, id)), policy)
  {
    PruneKeepsValid(w, policy, now, w.rows.Keys);
    if w.inflight.None? && ShouldCreate(w.rows, policy, now) {
      var after := Next(policy, w, Maintain(now, id));
      forall a | a in after.rows && a != id && ReadyAutomatic(after.rows[a]) ensures Apart(after.rows[a], after.rows[id], policy) {
        assert a in w.rows && ReadyAutomatic(w.rows[a]);
      }
    }
  }

  lemma MaintenanceEndKeepsValidExactly(w: World, policy: Policy, end: End)
    requires Valid(w, policy)
    ensures Valid(Next(policy, w, MaintenanceEnds(end)), policy) <==> !(end == AuditFailed(true) && w.inflight.Some?)
  {
    var after := Next(policy, w, MaintenanceEnds(end));
    if w.inflight.Some? {
      assert w.inflight.value in after.rows && after.rows[w.inflight.value] == Ended(w.rows[w.inflight.value], end);
    }
  }

  /** Every step keeps the spacing, except the audit failure of an automatic backup that is already complete, when the row
      is marked FAILED. */
  lemma NextKeepsValidExactly(w: World, policy: Policy, s: Step)
    requires Valid(w, policy) && Allowed(w, s)
    ensures Valid(Next(policy, w, s), policy) <==> !(s == MaintenanceEnds(AuditFailed(true)) && w.inflight.Some?)
  {
    match s
    case Maintain(now, id) => MaintainKeepsValid(w, policy, now, id);
    case MaintenanceEnds(end) => MaintenanceEndKeepsValidExactly(w, policy, end);
    case CreateManually(now, id) => PruneKeepsValid(w, policy, now, w.rows.Keys);
    case List(now) => PruneKeepsValid(w, policy, now, w.rows.Keys);
    case PruneFails(now, reached) => PruneKeepsValid(w, policy, now, reached);
    case _ =>
  }

  /** In every run without such a failure, undeleted automatic backups that were ever ready were created at least the
      interval apart. */
  lemma {:induction false} AutomaticBackupsSpaced(w: World, policy: Policy, steps: seq<Step>)
    requires Valid(w, policy) && AllAllowed(policy, w, steps)
    requires MaintenanceEnds(AuditFailed(true)) !in steps
    ensures Spaced(Run(policy, w, steps).rows, policy)
    decreases |steps|
  {
    if steps != [] {
      assert steps[0] in steps;
      NextKeepsValidExactly(w, policy, steps[0]);
      AutomaticBackupsSpaced(Next(policy, w, steps[0]), policy, steps[1..]);
    }
  }

  /** After such a failure the next tick makes another backup at once. */
  lemma AuditFailureRepeatsBackup(policy: Policy)
    requires policy.enabled && policy.intervalDays > 0
    ensures
      var w1 := Next(policy, World(map[], None), Maintain(0, "a"));
      var w2 := Next(policy, w1, MaintenanceEnds(AuditFailed(true)));
      var w3 := Next(policy, w2, Maintain(1, "b"));
      var w4 := Next(policy, w3, MaintenanceEnds(Completed));
      !Spaced(w4.rows, policy)
  {
    var w1 := Next(policy, World(map[], None), Maintain(0, "a"));
    assert ShouldCreate(map[], policy, 0);
    var w2 := Next(policy, w1, MaintenanceEnds(AuditFailed(true)));
    assert w2 == World(map["a" := Snapshot(0, FAILED, true, true)], None);
    assert ShouldCreate(w2.rows, policy, 1);
    var w3 := Next(policy, w2, Maintain(1, "b"));
    var w4 := Next(policy, w3, MaintenanceEnds(Completed));
    assert "a" != "b";
    assert "a" in w4.rows && "b" in w4.rows;
    assert ReadyAutomatic(w4.rows["a"]) && ReadyAutomatic(w4.rows["b"]) && !Apart(w4.rows["a"], w4.rows["b"], policy);
  }

  // ----- the service -----

  class Service {
    const policy: Policy
    var rows: Rows
    var inflight: Option<string>
    /** How many writes have failed so far. */
    ghost var failures: nat

    constructor (policy: Policy)
      ensures this.policy == policy && rows == map[] && inflight == None
    {
      this.policy := policy;
      rows := map[];
      inflight := None;
      failures := 0;
    }

    ghost function State(): World
      reads this
    {
      World(rows, inflight)
    }

    method MarkPruned(id: string) returns (ok: bool)
      requires id in rows
      modifies this`rows, this`failures
      ensures rows == if ok then old(rows)[id := old(rows)[id].(status := PRUNED)] else old(rows)
      ensures failures == old(failures) + if ok then 0 else 1
    {
      ok := *;
      if ok {
        rows := rows[id := rows[id].(status := PRUNED)];
      } else {
        failures := failures + 1;
      }
    }

    /** A failed write ends the loop: some of the rows are pruned then. */
    method PruneExpiredBackups(now: int) returns (ok: bool, ghost reached: set<string>)
      modifies this`rows, this`failures
      ensures failures == old(failures) + if ok then 0 else 1
      ensures rows == PrunedSome(old(rows), reached, policy, now)
      ensures ok ==> rows == Pruned(old(rows), policy, now)
    {
      ghost var all := rows;
      var left := rows.Keys;
      ok, reached := true, {};
      while left != {}
        invariant left <= all.Keys && reached == all.Keys - left
        invariant rows == PrunedSome(all, reached, policy, now) && failures == old(failures)
      {
        var id :| id in left;
        if Prunable(rows[id], policy, now) {
          ok := MarkPruned(id);
          if !ok {
            return;
          }
        }
        left := left - {id};
        reached := reached + {id};
      }
    }

    /** The time of the latest row with one of the statuses. */
    method LatestOf(statuses: set<SnapshotStatus>) returns (latest: Option<int>)
      ensures latest.None? <==> forall id :: id in rows ==> rows[id].status !in statuses
      ensures latest.Some? ==> exists id :: id in rows && rows[id].status in statuses && rows[id].createdAt == latest.value
      ensures latest.Some? ==> forall id :: id in rows && rows[id].status in statuses ==> rows[id].createdAt <= latest.value
    {
      latest := None;
      var left := rows.Keys;
      while left != {}
        invariant left <= rows.Keys
        invariant latest.None? <==> forall id :: id in rows && id !in left ==> rows[id].status !in statuses
        invariant latest.Some? ==> exists id :: id in rows && rows[id].status in statuses && rows[id].createdAt == latest.value
        invariant latest.Some? ==> forall id :: id in rows && id !in left && rows[id].status in statuses ==> rows[id].createdAt <= latest.value
      {
        var id :| id in left;
        left := left - {id};
        if rows[id].status in statuses && (latest.None? || latest.value < rows[id].createdAt) {
          latest := Some(rows[id].createdAt);
        }
      }
    }

    method ShouldCreateAutomaticBackup(now: int) returns (r: bool)
      ensures r == ShouldCreate(rows, policy, now)
    {
      if !policy.enabled {
        return false;
      }
      var pending := LatestOf({CREATING});
      if pending.Some? && now - pending.value < policy.maintenanceMs {
        return false;
      }
      var latest := LatestOf({PRUNED, READY, RESTORED});
      r := IsAutomaticBackupDue(policy.intervalDays, latest, now);
    }

    /** The first half of a maintenance tick: what happens before the archive is built. */
    method RunAutomaticMaintenance(now: int, id: string) returns (pruned: bool, ghost reached: set<string>)
      modifies this
      ensures State() == Next(policy, old(State()), if pruned then Maintain(now, id) else PruneFails(now, reached))
      ensures !pruned ==> old(inflight).None?
      ensures failures == old(failures) + if pruned then 0 else 1
    {
      pruned, reached := true, {};
      if inflight.Some? {
        return;
      }
      var should := ShouldCreateAutomaticBackup(now);
      pruned, reached := PruneExpiredBackups(now);
      if pruned && should {
        rows := rows[id := Snapshot(now, CREATING, true, false)];
        inflight := Some(id);
      }
    }

    /** The second half: the archive was built or was not, and the audit entry was written or was not. */
    method FinishAutomaticMaintenance(end: End)
      modifies this
      ensures State() == Next(policy, old(State()), MaintenanceEnds(end))
    {
      if inflight.Some? && inflight.value in rows {
        rows := rows[inflight.value := Ended(rows[inflight.value], end)];
        inflight := None;
      }
    }

    method StartManualBackup(now: int, id: string) returns (pruned: bool, ghost reached: set<string>)
      modifies this`rows, this`failures
      ensures failures == old(failures) + if pruned then 0 else 1
      ensures State() == Next(policy, old(State()), if pruned then CreateManually(now, id) else PruneFails(now, reached))
    {
      pruned, reached := PruneExpiredBackups(now);
      if pruned {
        rows := rows[id := Snapshot(now, CREATING, false, false)];
      }
    }

    /** `false` where the row is missing or still being created. */
    method RemoveBackup(id: string) returns (ok: bool)
      modifies this`rows
      ensures State() == Next(policy, old(State()), Remove(id))
      ensures ok <==> id in old(rows) && old(rows)[id].status != CREATING
    {
      ok := id in rows && rows[id].status != CREATING;
      if ok {
        rows := rows - {id};
      }
    }
  }
}
