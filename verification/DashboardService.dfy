/**
 What looking at the dashboard does first. Its expiry repeats the condition in the one call that writes, and syncs
 nobody.
 */
module DashboardService {

  import opened Basics
  import opened Clients
  import opened ControlPlane
  import XrayService
  import Ledger
  import ClientsService

  class Service {
    const xrayService: XrayService.Service

    constructor (xrayService: XrayService.Service)
      ensures this.xrayService == xrayService
    {
      this.xrayService := xrayService;
    }

    /** A snapshot unless one is recent, whose failure is ignored, and then the expiry, with anything in between. */
    method PrimeDashboardData(usageSnapshotIntervalMs: nat, now: nat) returns (ok: bool, ghost took: bool, ghost steps: seq<Step>)
      requires Valid(xrayService.db.table)
      modifies xrayService, xrayService.db, xrayService.xray
      ensures Reaches(old(xrayService.State()), steps, xrayService.State()) && Valid(xrayService.db.table)
      ensures if took then steps != [] && (steps[0].SnapshotLost? || steps[0].SnapshotRecorded?)
              else ClientsService.Recent(old(xrayService.lastStatsSnapshotAt), usageSnapshotIntervalMs, now)
      ensures xrayService.Failures() >= old(xrayService.Failures()) + if ok then 0 else 1
      ensures xrayService.Failures() == old(xrayService.Failures()) ==> AllWell(steps)
      ensures ok ==> steps != [] && steps[|steps| - 1] == Step.ExpireInPlace(now)
    {
      ghost var start := xrayService.State();
      ReachNone(start);
      var result;
      ghost var snapshot;
      result, snapshot := xrayService.CaptureUsageSnapshot(false, usageSnapshotIntervalMs, now);
      ghost var mid := xrayService.State();
      took := snapshot.Some?;
      steps := if took then [snapshot.value] else [];
      if snapshot.Some? {
        Ledger.NextKeepsValid(start, snapshot.value, mid);
        ReachOne(start, snapshot.value, mid);
      }
      ghost var more;
      ok, more := ExpireAfterOthers(now);
      ReachBoth(start, steps, mid, more, xrayService.State());
      steps := steps + more;
    }

    method ExpireAfterOthers(now: nat) returns (ok: bool, ghost steps: seq<Step>)
      requires Valid(xrayService.db.table)
      modifies xrayService, xrayService.db, xrayService.xray
      ensures Reaches(old(xrayService.State()), steps, xrayService.State()) && Valid(xrayService.db.table)
      ensures xrayService.Failures() >= old(xrayService.Failures()) + if ok then 0 else 1
      ensures xrayService.Failures() == old(xrayService.Failures()) ==> AllWell(steps)
      ensures ok ==> steps != [] && steps[|steps| - 1] == Step.ExpireInPlace(now)
    {
      ghost var start := xrayService.State();
      steps := xrayService.Others(multiset{}, multiset{});
      ghost var before := xrayService.State();
      ok := ExpireRows(now);
      if ok {
        ReachMore(start, steps, before, Step.ExpireInPlace(now), xrayService.State());
        steps := steps + [Step.ExpireInPlace(now)];
      }
    }

    method ExpireRows(now: nat) returns (ok: bool)
      requires Valid(xrayService.db.table)
      modifies xrayService.db`table, xrayService.db`failures
      ensures xrayService.Failures() >= old(xrayService.Failures()) + if ok then 0 else 1
      ensures Valid(xrayService.db.table)
      ensures if ok then Next(old(xrayService.State()), Step.ExpireInPlace(now), xrayService.State())
              else xrayService.State() == old(xrayService.State())
    {
      var table := xrayService.db.table;
      Ledger.ExpireKeepsValid(table, ExpiredRows(table, now).Keys);
      ok := xrayService.db.Commit(ExpiredTable(table, ExpiredRows(table, now).Keys));
    }
  }
}
