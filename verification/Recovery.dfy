/**
 Two health ticks, one after the other, with anything in between: when the second one starts a
 full sync. It knows of the first by the uptime that the service remembers alone.
 */
module Recovery {

  import opened Basics
  import opened ControlPlane
  import opened Ledger
  import opened Stores
  import opened XrayService

  /** What the second tick finds: whether the runtime is trusted, whether a sync is under way, what other ticks were told. */
  datatype Between = Between(trusted: bool, underWay: bool, others: seq<nat>)

  ghost predicate LowerThanLast(known: seq<nat>, probe: Probe) {
    probe.Healthy? && probe.uptime.Some? && known != [] && probe.uptime.value < known[|known| - 1]
  }

  /** A lower uptime than the last one starts a sync, whatever the first tick did and however its sync ended: without other
      ticks in between, uptimes a and then b < a start one at the second tick, and b >= a starts none on a trusted runtime. */
  method TickTwice(service: Service, now: nat, later: nat)
      returns (first: Probe, ghost between: Between, second: Probe, outcome: Option<SyncOutcome>)
    requires Valid(service.db.table) && service.Remembers()
    modifies service, service.db, service.xray
    ensures var told := if first.Healthy? && first.uptime.Some? then [first.uptime.value] else [];
      outcome.Some? <==>
        && second.Healthy?
        && !between.underWay
        && (!between.trusted || LowerThanLast(old(service.reports) + told + between.others, second))
  {
    var firstOutcome;
    first, firstOutcome := Tick(service, now);
    ghost var known := service.reports[..|old(service.reports) + Told(first)|];
    Wait(service);
    between := Between(service.runtimeProvisioned, service.inflightSync.Some?, service.reports[|known|..]);
    assert service.reports == known + between.others;
    second, outcome := Tick(service, later);
  }

  method Tick(service: Service, now: nat) returns (probe: Probe, outcome: Option<SyncOutcome>)
    requires Valid(service.db.table) && service.Remembers()
    modifies service, service.db, service.xray
    ensures Valid(service.db.table) && service.Remembers() && old(service.reports) + Told(probe) <= service.reports
    ensures outcome.Some? <==>
      && probe.Healthy?
      && old(service.inflightSync).None?
      && (!old(service.runtimeProvisioned) || LowerThanLast(old(service.reports), probe))
  {
    ghost var steps;
    probe, outcome, steps := service.EnsureRuntimeProvisioned(now);
  }

  method Wait(service: Service)
    requires Valid(service.db.table) && service.Remembers()
    modifies service, service.db, service.xray
    ensures Valid(service.db.table) && service.Remembers() && old(service.reports) <= service.reports
  {
    ghost var steps := service.Others(multiset{}, multiset{});
  }
}
