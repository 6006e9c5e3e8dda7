/**
 The admin's actions on a client. Each writes the client's row in one transaction and then
 brings the runtime in line on a best-effort basis; each is one of the steps of
 `ControlPlane`, preceded by a usage snapshot where the service takes one.
 */
module ClientsService {

  import opened Basics
  import opened JsStrings
  import opened Clients
  import opened Usage
  import opened ControlPlane
  import opened Stores
  import opened XrayService
  import opened Ledger
  import opened EnforcementProofs

  /** `None` stands for an absent field, `Some(None)` for an explicit null. */
  datatype UpdatePayload = UpdatePayload(
    displayName: Option<string>,
    status: Option<Status>,
    startsAt: Option<Option<nat>>,
    expiresAt: Option<Option<nat>>,
    durationDays: Option<Option<nat>>,
    trafficLimitBytes: Option<Option<nat>>,
    isTrafficUnlimited: Option<bool>,
    deviceLimit: Option<Option<nat>>,
    ipLimit: Option<Option<nat>>,
    vlessEnabled: Option<bool>,
    wireguardEnabled: Option<bool>,
    transportProfile: Option<TransportProfile>
  )

  function ResolveExpiry(startsAt: int, expiresAt: Option<Option<nat>>, durationDays: Option<nat>): Option<int> {
    if expiresAt.Some? then (if expiresAt.value.Some? then Some(expiresAt.value.value) else None)
    else if durationDays.Some? && durationDays.value > 0 then Some(startsAt + durationDays.value * DAY_MS)
    else None
  }

  function ResolveTrafficLimit(isTrafficUnlimited: bool, trafficLimitBytes: Option<nat>): Option<nat> {
    if isTrafficUnlimited then None else trafficLimitBytes
  }

  function OrNull(field: Option<Option<nat>>): Option<nat> {
    if field.Some? then field.value else None
  }

  function DaysOf(days: Option<nat>): Option<int> {
    if days.Some? then Some(days.value) else None
  }

  datatype CreatePayload = CreatePayload(
    displayName: string,
    status: Option<Status>,
    startsAt: Option<nat>,
    expiresAt: Option<Option<nat>>,
    durationDays: Option<nat>,
    trafficLimitBytes: Option<nat>,
    isTrafficUnlimited: Option<bool>,
    deviceLimit: Option<nat>,
    ipLimit: Option<nat>,
    vlessEnabled: Option<bool>,
    wireguardEnabled: Option<bool>,
    transportProfile: TransportProfile
  )

  /** What a creation draws at random. */
  datatype Identity = Identity(id: ClientId, uuid: string, emailTag: string, subscriptionToken: string)

  /** The row a creation writes. */
  function CreatedClient(p: CreatePayload, drawn: Identity, owner: string, now: nat): Client {
    var isTrafficUnlimited := p.isTrafficUnlimited.GetOr(false);
    var startsAt: int := p.startsAt.GetOr(now);
    var c := Client(
      drawn.id, drawn.uuid, drawn.emailTag, drawn.subscriptionToken, Trim(p.displayName), Some(owner),
      p.status.GetOr(ACTIVE), now, Some(startsAt), ResolveExpiry(startsAt, p.expiresAt, p.durationDays), DaysOf(p.durationDays),
      ResolveTrafficLimit(isTrafficUnlimited, p.trafficLimitBytes), isTrafficUnlimited, p.deviceLimit, p.ipLimit,
      p.vlessEnabled.GetOr(true), p.wireguardEnabled.GetOr(true), p.transportProfile, None, None);
    c.(status := ResolveEffectiveStatus(c, 0, now))
  }

  /** The row an update writes. The status is computed without looking at the usage. */
  function UpdatedClient(c: Client, p: UpdatePayload, now: nat): Client {
    var startsAt: Option<int> := if p.startsAt.Some? then (if p.startsAt.value.Some? then Some(p.startsAt.value.value) else None) else c.startsAt;
    var isTrafficUnlimited := p.isTrafficUnlimited.GetOr(c.isTrafficUnlimited);
    var next := c.(
      displayName := if p.displayName.Some? then Trim(p.displayName.value) else c.displayName,
      startsAt := startsAt,
      expiresAt := if p.expiresAt.Some? || p.durationDays.Some?
                   then ResolveExpiry(startsAt.GetOr(now), p.expiresAt, OrNull(p.durationDays)) else c.expiresAt,
      durationDays := if p.durationDays.Some? then DaysOf(p.durationDays.value) else c.durationDays,
      trafficLimitBytes := if p.trafficLimitBytes.Some? || p.isTrafficUnlimited.Some?
                           then ResolveTrafficLimit(isTrafficUnlimited, OrNull(p.trafficLimitBytes)) else c.trafficLimitBytes,
      isTrafficUnlimited := isTrafficUnlimited,
      deviceLimit := if p.deviceLimit.Some? then p.deviceLimit.value else c.deviceLimit,
      ipLimit := if p.ipLimit.Some? then p.ipLimit.value else c.ipLimit,
      vlessEnabled := p.vlessEnabled.GetOr(c.vlessEnabled),
      wireguardEnabled := p.wireguardEnabled.GetOr(c.wireguardEnabled),
      transportProfile := p.transportProfile.GetOr(c.transportProfile),
      status := p.status.GetOr(c.status));
    next.(status := ResolveEffectiveStatus(next, 0, now))
  }

  /** An update writes the columns that it mentions, the status, the term's two ends and the switches, as computed from the
      row that it has read; the other columns stay as they are by then. */
  function AfterUpdate(row: Client, read: Client, p: UpdatePayload, now: nat): Client {
    var next := UpdatedClient(read, p, now);
    row.(
      displayName := if p.displayName.Some? then next.displayName else row.displayName,
      status := next.status,
      startsAt := next.startsAt,
      expiresAt := next.expiresAt,
      durationDays := if p.durationDays.Some? then next.durationDays else row.durationDays,
      trafficLimitBytes := if p.trafficLimitBytes.Some? || p.isTrafficUnlimited.Some? then next.trafficLimitBytes else row.trafficLimitBytes,
      isTrafficUnlimited := next.isTrafficUnlimited,
      deviceLimit := if p.deviceLimit.Some? then next.deviceLimit else row.deviceLimit,
      ipLimit := if p.ipLimit.Some? then next.ipLimit else row.ipLimit,
      vlessEnabled := next.vlessEnabled,
      wireguardEnabled := next.wireguardEnabled,
      transportProfile := if p.transportProfile.Some? then next.transportProfile else row.transportProfile)
  }

  /** The new end of term, `None` when the request names none and the client has none. */
  function ExtendedExpiry(c: Client, days: Option<nat>, expiresAt: Option<nat>, now: nat): Option<int> {
    if expiresAt.Some? then Some(expiresAt.value)
    else if days.Some? && days.value > 0 then Some(c.expiresAt.GetOr(now) + days.value * DAY_MS)
    else c.expiresAt
  }

  /** An extension makes the client ACTIVE whatever it was. */
  function ExtendedClient(c: Client, expiresAt: int): Client {
    c.(expiresAt := Some(expiresAt), status := ACTIVE)
  }

  /** The status that a traffic reset writes: computed from the row as it was before the reset's own snapshot. */
  function ResetStatus(c: Client, now: nat): Status {
    if c.status == BLOCKED then ResolveEffectiveStatus(c.(status := ACTIVE), 0, now) else c.status
  }

  // ----- the steps of one action -----

  /** The sync of a record at a given time. */
  predicate TurnOf(step: Step, c: Client, now: nat) {
    step.ClientTurn? && step.client == c && step.now == now
  }

  /** The action's own step comes first and the turn of the record it wrote last, with anything in between. */
  predicate Followed(steps: seq<Step>, step: Step, c: Client, now: nat) {
    |steps| >= 2 && steps[0] == step && TurnOf(steps[|steps| - 1], c, now)
  }

  predicate IsSnapshot(step: Step) {
    step.SnapshotLost? || step.SnapshotRecorded?
  }

  ghost predicate HasTurn(steps: seq<Step>, c: Client, now: nat) {
    exists i :: 0 <= i < |steps| && TurnOf(steps[i], c, now)
  }

  ghost predicate HasStep(steps: seq<Step>, step: Step) {
    exists i :: 0 < i < |steps| && steps[i] == step
  }

  /** An expiry that read these rows: after the read comes the write, and then the turn of every client that was read,
      with anything in between. */
  ghost predicate Expiry(read: Batch, steps: seq<Step>, now: nat) {
    if read == map[] then steps == []
    else
      && steps != [] && steps[0] == ExpireReads(now) && HasStep(steps, ExpireWrites(read, true))
      && forall c :: c in ExpiredClients(read) ==> HasTurn(steps, c, now)
  }

  /** An expiry, and then at most a snapshot. */
  ghost predicate Refreshed(read: Batch, steps: seq<Step>, now: nat, took: bool) {
    exists expiry, rest ::
      && Expiry(read, expiry, now) && steps == expiry + rest
      && if took then |rest| == 1 && IsSnapshot(rest[0]) else rest == []
  }

  /** A complete snapshot was taken less than an interval ago. */
  predicate Recent(at: Option<nat>, usageSnapshotIntervalMs: nat, now: nat) {
    at.Some? && now - at.value < usageSnapshotIntervalMs
  }

  lemma RefreshedIs(read: Batch, expiry: seq<Step>, rest: seq<Step>, steps: seq<Step>, now: nat, took: bool)
    requires Expiry(read, expiry, now) && steps == expiry + rest
    requires if took then |rest| == 1 && IsSnapshot(rest[0]) else rest == []
    ensures Refreshed(read, steps, now, took)
  {
  }

  /** The turns of the expired clients that are not left. */
  ghost predicate TurnsBut(steps: seq<Step>, expired: set<Client>, left: set<Client>, now: nat) {
    forall c :: c in expired - left ==> HasTurn(steps, c, now)
  }

  lemma TurnsMore(steps: seq<Step>, more: seq<Step>, expired: set<Client>, left: set<Client>, c: Client, now: nat)
    requires TurnsBut(steps, expired, left, now) && c in left && left <= expired
    requires more != [] && TurnOf(more[|more| - 1], c, now)
    ensures TurnsBut(steps + more, expired, left - {c}, now)
    ensures multiset(left - {c}) == multiset(left) - multiset{c}
  {
    forall x | x in expired - (left - {c}) ensures HasTurn(steps + more, x, now) {
      HasTurnLater(steps, more, x, now);
    }
  }

  /** The read failed, or the write did. */
  ghost predicate FailedExpiry(read: Batch, steps: seq<Step>, now: nat) {
    steps == [] || (steps[0] == ExpireReads(now) && HasStep(steps, ExpireWrites(read, false)))
  }

  lemma HasStepLast(before: seq<Step>, step: Step)
    requires before != []
    ensures HasStep(before + [step], step) && (before + [step])[0] == before[0]
  {
    assert (before + [step])[|before|] == step;
  }

  lemma HasStepLater(steps: seq<Step>, more: seq<Step>, step: Step)
    requires HasStep(steps, step)
    ensures HasStep(steps + more, step)
  {
    var i :| 0 < i < |steps| && steps[i] == step;
    assert (steps + more)[i] == step;
  }

  /** The row is read again and synced. */
  ghost predicate SyncsAgain(steps: seq<Step>, id: ClientId, now: nat) {
    exists i, j :: 0 <= i < j < |steps| && steps[i] == AsksSync(id) && TurnOfId(steps[j], id, now)
  }

  predicate TurnOfId(step: Step, id: ClientId, now: nat) {
    step.ClientTurn? && step.client.id == id && step.now == now
  }

  lemma SyncsAgainAfter(before: seq<Step>, steps: seq<Step>, id: ClientId, now: nat)
    requires |steps| >= 2 && steps[0] == AsksSync(id) && TurnOfId(steps[|steps| - 1], id, now)
    ensures SyncsAgain(before + steps, id, now)
  {
    var all := before + steps;
    assert all[|before|] == steps[0] && all[|all| - 1] == steps[|steps| - 1];
  }

  lemma SyncsAgainLater(before: seq<Step>, steps: seq<Step>, more: seq<Step>, id: ClientId, now: nat)
    requires SyncsAgain(steps, id, now)
    ensures SyncsAgain(before + steps + more, id, now)
  {
    var i, j :| 0 <= i < j < |steps| && steps[i] == AsksSync(id) && TurnOfId(steps[j], id, now);
    var all := before + steps + more;
    assert all[|before| + i] == steps[i] && all[|before| + j] == steps[j];
  }

  /** A snapshot, a step that depends on the row before it, and the turn of a record with the terms of that row. */
  predicate AfterSnapshot(steps: seq<Step>, step: Step, c: Client, status: Status, now: nat) {
    && |steps| >= 3 && IsSnapshot(steps[0]) && steps[1] == step
    && exists i :: 1 < i < |steps| && steps[i].ClientTurn? && steps[i].now == now
                   && SameTerms(c, steps[i].client) && steps[i].client.status == status
  }

  ghost predicate HaveTurns(steps: seq<Step>, cs: seq<Client>, now: nat) {
    forall i :: 0 <= i < |cs| ==> HasTurn(steps, cs[i], now)
  }

  lemma HaveTurnsMore(steps: seq<Step>, more: seq<Step>, cs: seq<Client>, c: Client, now: nat)
    requires HaveTurns(steps, cs, now) && more != [] && TurnOf(more[|more| - 1], c, now)
    ensures HaveTurns(steps + more, cs + [c], now)
  {
    forall i | 0 <= i < |cs| + 1 ensures HasTurn(steps + more, (cs + [c])[i], now) {
      HasTurnLater(steps, more, (cs + [c])[i], now);
    }
  }

  lemma HasTurnLater(steps: seq<Step>, more: seq<Step>, c: Client, now: nat)
    requires HasTurn(steps, c, now) || HasTurn(more, c, now)
    ensures HasTurn(steps + more, c, now)
  {
    if HasTurn(steps, c, now) {
      var i :| 0 <= i < |steps| && TurnOf(steps[i], c, now);
      assert TurnOf((steps + more)[i], c, now);
    } else {
      var i :| 0 <= i < |more| && TurnOf(more[i], c, now);
      assert TurnOf((steps + more)[|steps| + i], c, now);
    }
  }

  lemma FollowedAfterSnapshot(snapshot: Step, steps: seq<Step>, step: Step, c: Client, written: Client, status: Status, now: nat)
    requires IsSnapshot(snapshot) && Followed(steps, step, written, now) && SameTerms(c, written) && written.status == status
    ensures AfterSnapshot([snapshot] + steps, step, c, status, now)
  {
    assert ([snapshot] + steps)[|steps|] == steps[|steps| - 1];
  }

  lemma SnapshotKeepsRow(w: World, step: Step, w': World, id: ClientId)
    requires Next(w, step, w') && IsSnapshot(step) && id in w.table
    ensures id in w'.table && SameTerms(w.table[id].client, w'.table[id].client) && Valid(w'.table)
  {
    NextKeepsValid(w, step, w');
    if step.SnapshotRecorded? {
      SnapshotKeepsTerms(w, step.now, step.cap, step.enforcement, step.complete, w', id);
    }
  }

  lemma ResetIsWritten(w: World, id: ClientId, status: Status)
    requires Valid(w.table) && id in w.table
    ensures Next(w, ResetTraffic(id, status), AfterReset(w, id, status)) && Valid(AfterReset(w, id, status).table)
  {
    SameIdentityValid(w.table, Account(w.table[id].client.(status := status), map[]));
  }

  class Service {
    const xrayService: XrayService.Service

    constructor (xrayService: XrayService.Service)
      ensures this.xrayService == xrayService
    {
      this.xrayService := xrayService;
    }

    /** Whatever others do first, and then the turn of one of the records that the caller has to sync. A failure is
        ignored. */
    method SyncClientBestEffort(c: Client, now: nat, ghost mine: multiset<Client>) returns (ghost steps: seq<Step>)
      requires Valid(xrayService.db.table) && c in mine && mine <= xrayService.waiting
      modifies xrayService, xrayService.db, xrayService.xray
      ensures Reaches(old(xrayService.State()), steps, xrayService.State())
      ensures Valid(xrayService.db.table) && mine - multiset{c} <= xrayService.waiting
      ensures steps != [] && TurnOf(steps[|steps| - 1], c, now)
      ensures xrayService.Failures() >= old(xrayService.Failures())
      ensures xrayService.Failures() == old(xrayService.Failures()) ==> AllWell(steps)
    {
      ghost var start := xrayService.State();
      steps := xrayService.Others(mine, multiset{});
      ghost var mid := xrayService.State();
      ghost var turn, ok := xrayService.SyncClient(c, now);
      ReachMore(start, steps, mid, ClientTurn(c, now, turn, ok), xrayService.State());
      steps := steps + [ClientTurn(c, now, turn, ok)];
    }

    /** The transaction that writes one account; it asks for a sync of the record. */
    method CommitAccount(a: Account) returns (ok: bool)
      modifies xrayService`waiting, xrayService.db`table, xrayService.db`failures
      ensures xrayService.Failures() >= old(xrayService.Failures()) + if ok then 0 else 1
      ensures xrayService.State() == if ok then Written(old(xrayService.State()), a) else old(xrayService.State())
    {
      ok := xrayService.db.Commit(xrayService.db.table[a.client.id := a]);
      if ok {
        xrayService.waiting := xrayService.waiting + multiset{a.client};
      }
    }

    /** Writes one account and syncs its client. Without `ok` the transaction failed. */
    method WriteAccount(a: Account, now: nat, ghost step: Step) returns (ok: bool, ghost steps: seq<Step>)
      requires Next(xrayService.State(), step, Written(xrayService.State(), a)) && Valid(Written(xrayService.State(), a).table)
      requires WentWell(step)
      modifies xrayService, xrayService.db, xrayService.xray
      ensures Reaches(old(xrayService.State()), steps, xrayService.State()) && Valid(xrayService.db.table)
      ensures xrayService.Failures() >= old(xrayService.Failures()) + if ok then 0 else 1
      ensures xrayService.Failures() == old(xrayService.Failures()) ==> AllWell(steps)
      ensures if ok then Followed(steps, step, a.client, now) else steps == [] && xrayService.State() == old(xrayService.State())
    {
      ghost var start := xrayService.State();
      steps := [];
      ok := CommitAccount(a);
      if ok {
        steps := Finish(a.client, now, start, step);
      } else {
        ReachNone(start);
      }
    }

    /** After the transaction: the sync of the one record. */
    method Finish(c: Client, now: nat, ghost start: World, ghost step: Step) returns (ghost steps: seq<Step>)
      requires Next(start, step, xrayService.State()) && Valid(xrayService.db.table) && c in xrayService.waiting && WentWell(step)
      modifies xrayService, xrayService.db, xrayService.xray
      ensures Reaches(start, steps, xrayService.State()) && Valid(xrayService.db.table)
      ensures Followed(steps, step, c, now)
      ensures xrayService.Failures() >= old(xrayService.Failures())
      ensures xrayService.Failures() == old(xrayService.Failures()) ==> AllWell(steps)
    {
      ghost var mid := xrayService.State();
      ReachOne(start, step, mid);
      var more := SyncClientBestEffort(c, now, multiset{c});
      ReachBoth(start, [step], mid, more, xrayService.State());
      steps := [step] + more;
    }

    /** Reads the active clients whose term has passed, sets those rows to EXPIRED whatever they say by then, and syncs
        them. Without `ok` one of the two calls failed. */
    method ExpireClients(now: nat) returns (ok: bool, ghost steps: seq<Step>)
      requires Valid(xrayService.db.table)
      modifies xrayService, xrayService.db, xrayService.xray
      ensures Reaches(old(xrayService.State()), steps, xrayService.State()) && Valid(xrayService.db.table)
      ensures
        var read := ExpiredRows(old(xrayService.db.table), now);
        if ok then Expiry(read, steps, now) else FailedExpiry(read, steps, now)
      ensures xrayService.Failures() >= old(xrayService.Failures()) + if ok then 0 else 1
      ensures xrayService.Failures() == old(xrayService.Failures()) ==> AllWell(steps)
    {
      ghost var start := xrayService.State();
      steps := [];
      ReachNone(start);
      var expiredClients := xrayService.db.FindExpired(now);
      if expiredClients.None? || expiredClients.value == map[] {
        return expiredClients.Some?, [];
      }
      var read := expiredClients.value;
      xrayService.expiring := xrayService.expiring + multiset{read};
      ReachOne(start, ExpireReads(now), xrayService.State());
      ok, steps := WriteExpired(read, now, start, [ExpireReads(now)]);
      if ok {
        steps := SyncExpired(read, now, start, steps);
      }
    }

    /** The second call, after whatever others did since the first. */
    method WriteExpired(read: Batch, now: nat, ghost start: World, ghost before: seq<Step>) returns (ok: bool, ghost steps: seq<Step>)
      requires Reaches(start, before, xrayService.State()) && Valid(xrayService.db.table) && read in xrayService.expiring
      requires before != [] && before[0] == ExpireReads(now) && AllWell(before)
      modifies xrayService, xrayService.db, xrayService.xray
      ensures Reaches(start, steps, xrayService.State()) && Valid(xrayService.db.table)
      ensures steps != [] && steps[0] == ExpireReads(now) && HasStep(steps, ExpireWrites(read, ok))
      ensures xrayService.Failures() >= old(xrayService.Failures()) + if ok then 0 else 1
      ensures xrayService.Failures() == old(xrayService.Failures()) ==> AllWell(steps)
      ensures ok ==> multiset(ExpiredClients(read)) <= xrayService.waiting
    {
      steps := LetOthersAct(start, before, multiset{}, multiset{read});
      HasStepLast(steps, ExpireWrites(read, true));
      HasStepLast(steps, ExpireWrites(read, false));
      ok, steps := CommitExpired(read, start, steps);
    }

    /** What others do, added to a run so far. */
    method LetOthersAct(ghost start: World, ghost before: seq<Step>, ghost mine: multiset<Client>, ghost read: multiset<Batch>)
        returns (ghost steps: seq<Step>)
      requires Reaches(start, before, xrayService.State()) && Valid(xrayService.db.table)
      requires mine <= xrayService.waiting && read <= xrayService.expiring
      modifies xrayService, xrayService.db, xrayService.xray
      ensures Reaches(start, steps, xrayService.State()) && Valid(xrayService.db.table)
      ensures mine <= xrayService.waiting && read <= xrayService.expiring && before <= steps
      ensures xrayService.Failures() >= old(xrayService.Failures())
      ensures xrayService.Failures() == old(xrayService.Failures()) && AllWell(before) ==> AllWell(steps)
    {
      ghost var mid := xrayService.State();
      ghost var more := xrayService.Others(mine, read);
      ReachBoth(start, before, mid, more, xrayService.State());
      steps := before + more;
    }

    method CommitExpired(read: Batch, ghost start: World, ghost before: seq<Step>) returns (ok: bool, ghost steps: seq<Step>)
      requires Valid(xrayService.db.table) && read in xrayService.expiring && Reaches(start, before, xrayService.State())
      modifies xrayService`expiring, xrayService`waiting, xrayService.db`table, xrayService.db`failures
      ensures xrayService.Failures() >= old(xrayService.Failures()) + if ok then 0 else 1
      ensures Reaches(start, steps, xrayService.State()) && Valid(xrayService.db.table)
      ensures steps == before + [ExpireWrites(read, ok)] && (AllWell(steps) <==> AllWell(before) && ok)
      ensures ok ==> multiset(ExpiredClients(read)) <= xrayService.waiting
    {
      ghost var mid := xrayService.State();
      ok := WriteRows(read);
      ReachMore(start, before, mid, ExpireWrites(read, ok), xrayService.State());
      steps := before + [ExpireWrites(read, ok)];
    }

    method WriteRows(read: Batch) returns (ok: bool)
      requires Valid(xrayService.db.table) && read in xrayService.expiring
      modifies xrayService`expiring, xrayService`waiting, xrayService.db`table, xrayService.db`failures
      ensures xrayService.Failures() >= old(xrayService.Failures()) + if ok then 0 else 1
      ensures Next(old(xrayService.State()), ExpireWrites(read, ok), xrayService.State()) && Valid(xrayService.db.table)
      ensures ok ==> multiset(ExpiredClients(read)) <= xrayService.waiting
    {
      ExpireKeepsValid(xrayService.db.table, read.Keys);
      ok := xrayService.db.Commit(ExpiredTable(xrayService.db.table, read.Keys));
      xrayService.expiring := xrayService.expiring - multiset{read};
      if ok {
        xrayService.waiting := xrayService.waiting + multiset(ExpiredClients(read));
      }
    }

    method SyncExpired(read: Batch, now: nat, ghost start: World, ghost before: seq<Step>) returns (ghost steps: seq<Step>)
      requires Reaches(start, before, xrayService.State()) && Valid(xrayService.db.table)
      requires multiset(ExpiredClients(read)) <= xrayService.waiting
      requires before != [] && before[0] == ExpireReads(now) && HasStep(before, ExpireWrites(read, true))
      modifies xrayService, xrayService.db, xrayService.xray
      ensures Reaches(start, steps, xrayService.State()) && Valid(xrayService.db.table)
      ensures steps != [] && steps[0] == ExpireReads(now) && HasStep(steps, ExpireWrites(read, true))
      ensures forall c :: c in ExpiredClients(read) ==> HasTurn(steps, c, now)
      ensures xrayService.Failures() >= old(xrayService.Failures())
      ensures xrayService.Failures() == old(xrayService.Failures()) && AllWell(before) ==> AllWell(steps)
    {
      steps := before;
      var left := ExpiredClients(read);
      while left != {}
        invariant left <= ExpiredClients(read) && multiset(left) <= xrayService.waiting
        invariant Reaches(start, steps, xrayService.State()) && Valid(xrayService.db.table)
        invariant steps != [] && steps[0] == ExpireReads(now) && HasStep(steps, ExpireWrites(read, true))
        invariant TurnsBut(steps, ExpiredClients(read), left, now)
        invariant xrayService.Failures() >= old(xrayService.Failures()) && (xrayService.Failures() == old(xrayService.Failures()) && AllWell(before) ==> AllWell(steps))
      {
        var c :| c in left;
        ghost var mid, soFar := xrayService.State(), steps;
        ghost var more := SyncClientBestEffort(c, now, multiset(left));
        ReachBoth(start, steps, mid, more, xrayService.State());
        HasStepLater(soFar, more, ExpireWrites(read, true));
        TurnsMore(soFar, more, ExpiredClients(read), left, c, now);
        steps := steps + more;
        left := left - {c};
      }
    }

    /** What looking at a client does first: expiry, then a snapshot unless one is recent. */
    method Refresh(usageSnapshotIntervalMs: nat, now: nat) returns (ok: bool, ghost took: bool, ghost steps: seq<Step>)
      requires Valid(xrayService.db.table)
      modifies xrayService, xrayService.db, xrayService.xray
      ensures Reaches(old(xrayService.State()), steps, xrayService.State()) && Valid(xrayService.db.table)
      ensures
        var read := ExpiredRows(old(xrayService.db.table), now);
        if ok then Refreshed(read, steps, now, took) else FailedExpiry(read, steps, now)
      ensures ok && !took ==> Recent(xrayService.lastStatsSnapshotAt, usageSnapshotIntervalMs, now)
      ensures xrayService.Failures() >= old(xrayService.Failures()) + if ok then 0 else 1
      ensures xrayService.Failures() == old(xrayService.Failures()) ==> AllWell(steps)
    {
      ghost var start := xrayService.State();
      took := false;
      ok, steps := ExpireClients(now);
      if !ok {
        return;
      }
      ghost var mid, expiry := xrayService.State(), steps;
      ghost var rest;
      took, rest := SnapshotUnlessRecent(usageSnapshotIntervalMs, now);
      ReachBoth(start, expiry, mid, rest, xrayService.State());
      steps := expiry + rest;
      RefreshedIs(ExpiredRows(start.table, now), expiry, rest, steps, now, took);
    }

    method SnapshotUnlessRecent(usageSnapshotIntervalMs: nat, now: nat) returns (ghost took: bool, ghost steps: seq<Step>)
      requires Valid(xrayService.db.table)
      modifies xrayService, xrayService.db, xrayService.xray
      ensures Reaches(old(xrayService.State()), steps, xrayService.State()) && Valid(xrayService.db.table)
      ensures if took then |steps| == 1 && IsSnapshot(steps[0])
              else steps == [] && Recent(xrayService.lastStatsSnapshotAt, usageSnapshotIntervalMs, now)
      ensures xrayService.Failures() >= old(xrayService.Failures())
      ensures xrayService.Failures() == old(xrayService.Failures()) ==> AllWell(steps)
    {
      ghost var start := xrayService.State();
      ReachNone(start);
      took, steps := false, [];
      var result;
      ghost var step;
      result, step := xrayService.CaptureUsageSnapshot(false, usageSnapshotIntervalMs, now);
      if step.Some? {
        NextKeepsValid(start, step.value, xrayService.State());
        ReachOne(start, step.value, xrayService.State());
        took, steps := true, [step.value];
      }
    }

    /** Refused without a transport, and by the unique indexes for an id, a tag, a uuid or a token in use. */
    method Create(p: CreatePayload, drawn: Identity, owner: string, now: nat) returns (ok: bool, ghost steps: seq<Step>)
      requires Valid(xrayService.db.table)
      modifies xrayService, xrayService.db, xrayService.xray
      ensures Reaches(old(xrayService.State()), steps, xrayService.State()) && Valid(xrayService.db.table)
      ensures
        var c := CreatedClient(p, drawn, owner, now);
        if ok then Followed(steps, Step.Create(c, map[]), c, now) && !InUse(old(xrayService.db.table), c) && (c.vlessEnabled || c.wireguardEnabled)
        else steps == [] && xrayService.State() == old(xrayService.State())
      ensures
        var c := CreatedClient(p, drawn, owner, now);
        xrayService.Failures() >= old(xrayService.Failures())
          + if ok || InUse(old(xrayService.db.table), c) || !(c.vlessEnabled || c.wireguardEnabled) then 0 else 1
      ensures xrayService.Failures() == old(xrayService.Failures()) ==> AllWell(steps)
    {
      var created := CreatedClient(p, drawn, owner, now);
      ReachNone(xrayService.State());
      var table := xrayService.db.table;
      if (!created.vlessEnabled && !created.wireguardEnabled) || InUse(table, created) {
        return false, [];
      }
      ok, steps := WriteAccount(Account(created, map[]), now, Step.Create(created, map[]));
    }

    /** Others may act between the read of the row and its write: what is written is computed from the row as it was
        read, on top of the row as it is by then. Without `ok` nothing is written. */
    method Update(id: ClientId, payload: UpdatePayload, now: nat)
        returns (ok: bool, ghost before: seq<Step>, ghost mid: World, ghost steps: seq<Step>)
      requires Valid(xrayService.db.table)
      modifies xrayService, xrayService.db, xrayService.xray
      ensures Reaches(old(xrayService.State()), before, mid) && Reaches(mid, steps, xrayService.State()) && Valid(xrayService.db.table)
      ensures if ok
        then id in old(xrayService.db.table) && id in mid.table
             && (var next := AfterUpdate(mid.table[id].client, old(xrayService.db.table)[id].client, payload, now);
                 Followed(steps, Edit(next, None), next, now) && (next.vlessEnabled || next.wireguardEnabled))
        else steps == [] && xrayService.State() == mid
      ensures !ok && xrayService.Failures() == old(xrayService.Failures()) ==>
        || id !in old(xrayService.db.table) || id !in mid.table
        || (var next := UpdatedClient(old(xrayService.db.table)[id].client, payload, now); !next.vlessEnabled && !next.wireguardEnabled)
      ensures xrayService.Failures() >= old(xrayService.Failures())
      ensures xrayService.Failures() == old(xrayService.Failures()) ==> AllWell(before) && AllWell(steps)
    {
      before, steps, mid := [], [], xrayService.State();
      ReachNone(mid);
      if id !in xrayService.db.table {
        return false, before, mid, steps;
      }
      var read := xrayService.db.table[id].client;
      var next := UpdatedClient(read, payload, now);
      if !next.vlessEnabled && !next.wireguardEnabled {
        return false, before, mid, steps;
      }
      before := xrayService.Others(multiset{}, multiset{});
      mid := xrayService.State();
      ReachNone(mid);
      if id !in xrayService.db.table {
        return false, before, mid, steps;
      }
      var row := xrayService.db.table[id];
      ok, steps := WriteClient(AfterUpdate(row.client, read, payload, now), now);
    }

    /** One row's columns are written, its usage stays. */
    method WriteClient(c: Client, now: nat) returns (ok: bool, ghost steps: seq<Step>)
      requires Valid(xrayService.db.table) && c.id in xrayService.db.table && SameIdentity(xrayService.db.table[c.id].client, c)
      modifies xrayService, xrayService.db, xrayService.xray
      ensures Reaches(old(xrayService.State()), steps, xrayService.State()) && Valid(xrayService.db.table)
      ensures xrayService.Failures() >= old(xrayService.Failures()) + if ok then 0 else 1
      ensures xrayService.Failures() == old(xrayService.Failures()) ==> AllWell(steps)
      ensures if ok then Followed(steps, Edit(c, None), c, now) else steps == [] && xrayService.State() == old(xrayService.State())
    {
      var a := Account(c, xrayService.db.table[c.id].rows);
      SameIdentityValid(xrayService.db.table, a);
      ok, steps := WriteAccount(a, now, Edit(c, None));
    }

    /** Without any new term the client is only looked at. */
    method Extend(id: ClientId, days: Option<nat>, expiresAt: Option<nat>, usageSnapshotIntervalMs: nat, now: nat)
        returns (ok: bool, ghost before: seq<Step>, ghost mid: World, ghost steps: seq<Step>)
      requires Valid(xrayService.db.table)
      modifies xrayService, xrayService.db, xrayService.xray
      ensures Reaches(old(xrayService.State()), before, mid) && Reaches(mid, steps, xrayService.State()) && Valid(xrayService.db.table)
      ensures id !in old(xrayService.db.table) ==> !ok && xrayService.State() == old(xrayService.State())
      ensures id in old(xrayService.db.table) ==>
        var until := ExtendedExpiry(old(xrayService.db.table)[id].client, days, expiresAt, now);
        if until.None? then
          && mid == old(xrayService.State())
          && var read := ExpiredRows(old(xrayService.db.table), now);
             if ok then exists took :: Refreshed(read, steps, now, took) else FailedExpiry(read, steps, now)
        else if ok then
          && id in mid.table
          && var next := ExtendedClient(mid.table[id].client, until.value); Followed(steps, Edit(next, None), next, now)
        else steps == [] && xrayService.State() == mid
      ensures !ok && xrayService.Failures() == old(xrayService.Failures()) ==> id !in old(xrayService.db.table) || id !in mid.table
      ensures xrayService.Failures() >= old(xrayService.Failures())
      ensures xrayService.Failures() == old(xrayService.Failures()) ==> AllWell(before) && AllWell(steps)
    {
      before, steps, mid := [], [], xrayService.State();
      ReachNone(mid);
      if id !in xrayService.db.table {
        return false, before, mid, steps;
      }
      var until := ExtendedExpiry(xrayService.db.table[id].client, days, expiresAt, now);
      if until.None? {
        ghost var took;
        ok, took, steps := Refresh(usageSnapshotIntervalMs, now);
        return ok, before, mid, steps;
      }
      before := xrayService.Others(multiset{}, multiset{});
      mid := xrayService.State();
      ReachNone(mid);
      if id !in xrayService.db.table {
        return false, before, mid, steps;
      }
      ok, steps := WriteClient(ExtendedClient(xrayService.db.table[id].client, until.value), now);
    }

    /** A forced snapshot, whose failure is ignored, the reset proper, a sync of the row as it is read again, and a look at
        the client. The status comes from the row as it was before the snapshot, so a block by that very snapshot
        is written over. Others may act between all of these. */
    method ResetTraffic(id: ClientId, usageSnapshotIntervalMs: nat, now: nat)
        returns (ok: bool, found: bool, ghost before: seq<Step>, ghost mid: World, ghost steps: seq<Step>)
      requires Valid(xrayService.db.table)
      modifies xrayService, xrayService.db, xrayService.xray
      ensures Reaches(old(xrayService.State()), before, mid) && Reaches(mid, steps, xrayService.State()) && Valid(xrayService.db.table)
      ensures if id in old(xrayService.db.table) then before != [] && IsSnapshot(before[0]) else !ok && before == []
      ensures if ok
        then id in mid.table && steps != [] && steps[0] == Step.ResetTraffic(id, ResetStatus(old(xrayService.db.table)[id].client, now))
        else steps == [] && xrayService.State() == mid
      ensures found ==> ok && SyncsAgain(steps, id, now)
      ensures ok && !found ==> id !in xrayService.db.table
      ensures !ok && xrayService.Failures() == old(xrayService.Failures()) ==> id !in old(xrayService.db.table) || id !in mid.table
      ensures xrayService.Failures() >= old(xrayService.Failures())
      ensures xrayService.Failures() == old(xrayService.Failures()) ==> AllWell(before) && AllWell(steps)
    {
      found, before, steps, mid := false, [], [], xrayService.State();
      ReachNone(mid);
      if id !in xrayService.db.table {
        return false, found, before, mid, steps;
      }
      var status := ResetStatus(xrayService.db.table[id].client, now);
      before := SnapshotAndOthers(now);
      mid := xrayService.State();
      ReachNone(mid);
      ok := id in xrayService.db.table;
      if ok {
        ok := CommitReset(id, status);
      }
      if ok {
        ReachOne(mid, Step.ResetTraffic(id, status), xrayService.State());
        found, steps := LookAfterReset(id, status, usageSnapshotIntervalMs, now, mid);
      }
    }

    method SnapshotAndOthers(now: nat) returns (ghost steps: seq<Step>)
      requires Valid(xrayService.db.table)
      modifies xrayService, xrayService.db, xrayService.xray
      ensures Reaches(old(xrayService.State()), steps, xrayService.State()) && Valid(xrayService.db.table)
      ensures steps != [] && IsSnapshot(steps[0])
      ensures xrayService.Failures() >= old(xrayService.Failures())
      ensures xrayService.Failures() == old(xrayService.Failures()) ==> AllWell(steps)
    {
      ghost var start := xrayService.State();
      var result;
      ghost var snapshot;
      result, snapshot := xrayService.PerformCaptureUsageSnapshot(now);
      ghost var mid := xrayService.State();
      NextKeepsValid(start, snapshot, mid);
      ReachOne(start, snapshot, mid);
      ghost var more := xrayService.Others(multiset{}, multiset{});
      ReachBoth(start, [snapshot], mid, more, xrayService.State());
      steps := [snapshot] + more;
    }

    method CommitReset(id: ClientId, status: Status) returns (ok: bool)
      requires Valid(xrayService.db.table) && id in xrayService.db.table
      modifies xrayService.db`table, xrayService.db`failures
      ensures Valid(xrayService.db.table)
      ensures xrayService.Failures() >= old(xrayService.Failures()) + if ok then 0 else 1
      ensures if ok then Next(old(xrayService.State()), Step.ResetTraffic(id, status), xrayService.State())
              else xrayService.State() == old(xrayService.State())
    {
      ResetIsWritten(xrayService.State(), id, status);
      var a := Account(xrayService.db.table[id].client.(status := status), map[]);
      ok := xrayService.db.Commit(xrayService.db.table[id := a]);
    }

    /** The rest of a reset, after its transaction. */
    method LookAfterReset(id: ClientId, status: Status, usageSnapshotIntervalMs: nat, now: nat, ghost start: World)
        returns (found: bool, ghost steps: seq<Step>)
      requires Reaches(start, [Step.ResetTraffic(id, status)], xrayService.State()) && Valid(xrayService.db.table)
      modifies xrayService, xrayService.db, xrayService.xray
      ensures Reaches(start, steps, xrayService.State()) && Valid(xrayService.db.table)
      ensures steps != [] && steps[0] == Step.ResetTraffic(id, status)
      ensures found ==> SyncsAgain(steps, id, now)
      ensures !found ==> id !in xrayService.db.table
      ensures xrayService.Failures() >= old(xrayService.Failures())
      ensures xrayService.Failures() == old(xrayService.Failures()) ==> AllWell(steps)
    {
      ghost var reset := [Step.ResetTraffic(id, status)];
      ghost var w1 := xrayService.State();
      ghost var sync;
      found, sync := SyncRowAgain(id, now);
      ghost var w2 := xrayService.State();
      ReachBoth(start, reset, w1, sync, w2);
      steps := reset + sync;
      if found {
        ghost var look := Look(usageSnapshotIntervalMs, now);
        ReachBoth(start, steps, w2, look, xrayService.State());
        SyncsAgainLater(reset, sync, look, id, now);
        steps := steps + look;
      }
    }

    method Look(usageSnapshotIntervalMs: nat, now: nat) returns (ghost steps: seq<Step>)
      requires Valid(xrayService.db.table)
      modifies xrayService, xrayService.db, xrayService.xray
      ensures Reaches(old(xrayService.State()), steps, xrayService.State()) && Valid(xrayService.db.table)
      ensures xrayService.Failures() >= old(xrayService.Failures())
      ensures xrayService.Failures() == old(xrayService.Failures()) ==> AllWell(steps)
    {
      ghost var took;
      var ok;
      ok, took, steps := Refresh(usageSnapshotIntervalMs, now);
    }

    method SyncRowAgain(id: ClientId, now: nat) returns (found: bool, ghost steps: seq<Step>)
      requires Valid(xrayService.db.table)
      modifies xrayService, xrayService.db, xrayService.xray
      ensures Reaches(old(xrayService.State()), steps, xrayService.State()) && Valid(xrayService.db.table)
      ensures found ==> SyncsAgain(steps, id, now)
      ensures !found ==> id !in xrayService.db.table
      ensures xrayService.Failures() >= old(xrayService.Failures())
      ensures xrayService.Failures() == old(xrayService.Failures()) ==> AllWell(steps)
    {
      ghost var start := xrayService.State();
      steps := xrayService.Others(multiset{}, multiset{});
      found := id in xrayService.db.table;
      if found {
        ghost var mid := xrayService.State();
        ghost var more := SyncRow(id, now);
        ReachBoth(start, steps, mid, more, xrayService.State());
        SyncsAgainAfter(steps, more, id, now);
        steps := steps + more;
      }
    }

    method SyncRow(id: ClientId, now: nat) returns (ghost steps: seq<Step>)
      requires Valid(xrayService.db.table) && id in xrayService.db.table
      modifies xrayService, xrayService.db, xrayService.xray
      ensures Reaches(old(xrayService.State()), steps, xrayService.State()) && Valid(xrayService.db.table)
      ensures |steps| >= 2 && steps[0] == AsksSync(id) && TurnOfId(steps[|steps| - 1], id, now)
      ensures xrayService.Failures() >= old(xrayService.Failures())
      ensures xrayService.Failures() == old(xrayService.Failures()) ==> AllWell(steps)
    {
      ghost var start := xrayService.State();
      var refreshed := xrayService.db.table[id].client;
      xrayService.waiting := xrayService.waiting + multiset{refreshed};
      steps := Finish(refreshed, now, start, AsksSync(id));
    }

    /** A forced snapshot, the deletion with the client's rows, and one attempt to remove its user. */
    method Remove(id: ClientId, now: nat) returns (ok: bool, ghost steps: seq<Step>)
      requires Valid(xrayService.db.table)
      modifies xrayService, xrayService.db, xrayService.xray
      ensures Reaches(old(xrayService.State()), steps, xrayService.State()) && Valid(xrayService.db.table)
      ensures id !in old(xrayService.db.table) ==> !ok && steps == []
      ensures id in old(xrayService.db.table) && !ok ==> |steps| == 1 && IsSnapshot(steps[0])
      ensures ok ==> AfterSnapshot(steps, Delete(id), old(xrayService.db.table)[id].client, DISABLED, now)
      ensures xrayService.Failures() >= old(xrayService.Failures()) + if ok || id !in old(xrayService.db.table) then 0 else 1
      ensures xrayService.Failures() == old(xrayService.Failures()) ==> AllWell(steps)
    {
      ghost var start := xrayService.State();
      ReachNone(start);
      if id !in xrayService.db.table {
        return false, [];
      }
      var result;
      ghost var snapshot;
      result, snapshot := xrayService.PerformCaptureUsageSnapshot(now);
      ghost var mid := xrayService.State();
      SnapshotKeepsRow(start, snapshot, mid, id);
      ReachOne(start, snapshot, mid);
      ok, steps := RemoveAfter(id, now, start, snapshot, start.table[id].client);
    }

    method RemoveAfter(id: ClientId, now: nat, ghost start: World, ghost snapshot: Step, ghost c: Client)
        returns (ok: bool, ghost steps: seq<Step>)
      requires Reaches(start, [snapshot], xrayService.State()) && Valid(xrayService.db.table) && IsSnapshot(snapshot)
      requires id in xrayService.db.table && SameTerms(c, xrayService.db.table[id].client)
      modifies xrayService, xrayService.db, xrayService.xray
      ensures Reaches(start, steps, xrayService.State()) && Valid(xrayService.db.table)
      ensures if ok then AfterSnapshot(steps, Delete(id), c, DISABLED, now) else steps == [snapshot]
      ensures xrayService.Failures() >= old(xrayService.Failures()) + if ok then 0 else 1
      ensures xrayService.Failures() == old(xrayService.Failures()) && WentWell(snapshot) ==> AllWell(steps)
    {
      ghost var mid := xrayService.State();
      ok, steps := DeleteAccount(id, now);
      ReachBoth(start, [snapshot], mid, steps, xrayService.State());
      if ok {
        FollowedAfterSnapshot(snapshot, steps, Delete(id), c, mid.table[id].client.(status := DISABLED), DISABLED, now);
      }
      steps := [snapshot] + steps;
    }

    method DeleteAccount(id: ClientId, now: nat) returns (ok: bool, ghost steps: seq<Step>)
      requires Valid(xrayService.db.table) && id in xrayService.db.table
      modifies xrayService, xrayService.db, xrayService.xray
      ensures Reaches(old(xrayService.State()), steps, xrayService.State()) && Valid(xrayService.db.table)
      ensures if ok then Followed(steps, Delete(id), old(xrayService.db.table)[id].client.(status := DISABLED), now)
              else steps == [] && xrayService.State() == old(xrayService.State())
      ensures xrayService.Failures() >= old(xrayService.Failures()) + if ok then 0 else 1
      ensures xrayService.Failures() == old(xrayService.Failures()) ==> AllWell(steps)
    {
      ghost var start := xrayService.State();
      var gone := xrayService.db.table[id].client.(status := DISABLED);
      steps := [];
      ReachNone(start);
      ok := xrayService.db.Commit(xrayService.db.table - {id});
      if ok {
        DeleteKeepsValid(start.table, id);
        xrayService.waiting := xrayService.waiting + multiset{gone};
        steps := Finish(gone, now, start, Delete(id));
      }
    }
  }

  /** A unique index refuses the record. */
  predicate InUse(table: Table, c: Client) {
    c.id in table || exists id :: id in table && Clashes(table[id].client, c)
  }

  predicate Clashes(a: Client, b: Client) {
    a.emailTag == b.emailTag || a.uuid == b.uuid || a.subscriptionToken == b.subscriptionToken
  }

  /** A new record is refused exactly when its id is taken or the unique indexes would not survive it. */
  lemma InUseExactly(table: Table, c: Client)
    requires Valid(table)
    ensures InUse(table, c) <==> c.id in table || !Valid(table[c.id := Account(c, map[])])
  {
    var after := table[c.id := Account(c, map[])];
    if c.id !in table && Valid(after) {
      forall id | id in table ensures !Clashes(table[id].client, c) {
        assert after[id] == table[id] && after[c.id].client == c;
      }
    }
  }

  // ----- what a creation, an update, an extension and a reset ask for -----

  /** Extending by some days and then by more is extending by all of them at once, whenever that happens. */
  lemma ExtensionsAdd(c: Client, a: nat, b: nat, now: nat, later: nat)
    requires a > 0 && b > 0
    ensures
      var once := ExtendedExpiry(c, Some(a), None, now);
      && once.Some?
      && ExtendedExpiry(ExtendedClient(c, once.value), Some(b), None, later) == ExtendedExpiry(c, Some(a + b), None, now)
  {
  }

  /** An extension by days counts from the end of the term, or from now if there is none, so that it never moves an end
      to an earlier time; a date in the request wins; no days and no date leave the end as it is. */
  lemma ExtensionExactly(c: Client, days: nat, date: nat, now: nat)
    ensures
      var until := ExtendedExpiry(c, Some(days), None, now);
      && (c.expiresAt.Some? ==> until.Some? && until.value - c.expiresAt.value == days * 86_400_000)
      && (c.expiresAt.None? && days > 0 ==> until.Some? && until.value - now == days * 86_400_000)
      && (c.expiresAt.None? && days == 0 ==> until.None?)
    ensures ExtendedExpiry(c, Some(days), Some(date), now) == ExtendedExpiry(c, None, Some(date), now) == Some(date)
    ensures ExtendedExpiry(c, None, None, now) == c.expiresAt
  {
  }

  /** What becomes of somebody else's write between the read and the write of an update that does not mention the column: the
      name, the limits, the duration and the transport's profile stay, the term's ends and the switches are put back. */
  lemma UpdatePutsBackExactly(row: Client, read: Client, p: UpdatePayload, now: nat)
    ensures
      var next := AfterUpdate(row, read, p, now);
      && SameIdentity(row, next) && next.createdAt == row.createdAt && next.createdByAdminUserId == row.createdByAdminUserId
      && next.lastSeenAt == row.lastSeenAt && next.lastActivatedAt == row.lastActivatedAt
      && (p.displayName.None? ==> next.displayName == row.displayName)
      && (p.deviceLimit.None? ==> next.deviceLimit == row.deviceLimit) && (p.ipLimit.None? ==> next.ipLimit == row.ipLimit)
      && (p.durationDays.None? ==> next.durationDays == row.durationDays)
      && (p.transportProfile.None? ==> next.transportProfile == row.transportProfile)
      && (p.trafficLimitBytes.None? && p.isTrafficUnlimited.None? ==> next.trafficLimitBytes == row.trafficLimitBytes)
      && (p.startsAt.None? ==> next.startsAt == read.startsAt)
      && (p.expiresAt.None? && p.durationDays.None? ==> next.expiresAt == read.expiresAt)
      && (p.isTrafficUnlimited.None? ==> next.isTrafficUnlimited == read.isTrafficUnlimited)
      && (p.vlessEnabled.None? ==> next.vlessEnabled == read.vlessEnabled)
      && (p.wireguardEnabled.None? ==> next.wireguardEnabled == read.wireguardEnabled)
  {
  }

  /** Every column that an update mentions has the mentioned value afterwards, every other one keeps its own. */
  lemma UpdateWritesColumns(c: Client, p: UpdatePayload, now: nat)
    ensures
      var next := UpdatedClient(c, p, now);
      && next.displayName == (if p.displayName.Some? then Trim(p.displayName.value) else c.displayName)
      && next.deviceLimit == p.deviceLimit.GetOr(c.deviceLimit) && next.ipLimit == p.ipLimit.GetOr(c.ipLimit)
      && next.vlessEnabled == p.vlessEnabled.GetOr(c.vlessEnabled) && next.wireguardEnabled == p.wireguardEnabled.GetOr(c.wireguardEnabled)
      && next.transportProfile == p.transportProfile.GetOr(c.transportProfile)
      && next.isTrafficUnlimited == p.isTrafficUnlimited.GetOr(c.isTrafficUnlimited)
      && (p.trafficLimitBytes.Some? && !next.isTrafficUnlimited ==> next.trafficLimitBytes == p.trafficLimitBytes.value)
      && (p.trafficLimitBytes.None? && p.isTrafficUnlimited.None? ==> next.trafficLimitBytes == c.trafficLimitBytes)
      && (p.startsAt.None? ==> next.startsAt == c.startsAt)
      && (p.startsAt.Some? && p.startsAt.value.Some? ==> next.startsAt == Some(p.startsAt.value.value))
      && (p.startsAt == Some(None) ==> next.startsAt.None?)
  {
  }

  /** The end of term after an update: the mentioned date, or the mentioned days after the start, or, when neither is
      mentioned, the old end; a null takes it away. */
  lemma UpdateSetsTerm(c: Client, p: UpdatePayload, date: nat, days: nat, now: nat)
    ensures
      var next := UpdatedClient(c, p, now);
      && (p.expiresAt == Some(Some(date)) ==> next.expiresAt == Some(date))
      && (p.expiresAt == Some(None) ==> next.expiresAt.None?)
      && (p.expiresAt.None? && p.durationDays == Some(Some(days)) && days > 0 ==>
            next.expiresAt.Some? && next.expiresAt.value - next.startsAt.GetOr(now) == days * 86_400_000)
      && (p.expiresAt.None? && (p.durationDays == Some(None) || p.durationDays == Some(Some(0))) ==> next.expiresAt.None?)
      && (p.expiresAt.None? && p.durationDays.None? ==> next.expiresAt == c.expiresAt && next.durationDays == c.durationDays)
      && (p.durationDays == Some(Some(days)) ==> next.durationDays == Some(days))
  {
  }

  /** The status after an update: a requested or old DISABLED or BLOCKED stays, otherwise it follows term and quota. */
  lemma UpdateSetsStatus(c: Client, p: UpdatePayload, now: nat)
    ensures
      var next, asked := UpdatedClient(c, p, now), p.status.GetOr(c.status);
      next.status ==
        if asked == DISABLED then DISABLED
        else if asked == BLOCKED then BLOCKED
        else if next.expiresAt.Some? && next.expiresAt.value <= now then EXPIRED
        else if !next.isTrafficUnlimited && next.trafficLimitBytes == Some(0) then BLOCKED
        else ACTIVE
  {
  }

  /** A new client has what the request mentions and these defaults for the rest. */
  lemma CreatedAsAsked(p: CreatePayload, drawn: Identity, owner: string, now: nat, date: nat, days: nat)
    ensures
      var c := CreatedClient(p, drawn, owner, now);
      && c.id == drawn.id && c.uuid == drawn.uuid && c.emailTag == drawn.emailTag && c.subscriptionToken == drawn.subscriptionToken
      && c.displayName == Trim(p.displayName) && c.createdByAdminUserId == Some(owner) && c.createdAt == now
      && c.startsAt == Some(p.startsAt.GetOr(now)) && c.isTrafficUnlimited == p.isTrafficUnlimited.GetOr(false)
      && (!c.isTrafficUnlimited ==> c.trafficLimitBytes == p.trafficLimitBytes) && (c.isTrafficUnlimited ==> c.trafficLimitBytes.None?)
      && c.deviceLimit == p.deviceLimit && c.ipLimit == p.ipLimit && c.transportProfile == p.transportProfile
      && c.vlessEnabled == p.vlessEnabled.GetOr(true) && c.wireguardEnabled == p.wireguardEnabled.GetOr(true)
      && c.lastActivatedAt.None? && c.lastSeenAt.None?
      && (p.expiresAt == Some(Some(date)) ==> c.expiresAt == Some(date))
      && (p.expiresAt == Some(None) ==> c.expiresAt.None?)
      && (p.expiresAt.None? && p.durationDays == Some(days) && days > 0 ==>
            c.expiresAt.Some? && c.expiresAt.value - c.startsAt.value == days * 86_400_000)
      && (p.expiresAt.None? && (p.durationDays.None? || p.durationDays == Some(0)) ==> c.expiresAt.None?)
      && c.status == (
        if p.status == Some(DISABLED) then DISABLED
        else if p.status == Some(BLOCKED) then BLOCKED
        else if c.expiresAt.Some? && c.expiresAt.value <= now then EXPIRED
        else if c.trafficLimitBytes == Some(0) then BLOCKED
        else ACTIVE)
  {
  }

  /** A reset lifts a block unless the term has passed or the quota is zero, and leaves every other status. */
  lemma ResetLiftsBlockExactly(c: Client, now: nat)
    ensures
      var status := ResetStatus(c, now);
      if c.status != BLOCKED then status == c.status
      else if c.expiresAt.Some? && c.expiresAt.value <= now then status == EXPIRED
      else if !c.isTrafficUnlimited && c.trafficLimitBytes == Some(0) then status == BLOCKED
      else status == ACTIVE
  {
  }

  // ----- what an update may change -----

  const NO_CHANGE := UpdatePayload(None, None, None, None, None, None, None, None, None, None, None, None)

  /** Applying the same update again changes nothing more. */
  lemma UpdateIsIdempotent(c: Client, p: UpdatePayload, now: nat)
    ensures UpdatedClient(UpdatedClient(c, p, now), p, now) == UpdatedClient(c, p, now)
  {
    if p.displayName.Some? {
      TrimTrims(p.displayName.value);
    }
  }

  /** No update reaches what identifies a client. */
  lemma UpdateKeepsIdentity(c: Client, p: UpdatePayload, now: nat)
    ensures
      var next := UpdatedClient(c, p, now);
      && SameIdentity(c, next)
      && next.createdByAdminUserId == c.createdByAdminUserId && next.createdAt == c.createdAt
      && next.lastActivatedAt == c.lastActivatedAt && next.lastSeenAt == c.lastSeenAt
  {
  }

  /** An update that does not mention the limit keeps it exactly when it does not mention the switch for unlimited
      traffic either: switching to limited traffic alone leaves a client without any quota. */
  lemma UpdateKeepsLimitExactly(c: Client, p: UpdatePayload, now: nat)
    requires p.trafficLimitBytes.None?
    ensures UpdatedClient(c, p, now).trafficLimitBytes == c.trafficLimitBytes <==> p.isTrafficUnlimited.None? || c.trafficLimitBytes.None?
    ensures p.isTrafficUnlimited == Some(false) ==> Quota(UpdatedClient(c, p, now)) == None
  {
  }

  /** An update that nobody interferes with writes the row that it computes. */
  lemma UndisturbedUpdate(c: Client, p: UpdatePayload, now: nat)
    ensures AfterUpdate(c, c, p, now) == UpdatedClient(c, p, now)
  {
  }

  /** Whatever blocked a client since an update read its row: after the update, of whichever column, the client may run
      exactly when it could if nothing had. */
  lemma RacingUpdateForgetsBlock(read: Client, row: Client, p: UpdatePayload, now: nat)
    requires SameTerms(read, row) && row.status == BLOCKED
    ensures RuntimeActive(AfterUpdate(row, read, p, now), now) <==> RuntimeActive(UpdatedClient(read, p, now), now)
  {
  }

  /** The end of term that an update asks for. */
  function RequestedExpiry(c: Client, p: UpdatePayload, now: nat): Option<int> {
    var startsAt := if p.startsAt.None? then c.startsAt else if p.startsAt.value.Some? then Some(p.startsAt.value.value) else None;
    if p.expiresAt.None? && p.durationDays.None? then c.expiresAt
    else ResolveExpiry(startsAt.GetOr(now), p.expiresAt, OrNull(p.durationDays))
  }

  /** A blocked client stays blocked through every update that mentions no status. If an expiry has written over its block,
      the same update lets it run exactly when the requested term has not passed and the requested quota is not zero. */
  lemma OverwrittenBlockRevivesExactly(c: Client, p: UpdatePayload, now: nat)
    requires c.status == BLOCKED && p.status.None?
    ensures !RuntimeActive(UpdatedClient(c, p, now), now)
    ensures RuntimeActive(UpdatedClient(c.(status := EXPIRED), p, now), now) <==>
      !Expired(RequestedExpiry(c, p, now), now) && RequestedQuota(c, p) != Some(0)
  {
  }

  // ----- what the actions do to the quota -----

  /** An extension undoes a quota block: the quota stays in force exactly when the client is not over it. */
  lemma ExtendKeepsQuotaExactly(w: World, id: ClientId, until: int, w': World)
    requires id in w.table && QuotaSafe(w)
    requires Next(w, Edit(ExtendedClient(w.table[id].client, until), None), w')
    ensures QuotaSafe(w') <==> !OverQuota(w.table[id].client, Used(w.table[id])) || Quota(w.table[id].client) == Some(0)
  {
    WriteKeepsQuotaExactly(w, Account(ExtendedClient(w.table[id].client, until), w.table[id].rows));
  }

  /** After an extension the runtime lets the client in although the panel shows it as blocked, exactly when it is
      over a quota of at least one byte and the new term has not passed. */
  lemma ExtendSplitsViewsExactly(a: Account, until: int, t: nat)
    ensures
      var c := ExtendedClient(a.client, until);
      RuntimeActive(c, t) != ShownActive(c, Used(a), t) <==>
        OverQuota(a.client, Used(a)) && Quota(a.client) != Some(0) && t < until
  {
  }

  /** The quota that an update asks for. */
  function RequestedQuota(c: Client, p: UpdatePayload): Option<nat> {
    if p.trafficLimitBytes.None? && p.isTrafficUnlimited.None? then Quota(c)
    else if p.isTrafficUnlimited.GetOr(c.isTrafficUnlimited) then None
    else OrNull(p.trafficLimitBytes)
  }

  lemma UpdateSetsQuota(c: Client, p: UpdatePayload, now: nat)
    ensures Quota(UpdatedClient(c, p, now)) == RequestedQuota(c, p)
    ensures RequestedQuota(c, p) != Some(0) ==>
      (UpdatedClient(c, p, now).status == BLOCKED <==> p.status.GetOr(c.status) == BLOCKED)
  {
  }

  /** An update recomputes the status as if nothing had been used. So the quota stays in force exactly when the update
      asks for no quota, for one of zero bytes or one above the usage, or leaves or sets the client BLOCKED. */
  lemma UpdateKeepsQuotaExactly(w: World, id: ClientId, p: UpdatePayload, now: nat, w': World)
    requires id in w.table && QuotaSafe(w)
    requires Next(w, Edit(UpdatedClient(w.table[id].client, p, now), None), w')
    ensures
      var c, quota := w.table[id].client, RequestedQuota(w.table[id].client, p);
      QuotaSafe(w') <==>
        quota.None? || quota.value == 0 || Used(w.table[id]) < quota.value || p.status.GetOr(c.status) == BLOCKED
  {
    UpdateSetsQuota(w.table[id].client, p, now);
    WriteKeepsQuotaExactly(w, Account(UpdatedClient(w.table[id].client, p, now), w.table[id].rows));
  }

  /** A complete snapshot, and later a traffic reset with the snapshot that it takes first. */
  ghost predicate SnapshotThenReset(w: World, now: nat, cap: Capture, e: Enforcement, mid: World, own: Step, mid': World,
                                    id: ClientId, t: nat, w': World) {
    && Next(w, SnapshotRecorded(now, cap, e, true), mid)
    && IsSnapshot(own) && Next(mid, own, mid')
    && id in mid.table && Next(mid', ResetTraffic(id, ResetStatus(mid.table[id].client, t)), w')
  }

  lemma ResetWrites(w: World, id: ClientId, status: Status, w': World)
    requires Next(w, ResetTraffic(id, status), w')
    ensures id in w.table && Valid(w.table) && id in w'.table && w'.table[id].client == w.table[id].client.(status := status)
  {
  }

  /** Quota enforcement also overwrites DISABLED, and a reset then leaves the client ACTIVE: a client that an admin
      had disabled runs again after a snapshot and a reset exactly when the snapshot found it over its quota (of at
      least one byte) and its term has not passed. */
  lemma DisabledClientRevivedExactly(w: World, now: nat, cap: Capture, e: Enforcement, mid: World, own: Step, mid': World,
                                     id: ClientId, t: nat, w': World)
    requires id in w.table && w.table[id].client.status == DISABLED
    requires SnapshotThenReset(w, now, cap, e, mid, own, mid', id, t, w')
    ensures
      var c := w.table[id].client;
      && id in w'.table
      && (RuntimeActive(w'.table[id].client, t) <==>
            OverQuotaIn(w.table[id], cap) && Quota(c) != Some(0) && !Expired(c.expiresAt, t))
  {
    SnapshotSetsStatus(w, now, cap, e, mid, id);
    SnapshotKeepsTerms(w, now, cap, e, true, mid, id);
    SnapshotKeepsRow(mid, own, mid', id);
    ResetWrites(mid', id, ResetStatus(mid.table[id].client, t), w');
    RevivedByReset(w.table[id].client, mid.table[id].client, w'.table[id].client, t);
  }

  lemma RevivedByReset(c: Client, mid: Client, c': Client, t: nat)
    requires c.status == DISABLED && (mid.status == DISABLED || mid.status == BLOCKED)
    requires SameTerms(c, mid) && SameTerms(mid, c') && c'.status == ResetStatus(mid, t)
    ensures RuntimeActive(c', t) <==> mid.status == BLOCKED && Quota(c) != Some(0) && !Expired(c.expiresAt, t)
  {
  }
}
