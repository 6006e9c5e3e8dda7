/**
 The state that the control plane keeps consistent, and every step that changes it.

 The client table with its usage rows and the audit log live in PostgreSQL; the user map
 and the traffic counters live in Xray; `provisioned` is the service's own flag. A step
 says what happened, failures included; `Next` says which state follows.
 */
module ControlPlane {

  import opened Basics
  import opened StatNames
  import opened TrafficDeltas
  import opened Clients
  import opened Usage

  const DAY_MS: nat := 86_400_000

  function UtcDay(now: nat): nat {
    now / DAY_MS
  }

  /** A day begins with its first millisecond and has 24 hours. */
  lemma DayIsExact(now: nat, day: nat)
    ensures UtcDay(now) == day <==> day * 24 * 60 * 60 * 1000 <= now < (day + 1) * 24 * 60 * 60 * 1000
  {
  }

  // ----- the client table -----

  /** A client row with the usage rows that refer to it. */
  datatype Account = Account(client: Client, rows: Rows)

  type Table = map<ClientId, Account>

  /** The primary key. */
  ghost predicate Keyed(table: Table) {
    forall id :: id in table ==> table[id].client.id == id
  }

  ghost predicate UniqueTags(table: Table) {
    forall a, b :: a in table && b in table && table[a].client.emailTag == table[b].client.emailTag ==> a == b
  }

  /** The other two unique indexes. */
  ghost predicate UniqueSecrets(table: Table) {
    forall a, b :: a in table && b in table && a != b ==>
      table[a].client.uuid != table[b].client.uuid && table[a].client.subscriptionToken != table[b].client.subscriptionToken
  }

  ghost predicate Valid(table: Table) {
    Keyed(table) && UniqueTags(table) && UniqueSecrets(table)
  }

  /** The client that holds a tag. */
  ghost function Owner(table: Table, tag: string): (owner: Option<ClientId>)
    ensures owner.Some? ==> owner.value in table && table[owner.value].client.emailTag == tag
    ensures owner.None? ==> forall id :: id in table ==> table[id].client.emailTag != tag
  {
    if exists id :: id in table && table[id].client.emailTag == tag
    then var id :| id in table && table[id].client.emailTag == tag; Some(id)
    else None
  }

  function Tagged(table: Table, tags: set<string>): set<ClientId> {
    set id | id in table && table[id].client.emailTag in tags
  }

  function TagsOf(table: Table, ids: set<ClientId>): set<string> {
    set id | id in ids && id in table :: table[id].client.emailTag
  }

  // ----- one reading of the runtime -----

  datatype Capture = Capture(deltas: map<string, Delta>, online: set<string>, ipCounts: map<string, nat>)

  function NamedTags(cap: Capture): set<string> {
    cap.deltas.Keys + cap.online
  }

  function OnlineIps(cap: Capture, tag: string): nat {
    if tag in cap.ipCounts then cap.ipCounts[tag] else 0
  }

  function ObservedConnections(cap: Capture, tag: string): nat {
    Max(OnlineIps(cap, tag), if tag in cap.online then 1 else 0)
  }

  function SightingOf(cap: Capture, tag: string): Option<Sighting> {
    if tag in NamedTags(cap)
    then Some(Sighting(if tag in cap.deltas then cap.deltas[tag] else NO_DELTA, ObservedConnections(cap, tag)))
    else None
  }

  // ----- the transaction -----

  function Seen(c: Client, sighting: Option<Sighting>, now: nat): Client {
    if sighting.None? || Idle(sighting.value) then c
    else c.(lastSeenAt := Some(now),
            lastActivatedAt := if sighting.value.activeConnections > 0 then Some(now) else c.lastActivatedAt)
  }

  ghost function RecordedAccount(a: Account, cap: Capture, now: nat): Account {
    var sighting := SightingOf(cap, a.client.emailTag);
    Account(Seen(a.client, sighting, now), Captured(a.rows, UtcDay(now), sighting))
  }

  ghost function Recorded(table: Table, cap: Capture, now: nat): Table {
    map id | id in table :: RecordedAccount(table[id], cap, now)
  }

  // ----- enforcement -----

  datatype Breach = DeviceLimit(actual: nat, limit: nat) | IpLimit(actual: nat, limit: nat)

  function EvaluateBreaches(onlineIps: nat, deviceLimit: Option<nat>, ipLimit: Option<nat>): seq<Breach> {
    (if deviceLimit.Some? && onlineIps > deviceLimit.value then [DeviceLimit(onlineIps, deviceLimit.value)] else [])
    + (if ipLimit.Some? && onlineIps > ipLimit.value then [IpLimit(onlineIps, ipLimit.value)] else [])
  }

  function BreachesOf(c: Client, cap: Capture): seq<Breach> {
    EvaluateBreaches(OnlineIps(cap, c.emailTag), c.deviceLimit, c.ipLimit)
  }

  predicate Above(actual: nat, limit: Option<nat>) {
    limit.Some? && actual > limit.value
  }

  /** A list of breaches is empty exactly within both limits; otherwise it names each limit that is exceeded, once, with
      the count that exceeds it. */
  lemma BreachesExactly(c: Client, cap: Capture)
    ensures
      var ips, breaches := Lookup(cap.ipCounts, c.emailTag).GetOr(0), BreachesOf(c, cap);
      && (breaches == [] <==> !Above(ips, c.deviceLimit) && !Above(ips, c.ipLimit))
      && (forall b :: b in breaches <==>
            || (Above(ips, c.deviceLimit) && b == DeviceLimit(ips, c.deviceLimit.value))
            || (Above(ips, c.ipLimit) && b == IpLimit(ips, c.ipLimit.value)))
      && (forall i, j :: 0 <= i < j < |breaches| ==> breaches[i] != breaches[j])
  {
  }

  datatype AutoBlock = AutoBlock(entityId: ClientId, onlineIps: nat, breaches: seq<Breach>)

  /** What is written to the audit log about a client. */
  function EntryFor(id: ClientId, c: Client, cap: Capture): AutoBlock {
    AutoBlock(id, OnlineIps(cap, c.emailTag), BreachesOf(c, cap))
  }

  ghost predicate QuotaHit(a: Account, cap: Capture) {
    a.client.emailTag in NamedTags(cap) && OverQuota(a.client, Sum(a.rows).total)
  }

  predicate AccessHit(c: Client, cap: Capture) {
    c.emailTag in NamedTags(cap) && BreachesOf(c, cap) != []
  }

  ghost function QuotaHits(table: Table, cap: Capture): set<ClientId> {
    set id | id in table && QuotaHit(table[id], cap)
  }

  function AccessHits(table: Table, cap: Capture): set<ClientId> {
    set id | id in table && AccessHit(table[id].client, cap)
  }

  /** The rows that access enforcement itself moves from ACTIVE to BLOCKED: not those the quota already took. */
  ghost function AccessMoves(table: Table, cap: Capture): set<ClientId> {
    set id | id in table && AccessHit(table[id].client, cap) && table[id].client.status == ACTIVE && !QuotaHit(table[id], cap)
  }

  function WithStatus(a: Account, status: Status): Account {
    a.(client := a.client.(status := status))
  }

  function WithBlocked(table: Table, ids: set<ClientId>): Table {
    map id | id in table :: if id in ids then WithStatus(table[id], BLOCKED) else table[id]
  }

  lemma BlockTwice(table: Table, a: set<ClientId>, b: set<ClientId>)
    ensures WithBlocked(WithBlocked(table, a), b) == WithBlocked(table, a + b)
    ensures TagsOf(table, a) + TagsOf(table, b) == TagsOf(table, a + b)
  {
  }

  /** How far enforcement came: the rows it blocked, the tags it cut off, what it wrote to the audit log. */
  datatype Enforcement = Enforcement(blocked: set<ClientId>, cut: set<string>, logged: seq<AutoBlock>)

  function Logged(e: Enforcement): set<ClientId> {
    set i | 0 <= i < |e.logged| :: e.logged[i].entityId
  }

  ghost predicate LoggedOnce(e: Enforcement) {
    forall i, j :: 0 <= i < j < |e.logged| ==> e.logged[i].entityId != e.logged[j].entityId
  }

  /** Every entry says what was observed of its client. */
  ghost predicate Truthful(e: Enforcement, table: Table, cap: Capture) {
    forall i :: 0 <= i < |e.logged| ==>
      e.logged[i].entityId in table && e.logged[i] == EntryFor(e.logged[i].entityId, table[e.logged[i].entityId].client, cap)
  }

  ghost predicate Allowed(e: Enforcement, table: Table, cap: Capture) {
    && e.blocked <= QuotaHits(table, cap) + AccessMoves(table, cap)
    && e.cut <= TagsOf(table, (QuotaHits(table, cap) * e.blocked) + AccessHits(table, cap))
    && Logged(e) <= AccessMoves(table, cap) * e.blocked
    && LoggedOnce(e)
  }

  ghost predicate Finished(e: Enforcement, table: Table, cap: Capture) {
    && e.blocked == QuotaHits(table, cap) + AccessMoves(table, cap)
    && e.cut == TagsOf(table, QuotaHits(table, cap) + AccessHits(table, cap))
    && Logged(e) == AccessMoves(table, cap)
    && LoggedOnce(e)
  }

  /** One more turn of an enforcement loop: whether it blocked the row, wrote the entry and cut the tag. */
  function Extend(e: Enforcement, entry: AutoBlock, tag: string, blocked: bool, logged: bool, cut: bool): Enforcement {
    Enforcement(if blocked then e.blocked + {entry.entityId} else e.blocked,
                if cut then e.cut + {tag} else e.cut,
                if logged then e.logged + [entry] else e.logged)
  }

  lemma ExtendUsers(users: map<string, string>, cut: set<string>, tag: string)
    ensures users - cut - {tag} == users - (cut + {tag})
  {
  }

  lemma ExtendTags(table: Table, ids: set<ClientId>, id: ClientId)
    requires id in table
    ensures TagsOf(table, ids + {id}) == TagsOf(table, ids) + {table[id].client.emailTag}
  {
  }

  lemma ExtendLog(e: Enforcement, entry: AutoBlock)
    requires LoggedOnce(e) && entry.entityId !in Logged(e)
    ensures
      var e' := e.(logged := e.logged + [entry]);
      Logged(e') == Logged(e) + {entry.entityId} && LoggedOnce(e')
  {
    var e' := e.(logged := e.logged + [entry]);
    assert forall i :: 0 <= i < |e.logged| ==> e'.logged[i] == e.logged[i] && e.logged[i].entityId in Logged(e);
    assert e'.logged[|e.logged|] == entry;
  }

  // ----- the user map -----

  /** What the runtime should hold for a client: its uuid while it may connect, nothing otherwise. */
  function Desired(c: Client, now: nat): Option<string> {
    if c.vlessEnabled && RuntimeActive(c, now) then Some(c.uuid) else None
  }

  /** How the turn of one record leaves its user: as the record asks for, or, only when a call failed, as it
      was or absent. A call that fails may still have had its effect. */
  datatype Turn = AsDesired | Untouched | Absent

  function Turned(users: map<string, string>, c: Client, now: nat, turn: Turn): map<string, string> {
    match turn
    case Untouched => users
    case Absent => users - {c.emailTag}
    case AsDesired =>
      if Desired(c, now).Some? then users[c.emailTag := Desired(c, now).value] else users - {c.emailTag}
  }

  // ----- the state and its steps -----

  /** The rows that an expiry has read and is about to write. */
  type Batch = map<ClientId, Client>

  /** A sync acts on records as it read them, one call after the other. `inSync` holds the rows of the full sync
      under way that still wait for their turn, `waiting` the records of the syncs that follow admin actions
      and expiry, `expiring` what the expiries under way have read. */
  datatype World = World(
    table: Table,
    audit: seq<AutoBlock>,
    users: map<string, string>,
    counters: map<string, nat>,
    provisioned: bool,
    inSync: Option<Table>,
    waiting: multiset<Client>,
    expiring: multiset<Batch>
  )

  function Zeroed(counters: map<string, nat>): map<string, nat> {
    map name | name in counters :: 0
  }

  datatype Step =
    /** Xray counts `bytes` for one direction of a user. */
    | Traffic(tag: string, dir: Direction, bytes: nat)
    /** Xray starts anew: no users, no counters. */
    | Restart
    /** A snapshot fails before its transaction commits; the query may already have reset the counters. */
    | SnapshotLost(counterReset: bool)
    | SnapshotRecorded(now: nat, cap: Capture, enforcement: Enforcement, complete: bool)
    /** The health probe fails. */
    | Unreachable
    /** A full sync reads the table. */
    | SyncReads
    /** The turn of one of the rows it read; a failure ends the sync. */
    | SyncTurn(id: ClientId, now: nat, turn: Turn, ok: bool)
    /** No row is left. */
    | SyncEnds
    /** The sync of one client that an earlier step asked for; a failure is ignored. */
    | ClientTurn(client: Client, now: nat, turn: Turn, ok: bool)
    /** An expiry reads the active rows whose term has passed. */
    | ExpireReads(now: nat)
    /** It sets those rows to EXPIRED, whatever they say by then, or its write fails. */
    | ExpireWrites(read: Batch, ok: bool)
    /** The dashboard's own expiry: one conditional update, and no sync. */
    | ExpireInPlace(now: nat)
    /** A new client; `usage` is what an import brings along. */
    | Create(client: Client, usage: Rows)
    | Delete(id: ClientId)
    /** The usage of a client is deleted and its status written; it asks for no sync by itself. */
    | ResetTraffic(id: ClientId, status: Status)
    /** An admin action reads a row again, to sync it. */
    | AsksSync(id: ClientId)
    /** Any other admin action on one row; `rows` replaces its usage when the action is an overwriting import. */
    | Edit(client: Client, rows: Option<Rows>)

  predicate OfFullSync(step: Step) {
    step.SyncReads? || step.SyncTurn? || step.SyncEnds?
  }

  predicate ExpireHit(c: Client, now: nat) {
    c.status == ACTIVE && c.expiresAt.Some? && c.expiresAt.value < now
  }

  function ExpiredRows(table: Table, now: nat): Batch {
    map id | id in table && ExpireHit(table[id].client, now) :: table[id].client
  }

  function ExpiredTable(table: Table, ids: set<ClientId>): Table {
    map id | id in table :: if id in ids then WithStatus(table[id], EXPIRED) else table[id]
  }

  /** An undisturbed expiry leaves no ACTIVE client whose term has ended, but for those whose term ends in this very
      millisecond: they show as expired already. It changes the status of those it finds, and nothing else. */
  lemma ExpiryFindsExactly(table: Table, now: nat, id: ClientId)
    requires id in table
    ensures
      var c, after := table[id].client, ExpiredTable(table, ExpiredRows(table, now).Keys);
      && after.Keys == table.Keys
      && (after[id].client.status == ACTIVE && ResolveEffectiveStatus(after[id].client, 0, now) == EXPIRED <==>
            c.status == ACTIVE && c.expiresAt == Some(now))
      && (after[id] != table[id] <==> c.status == ACTIVE && c.expiresAt.Some? && c.expiresAt.value < now)
      && after[id] == Account(c.(status := after[id].client.status), table[id].rows)
      && after[id].client.status in {c.status, EXPIRED}
  {
  }

  /** The records that an expiry hands to the syncs after it. */
  function ExpiredClients(read: Batch): set<Client> {
    set id | id in read :: read[id].(status := EXPIRED)
  }

  ghost predicate SnapshotNext(w: World, now: nat, cap: Capture, e: Enforcement, complete: bool, w': World) {
    var recorded := Recorded(w.table, cap, now);
    && DeltasOf(w.counters, cap.deltas)
    && Allowed(e, recorded, cap) && Truthful(e, recorded, cap)
    && (complete ==> Finished(e, recorded, cap))
    && w' == w.(table := WithBlocked(recorded, e.blocked), audit := w.audit + e.logged, users := w.users - e.cut,
                counters := Zeroed(w.counters), provisioned := complete)
  }

  /** A write of one account, which asks for a sync of its client. */
  function Written(w: World, a: Account): World {
    w.(table := w.table[a.client.id := a], waiting := w.waiting + multiset{a.client})
  }

  function AfterReset(w: World, id: ClientId, status: Status): World
    requires id in w.table
  {
    w.(table := w.table[id := Account(w.table[id].client.(status := status), map[])])
  }

  function AfterExpiry(w: World, read: Batch, ok: bool): World {
    var ended := w.(expiring := w.expiring - multiset{read});
    if ok
    then ended.(table := ExpiredTable(w.table, read.Keys), waiting := w.waiting + multiset(ExpiredClients(read)))
    else ended
  }

  ghost predicate Next(w: World, step: Step, w': World) {
    Valid(w.table) &&
    match step
    case Traffic(tag, dir, bytes) =>
      w' == w.(counters := w.counters[TrafficName(tag, dir) := CounterOf(w.counters, tag, dir) + bytes])
    case Restart =>
      w' == w.(users := map[], counters := map[])
    case SnapshotLost(counterReset) =>
      w' == w.(counters := if counterReset then Zeroed(w.counters) else w.counters, provisioned := false)
    case SnapshotRecorded(now, cap, e, complete) =>
      SnapshotNext(w, now, cap, e, complete, w')
    case Unreachable =>
      w' == w.(provisioned := false)
    case SyncReads =>
      w.inSync.None? && w' == w.(inSync := Some(w.table))
    case SyncTurn(id, now, turn, ok) =>
      && w.inSync.Some? && id in w.inSync.value && (ok ==> turn == AsDesired)
      && w' == w.(users := Turned(w.users, w.inSync.value[id].client, now, turn),
                  inSync := if ok then Some(w.inSync.value - {id}) else None)
    case SyncEnds =>
      w.inSync == Some(map[]) && w' == w.(inSync := None, provisioned := true)
    case ClientTurn(c, now, turn, ok) =>
      && c in w.waiting && (ok ==> turn == AsDesired)
      && w' == w.(users := Turned(w.users, c, now, turn), waiting := w.waiting - multiset{c},
                  provisioned := w.provisioned || (ok && Desired(c, now).Some?))
    case ExpireReads(now) =>
      w' == w.(expiring := w.expiring + multiset{ExpiredRows(w.table, now)})
    case ExpireWrites(read, ok) =>
      read in w.expiring && w' == AfterExpiry(w, read, ok)
    case ExpireInPlace(now) =>
      w' == w.(table := ExpiredTable(w.table, ExpiredRows(w.table, now).Keys))
    case Create(c, rows) =>
      c.id !in w.table && Valid(w.table[c.id := Account(c, rows)]) && w' == Written(w, Account(c, rows))
    case Delete(id) =>
      && id in w.table
      && w' == w.(table := w.table - {id}, waiting := w.waiting + multiset{w.table[id].client.(status := DISABLED)})
    case ResetTraffic(id, status) =>
      id in w.table && w' == AfterReset(w, id, status)
    case AsksSync(id) =>
      id in w.table && w' == w.(waiting := w.waiting + multiset{w.table[id].client})
    case Edit(c, rows) =>
      && c.id in w.table
      && Valid(w.table[c.id := EditedAccount(w.table, c, rows)]) && w' == Written(w, EditedAccount(w.table, c, rows))
  }

  function EditedAccount(table: Table, c: Client, rows: Option<Rows>): Account
    requires c.id in table
  {
    Account(c, if rows.Some? then rows.value else table[c.id].rows)
  }

  /** A record that asks for a user over a transport that the service does not support. */
  predicate Unsupported(c: Client, now: nat) {
    c.vlessEnabled && RuntimeActive(c, now) && c.transportProfile != VLESS_REALITY_TCP
  }

  /** No call of the step failed. */
  predicate WentWell(step: Step) {
    match step
    case SnapshotLost(_) => false
    case SnapshotRecorded(_, _, _, complete) => complete
    case Unreachable => false
    case SyncTurn(_, _, _, ok) => ok
    case ClientTurn(c, now, _, ok) => ok || Unsupported(c, now)
    case ExpireWrites(_, ok) => ok
    case _ => true
  }

  predicate AllWell(steps: seq<Step>) {
    steps == [] || (AllWell(steps[..|steps| - 1]) && WentWell(steps[|steps| - 1]))
  }

  lemma {:induction false} WellBoth(a: seq<Step>, b: seq<Step>)
    ensures AllWell(a + b) <==> AllWell(a) && AllWell(b)
  {
    if b == [] {
      assert a + b == a;
    } else {
      var n := |b| - 1;
      assert (a + b)[..|a + b| - 1] == a + b[..n];
      WellBoth(a, b[..n]);
    }
  }

  /** A run went well exactly when every step of it did. */
  lemma {:induction false} AllWellExactly(steps: seq<Step>)
    ensures AllWell(steps) <==> forall step :: step in steps ==> WentWell(step)
  {
    if steps != [] {
      var n := |steps| - 1;
      AllWellExactly(steps[..n]);
      assert steps == steps[..n] + [steps[n]];
    }
  }

  /** A run: the states before and after each of its steps. */
  ghost predicate Run(states: seq<World>, steps: seq<Step>) {
    && |states| == |steps| + 1
    && forall i :: 0 <= i < |steps| ==> Next(states[i], steps[i], states[i + 1])
  }

  /** Some run of these steps leads from one state to the other. */
  ghost predicate Reaches(w: World, steps: seq<Step>, w': World) {
    exists states :: Run(states, steps) && states[0] == w && states[|steps|] == w'
  }

  lemma ReachNone(w: World)
    ensures Reaches(w, [], w) && AllWell([])
  {
    assert Run([w], []) && [w][0] == w;
  }

  lemma ReachMore(w: World, steps: seq<Step>, mid: World, step: Step, w': World)
    requires Reaches(w, steps, mid) && Next(mid, step, w')
    ensures Reaches(w, steps + [step], w')
    ensures AllWell(steps + [step]) <==> AllWell(steps) && WentWell(step)
  {
    assert (steps + [step])[..|steps|] == steps;
    var states :| Run(states, steps) && states[0] == w && states[|steps|] == mid;
    assert Run(states + [w'], steps + [step]);
    assert (states + [w'])[0] == w && (states + [w'])[|steps| + 1] == w';
  }

  lemma ReachOne(w: World, step: Step, w': World)
    requires Next(w, step, w')
    ensures Reaches(w, [step], w') && (AllWell([step]) <==> WentWell(step))
  {
    ReachNone(w);
    ReachMore(w, [], w, step, w');
    assert [] + [step] == [step];
  }

  lemma ReachBoth(w: World, first: seq<Step>, mid: World, second: seq<Step>, w': World)
    requires Reaches(w, first, mid) && Reaches(mid, second, w')
    ensures Reaches(w, first + second, w')
    ensures AllWell(first + second) <==> AllWell(first) && AllWell(second)
  {
    WellBoth(first, second);
    RunsJoin(w, first, mid, second, w');
  }

  lemma RunsJoin(w: World, first: seq<Step>, mid: World, second: seq<Step>, w': World)
    requires Reaches(w, first, mid) && Reaches(mid, second, w')
    ensures Reaches(w, first + second, w')
  {
    var a :| Run(a, first) && a[0] == w && a[|first|] == mid;
    var b :| Run(b, second) && b[0] == mid && b[|second|] == w';
    var states, steps := a + b[1..], first + second;
    forall i | 0 <= i < |steps| ensures Next(states[i], steps[i], states[i + 1]) {
      if i < |first| {
        assert states[i] == a[i] && states[i + 1] == a[i + 1] && steps[i] == first[i];
      } else {
        var j := i - |first|;
        assert states[i] == b[j] && states[i + 1] == b[j + 1] && steps[i] == second[j];
      }
    }
    assert Run(states, steps) && states[0] == w && states[|steps|] == w';
  }
}
