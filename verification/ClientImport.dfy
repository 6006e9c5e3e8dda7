/**
 Importing clients: finding the client that an item means, choosing a free email tag, and
 replacing usage by what the item says. Each item is one transaction.
 */
module ClientImport {

  import opened Basics
  import opened JsStrings
  import opened Clients
  import opened Usage
  import opened ControlPlane
  import Decimals

  datatype Item = Item(
    id: Option<ClientId>,
    uuid: string,
    emailTag: string,
    displayName: string,
    status: Status,
    createdAt: Option<int>,
    startsAt: Option<int>,
    expiresAt: Option<int>,
    durationDays: Option<int>,
    trafficLimitBytes: Option<nat>,
    isTrafficUnlimited: bool,
    trafficUsedBytes: nat,
    incomingBytes: nat,
    outgoingBytes: nat,
    deviceLimit: Option<nat>,
    ipLimit: Option<nat>,
    vlessEnabled: bool,
    wireguardEnabled: bool,
    subscriptionToken: string,
    transportProfile: TransportProfile,
    activeConnections: nat
  )

  /** `Aborted` stands for a call that failed. */
  datatype Outcome = Skipped | Created(id: ClientId) | Updated(id: ClientId) | NoTransport | UuidTaken | Aborted

  predicate Failed(r: Outcome) {
    r.NoTransport? || r.UuidTaken? || r.Aborted?
  }

  /** What one import draws at random. */
  datatype Drawn = Drawn(id: ClientId, token: string, tag: string)

  // ----- the unique indexes -----

  function EmailTagOf(c: Client): string {
    c.emailTag
  }

  function UuidOf(c: Client): string {
    c.uuid
  }

  function TokenOf(c: Client): string {
    c.subscriptionToken
  }

  ghost predicate UniqueField(table: Table, field: Client -> string) {
    forall a, b :: a in table && b in table && field(table[a].client) == field(table[b].client) ==> a == b
  }

  /** `Valid`, one field at a time. */
  ghost predicate Consistent(table: Table) {
    Keyed(table) && UniqueField(table, EmailTagOf) && UniqueField(table, UuidOf) && UniqueField(table, TokenOf)
  }

  lemma ConsistentIsValid(table: Table)
    ensures Consistent(table) <==> Valid(table)
  {
  }

  /** Nobody but the given client has the value. */
  ghost predicate Free(table: Table, field: Client -> string, value: string, current: Option<ClientId>) {
    forall id :: id in table && field(table[id].client) == value ==> current == Some(id)
  }

  ghost function Holder(table: Table, field: Client -> string, value: string): (r: Option<ClientId>)
    ensures r.Some? ==> r.value in table && field(table[r.value].client) == value
    ensures r.None? ==> forall id :: id in table ==> field(table[id].client) != value
  {
    if exists id :: id in table && field(table[id].client) == value
    then var id :| id in table && field(table[id].client) == value; Some(id)
    else None
  }

  // ----- the client an item means -----

  ghost function Target(table: Table, item: Item): Option<ClientId> {
    if item.id.Some? && item.id.value in table then item.id
    else
      var byUuid := Holder(table, UuidOf, item.uuid);
      if byUuid.Some? then byUuid else Holder(table, EmailTagOf, item.emailTag)
  }

  /** Another client than the target has the uuid. */
  ghost predicate UuidClash(table: Table, item: Item) {
    !Free(table, UuidOf, item.uuid, Target(table, item))
  }

  // ----- a free email tag -----

  /** The candidates in the order in which they are tried. */
  function Probe(desired: string, fallback: string, n: nat): string {
    if n == 0 then (if Trim(desired) == "" then fallback else Trim(desired))
    else desired + "-" + Decimals.Print(n)
  }

  /** The first candidate that no other client holds. */
  ghost predicate FirstFree(table: Table, desired: string, fallback: string, current: Option<ClientId>, n: nat) {
    && Free(table, EmailTagOf, Probe(desired, fallback, n), current)
    && forall j: nat :: j < n ==> !Free(table, EmailTagOf, Probe(desired, fallback, j), current)
  }

  /** The wanted tag comes first, then the tag with the numbers from one on; a blank tag makes room for a drawn one. */
  lemma ProbesInOrder(desired: string, fallback: string)
    ensures Trim(desired) != "" ==> Probe(desired, fallback, 0) == Trim(desired)
    ensures Trim(desired) == "" ==> Probe(desired, fallback, 0) == fallback
    ensures Probe(desired, fallback, 1) == desired + "-1" && Probe(desired, fallback, 10) == desired + "-10"
  {
    assert Decimals.Print(1) == "1";
    assert Decimals.Print(10) == "10";
  }

  lemma ProbesDiffer(desired: string, fallback: string, m: nat, n: nat)
    requires Probe(desired, fallback, m) == Probe(desired, fallback, n)
    requires (m > 0 && n > 0) || Trim(desired) != ""
    ensures m == n
  {
    if m > 0 && n > 0 {
      var p, q := Probe(desired, fallback, m), Probe(desired, fallback, n);
      assert Decimals.Print(m) == p[|desired| + 1..] == q[|desired| + 1..] == Decimals.Print(n);
      Decimals.PrintInjective(m, n);
    } else {
      TrimShorter(desired);
    }
  }

  lemma TrimShorter(s: string)
    ensures |Trim(s)| <= |s|
  {
    TrimStartShorter(s);
    TrimEndShorter(TrimStart(s));
  }

  lemma {:induction false} TrimStartShorter(s: string)
    ensures |TrimStart(s)| <= |s|
  {
    if s != "" && IsSpace(s[0]) {
      TrimStartShorter(s[1..]);
    }
  }

  lemma {:induction false} TrimEndShorter(s: string)
    ensures |TrimEnd(s)| <= |s|
  {
    if s != "" && IsSpace(s[|s| - 1]) {
      TrimEndShorter(s[..|s| - 1]);
    }
  }

  function TagsIn(table: Table): set<string> {
    set id | id in table :: table[id].client.emailTag
  }

  lemma {:induction false} NoMoreTagsThanClients(table: Table)
    ensures |TagsIn(table)| <= |table|
    decreases |table|
  {
    if table != map[] {
      var id :| id in table;
      var rest := table - {id};
      NoMoreTagsThanClients(rest);
      forall tag | tag in TagsIn(table) ensures tag in TagsIn(rest) + {table[id].client.emailTag} {
        var a :| a in table && table[a].client.emailTag == tag;
        assert a == id || a in rest;
      }
      SubsetSize(TagsIn(table), TagsIn(rest) + {table[id].client.emailTag});
    }
  }

  lemma {:induction false} SubsetSize(a: set<string>, b: set<string>)
    requires a <= b
    ensures |a| <= |b|
    decreases |a|
  {
    if a != {} {
      var x :| x in a;
      SubsetSize(a - {x}, b - {x});
    }
  }

  ghost predicate AllTaken(table: Table, desired: string, fallback: string, current: Option<ClientId>, n: nat) {
    forall j: nat :: j < n ==> !Free(table, EmailTagOf, Probe(desired, fallback, j), current)
  }

  /** With a blank tag the first candidate is drawn at random and does not count. */
  function FirstCounted(desired: string): nat {
    if Trim(desired) == "" then 1 else 0
  }

  /** The counted candidates before the one with number n. */
  function Probes(desired: string, fallback: string, n: nat): set<string> {
    if n <= FirstCounted(desired) then {} else Probes(desired, fallback, n - 1) + {Probe(desired, fallback, n - 1)}
  }

  lemma {:induction false} ProbeIsNew(desired: string, fallback: string, n: nat, j: nat)
    requires n <= j
    ensures Probe(desired, fallback, j) !in Probes(desired, fallback, n)
  {
    if n > FirstCounted(desired) {
      ProbeIsNew(desired, fallback, n - 1, j);
      if Probe(desired, fallback, n - 1) == Probe(desired, fallback, j) {
        ProbesDiffer(desired, fallback, n - 1, j);
      }
    }
  }

  lemma {:induction false} ProbesCounted(desired: string, fallback: string, n: nat)
    requires n >= FirstCounted(desired)
    ensures |Probes(desired, fallback, n)| == n - FirstCounted(desired)
  {
    if n > FirstCounted(desired) {
      ProbesCounted(desired, fallback, n - 1);
      ProbeIsNew(desired, fallback, n - 1, n - 1);
    }
  }

  lemma TakenIsATag(table: Table, tag: string, current: Option<ClientId>)
    requires !Free(table, EmailTagOf, tag, current)
    ensures tag in TagsIn(table)
  {
  }

  lemma {:induction false} ProbesAreTags(table: Table, desired: string, fallback: string, current: Option<ClientId>, n: nat)
    requires AllTaken(table, desired, fallback, current, n)
    ensures Probes(desired, fallback, n) <= TagsIn(table)
  {
    if n > FirstCounted(desired) {
      ProbesAreTags(table, desired, fallback, current, n - 1);
      TakenIsATag(table, Probe(desired, fallback, n - 1), current);
    }
  }

  /** The taken candidates are different tags of the table: there are no more of them than clients. */
  lemma TakenAreFew(table: Table, desired: string, fallback: string, current: Option<ClientId>, n: nat)
    requires AllTaken(table, desired, fallback, current, n)
    ensures n <= |table| + FirstCounted(desired)
  {
    if n >= FirstCounted(desired) {
      ProbesCounted(desired, fallback, n);
      ProbesAreTags(table, desired, fallback, current, n);
      SubsetSize(Probes(desired, fallback, n), TagsIn(table));
      NoMoreTagsThanClients(table);
    }
  }

  lemma {:induction false} FreeProbeFrom(table: Table, desired: string, fallback: string, current: Option<ClientId>, n: nat)
    returns (k: nat)
    requires AllTaken(table, desired, fallback, current, n)
    ensures FirstFree(table, desired, fallback, current, k)
    decreases |table| + FirstCounted(desired) + 1 - n
  {
    if Free(table, EmailTagOf, Probe(desired, fallback, n), current) {
      k := n;
    } else {
      TakenAreFew(table, desired, fallback, current, n + 1);
      k := FreeProbeFrom(table, desired, fallback, current, n + 1);
    }
  }

  lemma FreeProbeExists(table: Table, desired: string, fallback: string, current: Option<ClientId>)
    ensures exists n: nat :: FirstFree(table, desired, fallback, current, n)
  {
    var n := FreeProbeFrom(table, desired, fallback, current, 0);
  }

  ghost function UniqueTag(table: Table, desired: string, fallback: string, current: Option<ClientId>): string {
    FreeProbeExists(table, desired, fallback, current);
    var n: nat :| FirstFree(table, desired, fallback, current, n);
    Probe(desired, fallback, n)
  }

  lemma UniqueTagIs(table: Table, desired: string, fallback: string, current: Option<ClientId>, n: nat)
    requires FirstFree(table, desired, fallback, current, n)
    ensures UniqueTag(table, desired, fallback, current) == Probe(desired, fallback, n)
  {
    FreeProbeExists(table, desired, fallback, current);
    var m: nat :| FirstFree(table, desired, fallback, current, m)
               && UniqueTag(table, desired, fallback, current) == Probe(desired, fallback, m);
    assert !(m < n);
    assert !(n < m);
  }

  ghost function UniqueToken(table: Table, desired: string, fallback: string, current: Option<ClientId>): string {
    if Trim(desired) != "" && Free(table, TokenOf, Trim(desired), current) then Trim(desired) else fallback
  }

  // ----- the imported record -----

  function ImportedStatus(item: Item, now: nat): Status {
    if item.status == DISABLED || item.status == BLOCKED then item.status
    else if Expired(item.expiresAt, now) then EXPIRED
    else if !item.isTrafficUnlimited && item.trafficLimitBytes.Some? && item.trafficUsedBytes >= item.trafficLimitBytes.value
    then BLOCKED
    else ACTIVE
  }

  function ImportedClient(item: Item, existing: Option<Client>, id: ClientId, tag: string, token: string, owner: string, now: nat): Client {
    Client(
      id, item.uuid, tag, token, Trim(item.displayName),
      Some(if existing.Some? then existing.value.createdByAdminUserId.GetOr(owner) else owner),
      ImportedStatus(item, now),
      item.createdAt.GetOr(now),
      item.startsAt, item.expiresAt, item.durationDays,
      item.trafficLimitBytes, item.isTrafficUnlimited, item.deviceLimit, item.ipLimit,
      item.vlessEnabled, item.wireguardEnabled, item.transportProfile,
      if existing.Some? then existing.value.lastActivatedAt else None,
      if existing.Some? then existing.value.lastSeenAt else None)
  }

  /** An imported client is what its item says; only what belongs to the client that it overwrites stays: the id, the admin
      who created it, and the times it was seen. */
  lemma ImportedColumns(item: Item, existing: Option<Client>, id: ClientId, tag: string, token: string, owner: string, now: nat)
    ensures
      var c := ImportedClient(item, existing, id, tag, token, owner, now);
      && c.id == id && c.uuid == item.uuid && c.emailTag == tag && c.subscriptionToken == token
      && c.displayName == Trim(item.displayName) && c.createdAt == item.createdAt.GetOr(now)
      && c.startsAt == item.startsAt && c.expiresAt == item.expiresAt && c.durationDays == item.durationDays
      && c.trafficLimitBytes == item.trafficLimitBytes && c.isTrafficUnlimited == item.isTrafficUnlimited
      && c.deviceLimit == item.deviceLimit && c.ipLimit == item.ipLimit
      && c.vlessEnabled == item.vlessEnabled && c.wireguardEnabled == item.wireguardEnabled && c.transportProfile == item.transportProfile
      && (existing.None? ==> c.createdByAdminUserId == Some(owner) && c.lastActivatedAt.None? && c.lastSeenAt.None?)
      && (existing.Some? ==>
            && c.createdByAdminUserId == Some(existing.value.createdByAdminUserId.GetOr(owner))
            && c.lastActivatedAt == existing.value.lastActivatedAt && c.lastSeenAt == existing.value.lastSeenAt)
  {
  }

  predicate HasUsage(item: Item) {
    item.incomingBytes > 0 || item.outgoingBytes > 0 || item.trafficUsedBytes > 0 || item.activeConnections > 0
  }

  /** All usage becomes one row of today, or none when there is nothing to say. */
  function ImportedRows(item: Item, now: nat): Rows {
    if HasUsage(item)
    then map[UtcDay(now) := UsageRow(item.incomingBytes, item.outgoingBytes, item.trafficUsedBytes, item.activeConnections)]
    else map[]
  }

  ghost function Existing(t: Table, item: Item): Option<Client> {
    var target := Target(t, item);
    if target.Some? && target.value in t then Some(t[target.value].client) else None
  }

  ghost function ImportedAccount(t: Table, item: Item, owner: string, now: nat, drawn: Drawn): Account {
    var target := Target(t, item);
    Account(
      ImportedClient(item, Existing(t, item), target.GetOr(drawn.id),
                     UniqueTag(t, item.emailTag, drawn.tag, target),
                     UniqueToken(t, item.subscriptionToken, drawn.token, target), owner, now),
      ImportedRows(item, now))
  }

  ghost function ImportOne(t: Table, item: Item, overwrite: bool, owner: string, now: nat, drawn: Drawn): (Table, Outcome) {
    var target := Target(t, item);
    if target.Some? && !overwrite then (t, Skipped)
    else if !item.vlessEnabled && !item.wireguardEnabled then (t, NoTransport)
    else if UuidClash(t, item) then (t, UuidTaken)
    else
      var id := target.GetOr(drawn.id);
      (t[id := ImportedAccount(t, item, owner, now, drawn)], if target.Some? then Updated(id) else Created(id))
  }

  /** The items in order; the first failure ends the import and what came before it stays. */
  ghost function ImportAll(t: Table, items: seq<Item>, overwrite: bool, owner: string, now: nat, draws: seq<Drawn>): (Table, seq<Outcome>)
    requires |draws| == |items|
    decreases |items|
  {
    if items == [] then (t, [])
    else
      var (after, outcome) := ImportOne(t, items[0], overwrite, owner, now, draws[0]);
      if Failed(outcome) then (after, [outcome])
      else
        var (end, outcomes) := ImportAll(after, items[1..], overwrite, owner, now, draws[1..]);
        (end, [outcome] + outcomes)
  }
}
