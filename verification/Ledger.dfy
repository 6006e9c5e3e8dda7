/**
 Where every byte goes. For each tag, over any run: what Xray ever counted for it is what
 still sits in Xray's counter, plus what the usage rows of the tag's client hold, plus what
 some step explicitly threw away.
 */
module Ledger {

  import opened Basics
  import opened StatNames
  import opened TrafficDeltas
  import opened Clients
  import opened Usage
  import opened ControlPlane

  /** The bytes in one direction: a client's uplink is its outgoing traffic. */
  ghost function BytesIn(rows: Rows, dir: Direction): nat {
    if dir.Uplink? then Sum(rows).outgoing else Sum(rows).incoming
  }

  ghost function Charged(table: Table, tag: string, dir: Direction): nat {
    var owner := Owner(table, tag);
    if owner.Some? then BytesIn(table[owner.value].rows, dir) else 0
  }

  ghost function Held(w: World, tag: string, dir: Direction): nat {
    CounterOf(w.counters, tag, dir) + Charged(w.table, tag, dir)
  }

  /** A tag whose counters a snapshot can charge to somebody. */
  ghost predicate Chargeable(table: Table, tag: string) {
    tag != "" && Parsable(tag) && Owner(table, tag).Some?
  }

  /** Rows written by an admin action that replaces them, or renames their client. */
  predicate Replaces(before: Client, c: Client, rows: Option<Rows>) {
    rows.Some? || before.emailTag != c.emailTag
  }

  /** What a step adds from outside: traffic, and the usage that an import brings along. */
  ghost function Credited(w: World, step: Step, tag: string, dir: Direction): nat {
    match step
    case Traffic(t, d, bytes) => if t == tag && d == dir then bytes else 0
    case Create(c, rows) => if c.emailTag == tag then BytesIn(rows, dir) else 0
    case Edit(c, rows) =>
      if c.id in w.table && Replaces(w.table[c.id].client, c, rows) && c.emailTag == tag
      then BytesIn(EditedAccount(w.table, c, rows).rows, dir) else 0
    case _ => 0
  }

  /** What a step throws away. */
  ghost function Discarded(w: World, step: Step, tag: string, dir: Direction): nat {
    match step
    case Restart => CounterOf(w.counters, tag, dir)
    case SnapshotLost(counterReset) => if counterReset then CounterOf(w.counters, tag, dir) else 0
    case SnapshotRecorded(_, _, _, _) => if Chargeable(w.table, tag) then 0 else CounterOf(w.counters, tag, dir)
    case Delete(id) => RowsAt(w.table, id, tag, dir)
    case ResetTraffic(id, _) => RowsAt(w.table, id, tag, dir)
    case Edit(c, rows) =>
      if c.id in w.table && Replaces(w.table[c.id].client, c, rows) then RowsAt(w.table, c.id, tag, dir) else 0
    case _ => 0
  }

  ghost function RowsAt(table: Table, id: ClientId, tag: string, dir: Direction): nat {
    if id in table && table[id].client.emailTag == tag then BytesIn(table[id].rows, dir) else 0
  }

  ghost function TotalCredited(states: seq<World>, steps: seq<Step>, tag: string, dir: Direction): nat
    requires |states| == |steps| + 1
  {
    if steps == [] then 0
    else var n := |steps| - 1; TotalCredited(states[..n + 1], steps[..n], tag, dir) + Credited(states[n], steps[n], tag, dir)
  }

  ghost function TotalDiscarded(states: seq<World>, steps: seq<Step>, tag: string, dir: Direction): nat
    requires |states| == |steps| + 1
  {
    if steps == [] then 0
    else var n := |steps| - 1; TotalDiscarded(states[..n + 1], steps[..n], tag, dir) + Discarded(states[n], steps[n], tag, dir)
  }

  // ----- the table -----

  /** Steps that neither add, remove nor rename a client. */
  ghost predicate SameClients(table: Table, table': Table) {
    && table.Keys == table'.Keys
    && forall id :: id in table ==> SameIdentity(table[id].client, table'[id].client)
  }

  predicate SameIdentity(c: Client, c': Client) {
    c'.id == c.id && c'.emailTag == c.emailTag && c'.uuid == c.uuid && c'.subscriptionToken == c.subscriptionToken
  }

  lemma OwnerIs(table: Table, id: ClientId)
    requires UniqueTags(table) && id in table
    ensures Owner(table, table[id].client.emailTag) == Some(id)
  {
  }

  lemma SameOwners(table: Table, table': Table, tag: string)
    requires UniqueTags(table) && SameClients(table, table')
    ensures Owner(table', tag) == Owner(table, tag)
  {
    if Owner(table, tag).Some? {
      var id := Owner(table, tag).value;
      assert table'[id].client.emailTag == tag;
    }
  }

  lemma SameClientsValid(table: Table, table': Table)
    requires Valid(table) && SameClients(table, table')
    ensures Valid(table')
  {
    forall a, b | a in table' && b in table' && table'[a].client.emailTag == table'[b].client.emailTag ensures a == b {
      assert table[a].client.emailTag == table[b].client.emailTag;
    }
  }

  lemma SameIdentityValid(table: Table, a: Account)
    requires Valid(table) && a.client.id in table && SameIdentity(table[a.client.id].client, a.client)
    ensures Valid(table[a.client.id := a])
  {
    SameClientsValid(table, table[a.client.id := a]);
  }

  lemma SnapshotSameClients(table: Table, cap: Capture, now: nat, blocked: set<ClientId>)
    ensures SameClients(table, WithBlocked(Recorded(table, cap, now), blocked))
  {
  }

  lemma SnapshotKeepsValid(table: Table, cap: Capture, now: nat, blocked: set<ClientId>)
    requires Valid(table)
    ensures Valid(WithBlocked(Recorded(table, cap, now), blocked))
  {
    SnapshotSameClients(table, cap, now, blocked);
    SameClientsValid(table, WithBlocked(Recorded(table, cap, now), blocked));
  }

  lemma ExpireKeepsValid(table: Table, ids: set<ClientId>)
    requires Valid(table)
    ensures SameClients(table, ExpiredTable(table, ids)) && Valid(ExpiredTable(table, ids))
  {
    SameClientsValid(table, ExpiredTable(table, ids));
  }

  lemma DeleteKeepsValid(table: Table, id: ClientId)
    requires Valid(table)
    ensures Valid(table - {id})
  {
  }

  /** Every step keeps the keys and the unique indexes. */
  lemma NextKeepsValid(w: World, step: Step, w': World)
    requires Next(w, step, w')
    ensures Valid(w'.table)
  {
    match step
    case SnapshotRecorded(now, cap, e, complete) => SnapshotKeepsValid(w.table, cap, now, e.blocked);
    case ExpireWrites(read, ok) => ExpireKeepsValid(w.table, read.Keys);
    case ExpireInPlace(now) => ExpireKeepsValid(w.table, ExpiredRows(w.table, now).Keys);
    case Delete(id) => DeleteKeepsValid(w.table, id);
    case ResetTraffic(id, status) => SameIdentityValid(w.table, Account(w.table[id].client.(status := status), map[]));
    case _ =>
  }

  // ----- one step -----

  lemma TrafficCounts(counters: map<string, nat>, t: string, d: Direction, bytes: nat, tag: string, dir: Direction)
    ensures
      CounterOf(counters[TrafficName(t, d) := CounterOf(counters, t, d) + bytes], tag, dir)
      == CounterOf(counters, tag, dir) + if t == tag && d == dir then bytes else 0
  {
    if TrafficName(tag, dir) == TrafficName(t, d) {
      TrafficNameInjective(tag, dir, t, d);
    }
  }

  lemma ZeroedCounts(counters: map<string, nat>, tag: string, dir: Direction)
    ensures CounterOf(Zeroed(counters), tag, dir) == 0
  {
  }

  lemma GainIsCounted(counters: map<string, nat>, cap: Capture, tag: string)
    requires DeltasOf(counters, cap.deltas)
    ensures WellSummed(SightingOf(cap, tag))
    ensures Gain(SightingOf(cap, tag)).incoming == if tag != "" && Parsable(tag) then CounterOf(counters, tag, Downlink) else 0
    ensures Gain(SightingOf(cap, tag)).outgoing == if tag != "" && Parsable(tag) then CounterOf(counters, tag, Uplink) else 0
  {
  }

  /** A recorded snapshot moves the counters of a chargeable tag into its client's rows, to the byte. */
  lemma SnapshotCharges(w: World, now: nat, cap: Capture, e: Enforcement, complete: bool, w': World, tag: string, dir: Direction)
    requires Next(w, SnapshotRecorded(now, cap, e, complete), w')
    ensures CounterOf(w'.counters, tag, dir) == 0
    ensures Charged(w'.table, tag, dir) ==
            Charged(w.table, tag, dir) + if Chargeable(w.table, tag) then CounterOf(w.counters, tag, dir) else 0
  {
    ZeroedCounts(w.counters, tag, dir);
    var after := WithBlocked(Recorded(w.table, cap, now), e.blocked);
    SnapshotSameClients(w.table, cap, now, e.blocked);
    SameOwners(w.table, after, tag);
    if Owner(w.table, tag).Some? {
      OwnerCharged(w.table, w.counters, cap, now, e.blocked, Owner(w.table, tag).value, dir);
    }
  }

  lemma OwnerCharged(table: Table, counters: map<string, nat>, cap: Capture, now: nat, blocked: set<ClientId>, id: ClientId, dir: Direction)
    requires id in table && DeltasOf(counters, cap.deltas)
    ensures
      var tag := table[id].client.emailTag;
      BytesIn(WithBlocked(Recorded(table, cap, now), blocked)[id].rows, dir)
      == BytesIn(table[id].rows, dir) + if tag != "" && Parsable(tag) then CounterOf(counters, tag, dir) else 0
  {
    var tag := table[id].client.emailTag;
    RecordedRows(table, cap, now, blocked, id);
    GainIsCounted(counters, cap, tag);
    CapturedSum(table[id].rows, UtcDay(now), SightingOf(cap, tag));
  }

  lemma RecordedRows(table: Table, cap: Capture, now: nat, blocked: set<ClientId>, id: ClientId)
    requires id in table
    ensures
      WithBlocked(Recorded(table, cap, now), blocked)[id].rows
      == Captured(table[id].rows, UtcDay(now), SightingOf(cap, table[id].client.emailTag))
  {
  }

  lemma OwnerAfterWrite(table: Table, a: Account, tag: string)
    requires Valid(table) && Valid(table[a.client.id := a])
    ensures
      var owner, owner' := Owner(table, tag), Owner(table[a.client.id := a], tag);
      owner' == if a.client.emailTag == tag then Some(a.client.id)
                else if owner == Some(a.client.id) then None else owner
  {
    var table' := table[a.client.id := a];
    var owner := Owner(table, tag);
    if a.client.emailTag == tag {
      assert table'[a.client.id].client.emailTag == tag;
    } else if owner.Some? && owner.value != a.client.id {
      assert table'[owner.value].client.emailTag == tag;
    }
  }

  lemma WriteBalances(table: Table, a: Account, tag: string, dir: Direction)
    requires Valid(table) && Valid(table[a.client.id := a])
    ensures
      Charged(table[a.client.id := a], tag, dir) + RowsAt(table, a.client.id, tag, dir)
      == Charged(table, tag, dir) + if a.client.emailTag == tag then BytesIn(a.rows, dir) else 0
  {
    var id := a.client.id;
    OwnerAfterWrite(table, a, tag);
    if id in table && table[id].client.emailTag == tag {
      OwnerIs(table, id);
    }
    if a.client.emailTag == tag {
      NobodyElseHas(table, a);
    }
  }

  /** The unique index on the new table: only the written client itself may have held its new tag before. */
  lemma NobodyElseHas(table: Table, a: Account)
    requires Valid(table[a.client.id := a])
    ensures Owner(table, a.client.emailTag).Some? ==> Owner(table, a.client.emailTag).value == a.client.id
  {
    if Owner(table, a.client.emailTag).Some? {
      var x := Owner(table, a.client.emailTag).value;
      var after := table[a.client.id := a];
      assert after[x].client.emailTag == a.client.emailTag == after[a.client.id].client.emailTag;
    }
  }

  lemma OwnerAfterDelete(table: Table, id: ClientId, tag: string)
    requires Valid(table) && id in table
    ensures Owner(table - {id}, tag) == if table[id].client.emailTag == tag then None else Owner(table, tag)
  {
    var owner := Owner(table, tag);
    if owner.Some? && owner.value != id {
      assert (table - {id})[owner.value].client.emailTag == tag;
    }
  }

  lemma DeleteBalances(table: Table, id: ClientId, tag: string, dir: Direction)
    requires Valid(table) && id in table
    ensures Charged(table - {id}, tag, dir) + RowsAt(table, id, tag, dir) == Charged(table, tag, dir)
  {
    OwnerAfterDelete(table, id, tag);
    if table[id].client.emailTag == tag {
      OwnerIs(table, id);
    }
  }

  lemma ExpireCharges(table: Table, ids: set<ClientId>, tag: string, dir: Direction)
    requires Valid(table)
    ensures Charged(ExpiredTable(table, ids), tag, dir) == Charged(table, tag, dir)
  {
    SameOwners(table, ExpiredTable(table, ids), tag);
  }

  lemma EmptySum()
    ensures Sum(map[]) == ZERO
  {
  }

  lemma ResetBalances(table: Table, id: ClientId, status: Status, tag: string, dir: Direction)
    requires Valid(table) && id in table
    ensures
      var after := table[id := Account(table[id].client.(status := status), map[])];
      Charged(after, tag, dir) + RowsAt(table, id, tag, dir) == Charged(table, tag, dir)
  {
    var a := Account(table[id].client.(status := status), map[]);
    EmptySum();
    SameIdentityValid(table, a);
    WriteBalances(table, a, tag, dir);
  }

  /** What the step adds and throws away accounts for the difference of what is held. */
  ghost predicate Balances(w: World, step: Step, w': World, tag: string, dir: Direction) {
    Held(w', tag, dir) + Discarded(w, step, tag, dir) == Held(w, tag, dir) + Credited(w, step, tag, dir)
  }

  lemma SnapshotBalances(w: World, now: nat, cap: Capture, e: Enforcement, complete: bool, w': World, tag: string, dir: Direction)
    requires Next(w, SnapshotRecorded(now, cap, e, complete), w')
    ensures Balances(w, SnapshotRecorded(now, cap, e, complete), w', tag, dir)
  {
    SnapshotCharges(w, now, cap, e, complete, w', tag, dir);
  }

  lemma TrafficBalances(w: World, t: string, d: Direction, bytes: nat, w': World, tag: string, dir: Direction)
    requires Next(w, Traffic(t, d, bytes), w')
    ensures Balances(w, Traffic(t, d, bytes), w', tag, dir)
  {
    TrafficCounts(w.counters, t, d, bytes, tag, dir);
  }

  lemma CreateBalances(w: World, c: Client, rows: Rows, w': World, tag: string, dir: Direction)
    requires Next(w, Create(c, rows), w')
    ensures Balances(w, Create(c, rows), w', tag, dir)
  {
    WriteBalances(w.table, Account(c, rows), tag, dir);
  }

  lemma EditBalances(w: World, c: Client, rows: Option<Rows>, w': World, tag: string, dir: Direction)
    requires Next(w, Edit(c, rows), w')
    ensures Balances(w, Edit(c, rows), w', tag, dir)
  {
    WriteBalances(w.table, EditedAccount(w.table, c, rows), tag, dir);
  }

  lemma StepBalances(w: World, step: Step, w': World, tag: string, dir: Direction)
    requires Next(w, step, w')
    ensures Balances(w, step, w', tag, dir)
  {
    match step
    case Traffic(t, d, bytes) => TrafficBalances(w, t, d, bytes, w', tag, dir);
    case SnapshotLost(counterReset) =>
    case SnapshotRecorded(now, cap, e, complete) => SnapshotBalances(w, now, cap, e, complete, w', tag, dir);
    case ExpireWrites(read, ok) => ExpireCharges(w.table, read.Keys, tag, dir);
    case ExpireInPlace(now) => ExpireCharges(w.table, ExpiredRows(w.table, now).Keys, tag, dir);
    case Create(c, rows) => CreateBalances(w, c, rows, w', tag, dir);
    case Delete(id) => DeleteBalances(w.table, id, tag, dir);
    case ResetTraffic(id, status) => ResetBalances(w.table, id, status, tag, dir);
    case Edit(c, rows) => EditBalances(w, c, rows, w', tag, dir);
    case _ =>
  }

  /** The ledger: over every run, whatever fails on the way, no byte of any tag is lost or invented. */
  lemma {:induction false} LedgerBalances(states: seq<World>, steps: seq<Step>, tag: string, dir: Direction)
    requires Run(states, steps)
    ensures Held(states[|steps|], tag, dir) + TotalDiscarded(states, steps, tag, dir)
            == Held(states[0], tag, dir) + TotalCredited(states, steps, tag, dir)
  {
    if steps != [] {
      var n := |steps| - 1;
      LedgerBalances(states[..n + 1], steps[..n], tag, dir);
      StepBalances(states[n], steps[n], states[n + 1], tag, dir);
    }
  }
}
