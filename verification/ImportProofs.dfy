/**
 What an operator relies on when a bundle is imported: without overwriting nothing that exists
 changes and a second import does nothing; an export imported elsewhere restores every client.
 */
module ImportProofs {

  import opened Basics
  import opened JsStrings
  import opened Clients
  import opened Usage
  import opened ControlPlane
  import opened ClientImport
  import opened ImportService
  import opened StatNames
  import Ledger
  import EnforcementProofs

  // ----- importing without overwriting -----

  ghost predicate Keeps(t: Table, after: Table) {
    forall id :: id in t ==> id in after && after[id] == t[id]
  }

  predicate HasTransport(item: Item) {
    item.vlessEnabled || item.wireguardEnabled
  }

  lemma HolderStays(t: Table, after: Table, field: Client -> string, value: string)
    requires Keeps(t, after)
    ensures Holder(t, field, value).Some? ==> Holder(after, field, value).Some?
  {
  }

  /** An item that means a client goes on meaning one while clients are only added. */
  lemma TargetStays(t: Table, after: Table, item: Item)
    requires Keeps(t, after)
    ensures Target(t, item).Some? ==> Target(after, item).Some?
  {
    HolderStays(t, after, UuidOf, item.uuid);
    HolderStays(t, after, EmailTagOf, item.emailTag);
  }

  lemma CreatedIsTarget(t: Table, item: Item, owner: string, now: nat, drawn: Drawn)
    requires Target(t, item).None?
    ensures Target(t[drawn.id := ImportedAccount(t, item, owner, now, drawn)], item).Some?
  {
    var after := t[drawn.id := ImportedAccount(t, item, owner, now, drawn)];
    assert UuidOf(after[drawn.id].client) == item.uuid;
  }

  lemma NoClashWithoutTarget(t: Table, item: Item)
    requires Target(t, item).None?
    ensures !UuidClash(t, item)
  {
  }

  /** Without overwriting an item never fails, changes nothing that was there, and afterwards means a client. */
  lemma AddsOnly(t: Table, item: Item, owner: string, now: nat, drawn: Drawn)
    requires drawn.id !in t && HasTransport(item)
    ensures var (after, outcome) := ImportOne(t, item, false, owner, now, drawn);
      && !Failed(outcome) && Keeps(t, after) && Target(after, item).Some?
      && (outcome == Skipped <==> Target(t, item).Some?)
  {
    if Target(t, item).None? {
      NoClashWithoutTarget(t, item);
      CreatedIsTarget(t, item, owner, now, drawn);
    }
  }

  ghost predicate AllMeanSomebody(t: Table, items: seq<Item>) {
    forall i :: 0 <= i < |items| ==> Target(t, items[i]).Some?
  }

  predicate AllHaveTransport(items: seq<Item>) {
    forall i :: 0 <= i < |items| ==> HasTransport(items[i])
  }

  predicate NoneFailed(outcomes: seq<Outcome>) {
    forall i :: 0 <= i < |outcomes| ==> outcomes[i].Skipped? || outcomes[i].Created?
  }

  /** Nothing that was there changed, no item failed, and afterwards every item means a client. */
  ghost predicate OnlyAdded(t: Table, items: seq<Item>, after: Table, outcomes: seq<Outcome>) {
    Keeps(t, after) && |outcomes| == |items| && AllMeanSomebody(after, items) && NoneFailed(outcomes)
  }

  lemma OneMoreAdded(t: Table, items: seq<Item>, mid: Table, outcome: Outcome, after: Table, rest: seq<Outcome>)
    requires items != [] && Keeps(t, mid) && Target(mid, items[0]).Some? && (outcome.Skipped? || outcome.Created?)
    requires OnlyAdded(mid, items[1..], after, rest)
    ensures OnlyAdded(t, items, after, [outcome] + rest)
  {
    TargetStays(mid, after, items[0]);
  }

  lemma {:induction false} WithoutOverwrite(t: Table, items: seq<Item>, owner: string, now: nat, draws: seq<Drawn>)
    requires FreshDraws(t, items, draws) && AllHaveTransport(items)
    ensures var (after, outcomes) := ImportAll(t, items, false, owner, now, draws); OnlyAdded(t, items, after, outcomes)
    decreases |items|
  {
    if items != [] {
      var (mid, outcome) := ImportOne(t, items[0], false, owner, now, draws[0]);
      AddsOnly(t, items[0], owner, now, draws[0]);
      DrawsStayFresh(t, items, false, owner, now, draws);
      WithoutOverwrite(mid, items[1..], owner, now, draws[1..]);
      var (after, rest) := ImportAll(mid, items[1..], false, owner, now, draws[1..]);
      OneMoreAdded(t, items, mid, outcome, after, rest);
    }
  }

  lemma {:induction false} AllSkipped(t: Table, items: seq<Item>, owner: string, now: nat, draws: seq<Drawn>)
    requires AllMeanSomebody(t, items) && |draws| == |items|
    ensures var (after, outcomes) := ImportAll(t, items, false, owner, now, draws);
      && after == t && |outcomes| == |items| && forall i :: 0 <= i < |outcomes| ==> outcomes[i] == Skipped
    decreases |items|
  {
    if items != [] {
      AllSkipped(t, items[1..], owner, now, draws[1..]);
    }
  }

  /** Importing the same bundle a second time skips every item and changes nothing. */
  lemma SecondImportSkipsAll(t: Table, items: seq<Item>, owner: string, now: nat, draws: seq<Drawn>,
                             later: nat, otherOwner: string, otherDraws: seq<Drawn>)
    requires FreshDraws(t, items, draws) && AllHaveTransport(items) && |otherDraws| == |items|
    ensures var first := ImportAll(t, items, false, owner, now, draws).0;
      var (second, outcomes) := ImportAll(first, items, false, otherOwner, later, otherDraws);
      && Keeps(t, first) && second == first
      && |outcomes| == |items| && forall i :: 0 <= i < |outcomes| ==> outcomes[i] == Skipped
  {
    WithoutOverwrite(t, items, owner, now, draws);
    AllSkipped(ImportAll(t, items, false, owner, now, draws).0, items, otherOwner, later, otherDraws);
  }

  /** Overwriting fails on a uuid exactly when the item's id finds one client and its uuid belongs to another. */
  lemma UuidClashExactly(t: Table, item: Item)
    requires Consistent(t)
    ensures UuidClash(t, item) <==>
      (item.id.Some? && item.id.value in t && Holder(t, UuidOf, item.uuid).Some? && Holder(t, UuidOf, item.uuid) != item.id)
  {
  }

  // ----- exporting, then importing into an empty table -----

  /** What an export says about a client at time `now`. */
  ghost function Exported(a: Account, now: int): Item {
    var c, sum := a.client, Sum(a.rows);
    Item(Some(c.id), c.uuid, c.emailTag, c.displayName, ResolveEffectiveStatus(c, sum.total, now),
         Some(c.createdAt), c.startsAt, c.expiresAt, c.durationDays, c.trafficLimitBytes, c.isTrafficUnlimited,
         sum.total, sum.incoming, sum.outgoing, c.deviceLimit, c.ipLimit, c.vlessEnabled, c.wireguardEnabled,
         c.subscriptionToken, c.transportProfile, LatestConnections(a.rows))
  }

  /** A record whose texts the import leaves as they are. */
  predicate Portable(c: Client) {
    && c.emailTag != "" && Trimmed(c.emailTag)
    && c.subscriptionToken != "" && Trimmed(c.subscriptionToken)
    && Trimmed(c.displayName) && (c.vlessEnabled || c.wireguardEnabled)
  }

  /** Everything an export promises to carry over. */
  ghost predicate Restores(b: Account, a: Account, now: int, later: nat) {
    && b.client == a.client.(
         id := b.client.id,
         createdByAdminUserId := b.client.createdByAdminUserId,
         status := ImportedStatus(Exported(a, now), later),
         lastActivatedAt := None,
         lastSeenAt := None)
    && Sum(b.rows) == Sum(a.rows)
    && LatestConnections(b.rows) == LatestConnections(a.rows)
  }

  /** The status after the import is the client's effective one at that time, unless it was shown as over its quota before
      it expired: a shown block is stored as a block. */
  lemma RestoredStatusExactly(a: Account, now: int, later: nat)
    requires now <= later
    ensures var shown := ResolveEffectiveStatus(a.client, Sum(a.rows).total, now);
      ImportedStatus(Exported(a, now), later) == ResolveEffectiveStatus(a.client, Sum(a.rows).total, later)
      <==> !(shown == BLOCKED && a.client.status != BLOCKED && Expired(a.client.expiresAt, later))
  {
  }

  lemma NoRows()
    ensures Sum(map[]) == ZERO && LatestConnections(map[]) == 0
  {
    var none: Rows := map[];
    assert none.Keys == {};
    assert forall day: nat :: !IsLatest(none, day);
  }

  lemma ImportedUsage(item: Item, now: nat)
    ensures Sum(ImportedRows(item, now)) == Bytes(item.incomingBytes, item.outgoingBytes, item.trafficUsedBytes)
    ensures LatestConnections(ImportedRows(item, now)) == item.activeConnections
  {
    var row := UsageRow(item.incomingBytes, item.outgoingBytes, item.trafficUsedBytes, item.activeConnections);
    if HasUsage(item) {
      OneRowSum(UtcDay(now), row);
      assert IsLatest(ImportedRows(item, now), UtcDay(now));
      LatestIs(ImportedRows(item, now), UtcDay(now));
    } else {
      NoRows();
    }
  }

  // ----- imported usage in the ledger and under the quota -----

  /** The usage an item brings along is credited to its client's tag, in each direction. */
  lemma ImportIsCredited(w: World, item: Item, overwrite: bool, owner: string, now: nat, drawn: Drawn, step: Step, dir: Direction)
    requires Valid(w.table) && FreshDraw(w.table, drawn)
    requires Imports(step, ImportOne(w.table, item, overwrite, owner, now, drawn).1, ImportedAccount(w.table, item, owner, now, drawn))
    ensures
      var a := ImportedAccount(w.table, item, owner, now, drawn);
      Ledger.Credited(w, step, a.client.emailTag, dir) == if dir.Uplink? then item.outgoingBytes else item.incomingBytes
  {
    ImportedUsage(item, now);
    ImportIsAStep(w, item, overwrite, owner, now, drawn, step);
  }

  /** An item whose client is over its quota although it is disabled, or, unless it is BLOCKED, expired. */
  predicate SlipsQuota(item: Item, now: nat) {
    && !item.isTrafficUnlimited && item.trafficLimitBytes.Some? && 0 < item.trafficLimitBytes.value <= item.trafficUsedBytes
    && (item.status == DISABLED || (item.status != BLOCKED && Expired(item.expiresAt, now)))
  }

  /** An import blocks the clients that it brings along over their quota, with exactly these exceptions. */
  lemma ImportKeepsQuotaExactly(w: World, item: Item, overwrite: bool, owner: string, now: nat, drawn: Drawn, step: Step)
    requires Valid(w.table) && FreshDraw(w.table, drawn) && EnforcementProofs.QuotaSafe(w)
    requires Imports(step, ImportOne(w.table, item, overwrite, owner, now, drawn).1, ImportedAccount(w.table, item, owner, now, drawn))
    ensures
      var a := ImportedAccount(w.table, item, owner, now, drawn);
      EnforcementProofs.QuotaSafe(Written(w, a)) <==> !SlipsQuota(item, now)
  {
    ImportedUsage(item, now);
    EnforcementProofs.WriteKeepsQuotaExactly(w, ImportedAccount(w.table, item, owner, now, drawn));
  }

  /** Any relation between a restored and an original account. */
  type Relation = (Account, Account) -> bool

  /** The account is related to some client of `order[..i]`. */
  ghost predicate FromSource(b: Account, source: Table, order: seq<ClientId>, i: nat, rel: Relation) {
    exists j :: 0 <= j < i && j < |order| && order[j] in source && rel(b, source[order[j]])
  }

  ghost predicate HasRelated(t: Table, a: Account, rel: Relation) {
    exists id :: id in t && rel(t[id], a)
  }

  /** One related account for each client of `order[..i]`, and nobody else. */
  ghost predicate Related(t: Table, source: Table, order: seq<ClientId>, i: nat, rel: Relation) {
    && i <= |order| && |t| == i
    && (forall j :: 0 <= j < i ==> order[j] in source && HasRelated(t, source[order[j]], rel))
    && (forall id :: id in t ==> id !in source && FromSource(t[id], source, order, i, rel))
  }

  /** The source's clients are listed once each. */
  ghost predicate Lists(order: seq<ClientId>, source: Table) {
    && (forall i :: 0 <= i < |order| ==> order[i] in source)
    && (forall i, j :: 0 <= i < j < |order| ==> order[i] != order[j])
  }

  lemma RelatedHasOneMore(t: Table, source: Table, order: seq<ClientId>, i: nat, rel: Relation, id: ClientId, b: Account, j: nat)
    requires i < |order| && Related(t, source, order, i, rel)
    requires id !in t && order[i] in source && rel(b, source[order[i]]) && j <= i
    ensures order[j] in source && HasRelated(t[id := b], source[order[j]], rel)
  {
    var after := t[id := b];
    if j < i {
      var x :| x in t && rel(t[x], source[order[j]]);
      assert after[x] == t[x];
    } else {
      assert after[id] == b;
    }
  }

  lemma RelatedOneMore(t: Table, source: Table, order: seq<ClientId>, i: nat, rel: Relation, id: ClientId, b: Account)
    requires i < |order| && Related(t, source, order, i, rel)
    requires id !in t && id !in source && order[i] in source && rel(b, source[order[i]])
    ensures Related(t[id := b], source, order, i + 1, rel)
  {
    forall j: nat | j < i + 1 ensures order[j] in source && HasRelated(t[id := b], source[order[j]], rel) {
      RelatedHasOneMore(t, source, order, i, rel, id, b, j);
    }
    forall x | x in t[id := b] ensures x !in source && FromSource(t[id := b][x], source, order, i + 1, rel) {
      if x != id {
        assert FromSource(t[x], source, order, i, rel);
      }
    }
  }

  lemma NewRecord(t: Table, a: Account, owner: string, now: int, later: nat, drawn: Drawn)
    requires Portable(a.client)
    requires Target(t, Exported(a, now)).None?
    requires Free(t, EmailTagOf, a.client.emailTag, None) && Free(t, TokenOf, a.client.subscriptionToken, None)
    ensures Restores(ImportedAccount(t, Exported(a, now), owner, later, drawn), a, now, later)
  {
    var item := Exported(a, now);
    TrimKeeps(a.client.emailTag);
    TrimKeeps(a.client.subscriptionToken);
    TrimKeeps(a.client.displayName);
    UniqueTagIs(t, item.emailTag, drawn.tag, None, 0);
    ImportedUsage(item, later);
  }

  /** The relation keeps what identifies a client, and holds of what an import of an exported client creates. */
  ghost predicate Carried(rel: Relation, owner: string, now: int, later: nat) {
    && (forall b, a :: rel(b, a) ==>
         b.client.uuid == a.client.uuid && b.client.emailTag == a.client.emailTag
         && b.client.subscriptionToken == a.client.subscriptionToken)
    && (forall t: Table, a: Account, drawn: Drawn :: NewTo(t, a, now) ==>
         rel(ImportedAccount(t, Exported(a, now), owner, later, drawn), a))
  }

  ghost predicate NewTo(t: Table, a: Account, now: int) {
    && Portable(a.client) && Target(t, Exported(a, now)).None?
    && Free(t, EmailTagOf, a.client.emailTag, None) && Free(t, TokenOf, a.client.subscriptionToken, None)
  }

  lemma RestoresIsCarried(rel: Relation, owner: string, now: int, later: nat)
    requires forall b, a :: rel(b, a) <==> Restores(b, a, now, later)
    ensures Carried(rel, owner, now, later)
  {
    forall t: Table, a: Account, drawn: Drawn | NewTo(t, a, now)
      ensures rel(ImportedAccount(t, Exported(a, now), owner, later, drawn), a)
    {
      NewRecord(t, a, owner, now, later, drawn);
    }
  }

  /** The source is consistent, portable, and listed once each. */
  ghost predicate Exportable(source: Table, order: seq<ClientId>) {
    Consistent(source) && Lists(order, source) && forall id :: id in source ==> Portable(source[id].client)
  }

  lemma RestoreNext(t: Table, source: Table, order: seq<ClientId>, i: nat, overwrite: bool, owner: string, now: int, later: nat,
                    drawn: Drawn, rel: Relation, a: Account, item: Item)
    returns (b: Account)
    requires Exportable(source, order) && i < |order| && Related(t, source, order, i, rel) && Carried(rel, owner, now, later)
    requires drawn.id !in t && drawn.id !in source
    requires a == source[order[i]] && item == Exported(a, now)
    ensures ImportOne(t, item, overwrite, owner, later, drawn) == (t[drawn.id := b], Created(drawn.id))
    ensures rel(b, a)
  {
    b := ImportedAccount(t, item, owner, later, drawn);
    assert NewTo(t, a, now);
  }

  // ----- a bundle as a chain of steps -----

  type ImportStepper = (Table, Item, Drawn) -> (Table, Outcome)

  ghost function Chain(t: Table, items: seq<Item>, draws: seq<Drawn>, step: ImportStepper): Table
    requires |draws| == |items|
    decreases |items|
  {
    if items == [] then t
    else
      var (after, outcome) := step(t, items[0], draws[0]);
      if Failed(outcome) then after else Chain(after, items[1..], draws[1..], step)
  }

  ghost predicate Steps(step: ImportStepper, overwrite: bool, owner: string, now: nat) {
    forall t, item, drawn :: step(t, item, drawn) == ImportOne(t, item, overwrite, owner, now, drawn)
  }

  lemma {:induction false} ImportAllIsChain(t: Table, items: seq<Item>, overwrite: bool, owner: string, now: nat, draws: seq<Drawn>,
                                            step: ImportStepper)
    requires |draws| == |items| && Steps(step, overwrite, owner, now)
    ensures ImportAll(t, items, overwrite, owner, now, draws).0 == Chain(t, items, draws, step)
    decreases |items|
  {
    if items != [] {
      var (after, outcome) := step(t, items[0], draws[0]);
      ImportAllIsChain(after, items[1..], overwrite, owner, now, draws[1..], step);
    }
  }

  ghost function ExportedItems(source: Table, order: seq<ClientId>, now: int): (items: seq<Item>)
    requires forall i :: 0 <= i < |order| ==> order[i] in source
    ensures |items| == |order| && forall i :: 0 <= i < |items| ==> items[i] == Exported(source[order[i]], now)
  {
    seq(|order|, i requires 0 <= i < |order| => Exported(source[order[i]], now))
  }

  ghost predicate NewIds(t: Table, source: Table, draws: seq<Drawn>, i: nat) {
    && (forall j :: i <= j < |draws| ==> draws[j].id !in t && draws[j].id !in source)
    && (forall j, k :: 0 <= j < k < |draws| ==> draws[j].id != draws[k].id)
  }

  lemma ChainStep(t: Table, items: seq<Item>, draws: seq<Drawn>, i: nat, step: ImportStepper)
    requires i < |items| == |draws| && !Failed(step(t, items[i], draws[i]).1)
    ensures Chain(t, items[i..], draws[i..], step) == Chain(step(t, items[i], draws[i]).0, items[i + 1..], draws[i + 1..], step)
  {
    assert items[i..][0] == items[i] && draws[i..][0] == draws[i];
    assert items[i..][1..] == items[i + 1..] && draws[i..][1..] == draws[i + 1..];
  }

  /** Item i succeeds and takes the invariant one further. */
  ghost predicate StepKeeps(t: Table, i: nat, items: seq<Item>, draws: seq<Drawn>, step: ImportStepper, inv: (Table, nat) -> bool)
    requires i < |items| == |draws|
  {
    var (after, outcome) := step(t, items[i], draws[i]);
    !Failed(outcome) && inv(after, i + 1)
  }

  lemma {:induction false} ChainKeeps(t: Table, i: nat, items: seq<Item>, draws: seq<Drawn>, step: ImportStepper,
                                      inv: (Table, nat) -> bool)
    requires i <= |items| == |draws| && inv(t, i)
    requires forall u: Table, j: nat :: j < |items| && inv(u, j) ==> StepKeeps(u, j, items, draws, step, inv)
    ensures inv(Chain(t, items[i..], draws[i..], step), |items|)
    decreases |items| - i
  {
    if i < |items| {
      assert StepKeeps(t, i, items, draws, step, inv);
      ChainStep(t, items, draws, i, step);
      ChainKeeps(step(t, items[i], draws[i]).0, i + 1, items, draws, step, inv);
    }
  }

  ghost predicate Progress(t: Table, source: Table, order: seq<ClientId>, draws: seq<Drawn>, i: nat, rel: Relation) {
    Related(t, source, order, i, rel) && NewIds(t, source, draws, i)
  }

  lemma ItemProgresses(t: Table, source: Table, order: seq<ClientId>, i: nat, overwrite: bool, owner: string, now: int, later: nat,
                       draws: seq<Drawn>, rel: Relation, a: Account, item: Item, drawn: Drawn)
    requires Exportable(source, order) && i < |order| == |draws| && Carried(rel, owner, now, later)
    requires Progress(t, source, order, draws, i, rel)
    requires a == source[order[i]] && item == Exported(a, now) && drawn == draws[i]
    ensures var (after, outcome) := ImportOne(t, item, overwrite, owner, later, drawn);
      !Failed(outcome) && Progress(after, source, order, draws, i + 1, rel)
  {
    var b := RestoreNext(t, source, order, i, overwrite, owner, now, later, drawn, rel, a, item);
    RelatedOneMore(t, source, order, i, rel, drawn.id, b);
    NewIdsNext(t, source, draws, i, b);
  }

  lemma NewIdsNext(t: Table, source: Table, draws: seq<Drawn>, i: nat, b: Account)
    requires i < |draws| && NewIds(t, source, draws, i)
    ensures NewIds(t[draws[i].id := b], source, draws, i + 1)
  {
  }

  lemma RestoresAll(source: Table, order: seq<ClientId>, overwrite: bool, owner: string, now: int, later: nat,
                    draws: seq<Drawn>, rel: Relation, items: seq<Item>, step: ImportStepper, inv: (Table, nat) -> bool)
    requires Exportable(source, order) && |draws| == |items| == |order| && Carried(rel, owner, now, later)
    requires NewIds(map[], source, draws, 0) && Steps(step, overwrite, owner, later)
    requires forall j :: 0 <= j < |order| ==> items[j] == Exported(source[order[j]], now)
    requires forall t: Table, i: nat :: inv(t, i) <==> i <= |order| && Progress(t, source, order, draws, i, rel)
    ensures Related(Chain(map[], items, draws, step), source, order, |order|, rel)
  {
    forall u: Table, j: nat | j < |items| && inv(u, j) ensures StepKeeps(u, j, items, draws, step, inv) {
      ItemProgresses(u, source, order, j, overwrite, owner, now, later, draws, rel, source[order[j]], items[j], draws[j]);
    }
    ChainKeeps(map[], 0, items, draws, step, inv);
    assert items[0..] == items && draws[0..] == draws;
  }

  /** An export imported into an empty table creates exactly one client for each exported one, with everything that
      `Restores` lists; the drawn ids are new to both tables. */
  lemma ExportImportRestores(source: Table, order: seq<ClientId>, overwrite: bool, owner: string, now: int, later: nat, draws: seq<Drawn>,
                             rel: Relation, items: seq<Item>)
    requires Exportable(source, order) && |draws| == |order| && NewIds(map[], source, draws, 0)
    requires items == ExportedItems(source, order, now)
    requires forall b, a :: rel(b, a) <==> Restores(b, a, now, later)
    ensures Related(ImportAll(map[], items, overwrite, owner, later, draws).0, source, order, |order|, rel)
  {
    var step: ImportStepper := (t, item, drawn) => ImportOne(t, item, overwrite, owner, later, drawn);
    var inv := (t: Table, i: nat) => i <= |order| && Progress(t, source, order, draws, i, rel);
    RestoresIsCarried(rel, owner, now, later);
    ImportAllIsChain(map[], items, overwrite, owner, later, draws, step);
    RestoresAll(source, order, overwrite, owner, now, later, draws, rel, items, step, inv);
  }
}
