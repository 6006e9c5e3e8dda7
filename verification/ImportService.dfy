/** The import as the service runs it on the client table. */
module ImportService {

  import opened Basics
  import opened JsStrings
  import opened Clients
  import opened Usage
  import opened ControlPlane
  import opened ClientImport
  import Stores
  import ClientsService
  import XrayService
  import Ledger
  import Decimals

  // ----- every import keeps the unique indexes -----

  /** A newly drawn id and token that nobody has yet. */
  ghost predicate FreshDraw(t: Table, drawn: Drawn) {
    drawn.id !in t && Free(t, TokenOf, drawn.token, None)
  }

  lemma PutKeepsUnique(t: Table, id: ClientId, a: Account, field: Client -> string, current: Option<ClientId>)
    requires UniqueField(t, field) && Free(t, field, field(a.client), current)
    requires current == Some(id) || (current == None && id !in t)
    ensures UniqueField(t[id := a], field)
  {
  }

  lemma UniqueTagIsFree(t: Table, desired: string, fallback: string, current: Option<ClientId>)
    ensures Free(t, EmailTagOf, UniqueTag(t, desired, fallback, current), current)
  {
    FreeProbeExists(t, desired, fallback, current);
    var n: nat :| FirstFree(t, desired, fallback, current, n);
    UniqueTagIs(t, desired, fallback, current, n);
  }

  lemma FreeForAll(t: Table, field: Client -> string, value: string, current: Option<ClientId>)
    requires Free(t, field, value, None)
    ensures Free(t, field, value, current)
  {
  }

  lemma TargetExists(t: Table, item: Item)
    ensures Target(t, item).Some? ==> Target(t, item).value in t
  {
  }

  /** An import of one item keeps tags, uuids and tokens unique. */
  lemma ImportOneConsistent(t: Table, item: Item, overwrite: bool, owner: string, now: nat, drawn: Drawn)
    requires Consistent(t) && FreshDraw(t, drawn)
    ensures Consistent(ImportOne(t, item, overwrite, owner, now, drawn).0)
  {
    var (after, outcome) := ImportOne(t, item, overwrite, owner, now, drawn);
    if after != t {
      var target := Target(t, item);
      var id := target.GetOr(drawn.id);
      var a := ImportedAccount(t, item, owner, now, drawn);
      TargetExists(t, item);
      UniqueTagIsFree(t, item.emailTag, drawn.tag, target);
      FreeForAll(t, TokenOf, drawn.token, target);
      PutKeepsUnique(t, id, a, EmailTagOf, target);
      PutKeepsUnique(t, id, a, UuidOf, target);
      PutKeepsUnique(t, id, a, TokenOf, target);
    }
  }

  /** The draws for a whole bundle: all new, all different, and none guessed by an item. */
  ghost predicate FreshDraws(t: Table, items: seq<Item>, draws: seq<Drawn>) {
    && |draws| == |items|
    && (forall i :: 0 <= i < |draws| ==> FreshDraw(t, draws[i]))
    && (forall i, j :: 0 <= i < j < |draws| ==> draws[i].id != draws[j].id && draws[i].token != draws[j].token)
    && (forall i, j :: 0 <= i < |draws| && 0 <= j < |items| ==> draws[i].token != Trim(items[j].subscriptionToken))
  }

  lemma DrawsStayFresh(t: Table, items: seq<Item>, overwrite: bool, owner: string, now: nat, draws: seq<Drawn>)
    requires items != [] && FreshDraws(t, items, draws)
    ensures FreshDraws(ImportOne(t, items[0], overwrite, owner, now, draws[0]).0, items[1..], draws[1..])
  {
    var after := ImportOne(t, items[0], overwrite, owner, now, draws[0]).0;
    TargetExists(t, items[0]);
    forall i | 0 <= i < |draws[1..]| ensures FreshDraw(after, draws[1..][i]) {
      assert draws[1..][i] == draws[i + 1];
      assert FreshDraw(t, draws[i + 1]);
      assert draws[i + 1].token != Trim(items[0].subscriptionToken);
    }
  }

  lemma {:induction false} ImportAllConsistent(t: Table, items: seq<Item>, overwrite: bool, owner: string, now: nat, draws: seq<Drawn>)
    requires Consistent(t) && FreshDraws(t, items, draws)
    ensures Consistent(ImportAll(t, items, overwrite, owner, now, draws).0)
    decreases |items|
  {
    if items != [] {
      ImportOneConsistent(t, items[0], overwrite, owner, now, draws[0]);
      DrawsStayFresh(t, items, overwrite, owner, now, draws);
      var (after, outcome) := ImportOne(t, items[0], overwrite, owner, now, draws[0]);
      if !Failed(outcome) {
        ImportAllConsistent(after, items[1..], overwrite, owner, now, draws[1..]);
      }
    }
  }

  predicate AllFine(outcomes: seq<Outcome>) {
    forall i :: 0 <= i < |outcomes| ==> !Failed(outcomes[i])
  }

  lemma RestIsFine(first: Outcome, end: Table, rest: seq<Outcome>, all: (Table, seq<Outcome>))
    requires AllFine(all.1) && all.1 != [] && all.1[0] == first
    requires !Failed(first) ==> all == (end, [first] + rest)
    ensures !Failed(first) && AllFine(rest)
  {
    forall i | 0 <= i < |rest| ensures !Failed(rest[i]) {
      assert all.1[i + 1] == rest[i];
    }
  }

  /** The import as the loop builds it: one more item at the end. */
  lemma {:induction false} ImportOneMore(t: Table, items: seq<Item>, overwrite: bool, owner: string, now: nat, draws: seq<Drawn>, item: Item, drawn: Drawn)
    requires |draws| == |items| && AllFine(ImportAll(t, items, overwrite, owner, now, draws).1)
    ensures
      var (mid, outcomes) := ImportAll(t, items, overwrite, owner, now, draws);
      var (after, outcome) := ImportOne(mid, item, overwrite, owner, now, drawn);
      ImportAll(t, items + [item], overwrite, owner, now, draws + [drawn]) == (after, outcomes + [outcome])
    decreases |items|
  {
    if items == [] {
      ImportSingle(t, item, overwrite, owner, now, drawn);
      assert items + [item] == [item] && draws + [drawn] == [drawn];
      assert [] + [ImportOne(t, item, overwrite, owner, now, drawn).1] == [ImportOne(t, item, overwrite, owner, now, drawn).1];
    } else {
      var (next, first) := ImportOne(t, items[0], overwrite, owner, now, draws[0]);
      var (end, rest) := ImportAll(next, items[1..], overwrite, owner, now, draws[1..]);
      RestIsFine(first, end, rest, ImportAll(t, items, overwrite, owner, now, draws));
      ImportOneMore(next, items[1..], overwrite, owner, now, draws[1..], item, drawn);
      assert (items + [item])[1..] == items[1..] + [item] && (draws + [drawn])[1..] == draws[1..] + [drawn];
      var outcome := ImportOne(end, item, overwrite, owner, now, drawn).1;
      assert [first] + (rest + [outcome]) == ([first] + rest) + [outcome];
    }
  }

  lemma ImportSingle(t: Table, item: Item, overwrite: bool, owner: string, now: nat, drawn: Drawn)
    ensures
      var (after, outcome) := ImportOne(t, item, overwrite, owner, now, drawn);
      ImportAll(t, [item], overwrite, owner, now, [drawn]) == (after, [outcome])
  {
    var (after, outcome) := ImportOne(t, item, overwrite, owner, now, drawn);
    var items, draws := [item], [drawn];
    assert items[0] == item && draws[0] == drawn && items[1..] == [] && draws[1..] == [];
    assert ImportAll(after, [], overwrite, owner, now, []) == (after, []);
    assert [outcome] + [] == [outcome];
  }

  // ----- an imported item is a step -----

  /** The step of the control plane that writes an item's account. */
  predicate Imports(step: Step, outcome: Outcome, a: Account) {
    match outcome
    case Created(id) => step == Create(a.client, a.rows) && id == a.client.id
    case Updated(id) => step == Edit(a.client, Some(a.rows)) && id == a.client.id
    case _ => false
  }

  predicate Writes(outcome: Outcome) {
    outcome.Created? || outcome.Updated?
  }

  /** A new client with its usage, or an edit that replaces the usage: what an import writes is a step of the control
      plane, so that the ledger and the invariants of the steps hold of it. */
  lemma ImportIsAStep(w: World, item: Item, overwrite: bool, owner: string, now: nat, drawn: Drawn, step: Step)
    requires Valid(w.table) && FreshDraw(w.table, drawn)
    requires Imports(step, ImportOne(w.table, item, overwrite, owner, now, drawn).1, ImportedAccount(w.table, item, owner, now, drawn))
    ensures
      var a := ImportedAccount(w.table, item, owner, now, drawn);
      && Next(w, step, Written(w, a))
      && Written(w, a).table == ImportOne(w.table, item, overwrite, owner, now, drawn).0
  {
    ConsistentIsValid(w.table);
    ImportOneConsistent(w.table, item, overwrite, owner, now, drawn);
    ConsistentIsValid(ImportOne(w.table, item, overwrite, owner, now, drawn).0);
    TargetExists(w.table, item);
  }

  function StepFor(outcome: Outcome, a: Account): Step {
    if outcome.Created? then Create(a.client, a.rows) else Edit(a.client, Some(a.rows))
  }

  lemma PreparedIsAStep(w: World, item: Item, overwrite: bool, owner: string, now: nat, drawn: Drawn, outcome: Outcome, a: Account)
    requires Valid(w.table) && FreshDraw(w.table, drawn) && Writes(outcome)
    requires outcome == ImportOne(w.table, item, overwrite, owner, now, drawn).1 && a == ImportedAccount(w.table, item, owner, now, drawn)
    ensures Imports(StepFor(outcome, a), outcome, a) && Next(w, StepFor(outcome, a), Written(w, a))
    ensures (Written(w, a).table, outcome) == ImportOne(w.table, item, overwrite, owner, now, drawn)
  {
    TargetExists(w.table, item);
    ImportIsAStep(w, item, overwrite, owner, now, drawn, StepFor(outcome, a));
  }

  // ----- the service -----

  datatype Tally = Tally(created: nat, updated: nat, skipped: nat)

  function Counted(tally: Tally, outcome: Outcome): Tally {
    match outcome
    case Created(_) => tally.(created := tally.created + 1)
    case Updated(_) => tally.(updated := tally.updated + 1)
    case Skipped => tally.(skipped := tally.skipped + 1)
    case _ => tally
  }

  function Count(outcomes: seq<Outcome>): Tally {
    if outcomes == [] then Tally(0, 0, 0) else Counted(Count(outcomes[..|outcomes| - 1]), outcomes[|outcomes| - 1])
  }

  /** The writes of an import so far, and the records they hand to the syncs after it. */
  predicate Wrote(steps: seq<Step>, touched: seq<Client>) {
    |steps| == |touched| && forall i :: 0 <= i < |steps| ==> (steps[i].Create? || steps[i].Edit?) && steps[i].client == touched[i]
  }

  /** The writes so far lead to this state, in which the records still wait for their syncs. */
  ghost predicate Importing(start: World, w: World, writes: seq<Step>, touched: seq<Client>) {
    Reaches(start, writes, w) && Valid(w.table) && Wrote(writes, touched) && multiset(touched) <= w.waiting
  }

  lemma ImportingMore(start: World, w: World, writes: seq<Step>, touched: seq<Client>, step: Step, w': World)
    requires Importing(start, w, writes, touched) && Next(w, step, w') && (step.Create? || step.Edit?)
    requires w'.waiting == w.waiting + multiset{step.client}
    ensures Importing(start, w', writes + [step], touched + [step.client])
  {
    Ledger.NextKeepsValid(w, step, w');
    ReachMore(start, writes, w, step, w');
    WroteMore(writes, touched, step);
  }

  lemma WroteMore(steps: seq<Step>, touched: seq<Client>, step: Step)
    requires Wrote(steps, touched) && (step.Create? || step.Edit?)
    ensures Wrote(steps + [step], touched + [step.client])
    ensures multiset(touched + [step.client]) == multiset(touched) + multiset{step.client}
  {
  }

  /** One request to import a bundle. */
  datatype Request = Request(items: seq<Item>, overwrite: bool, owner: string, now: nat, draws: seq<Drawn>)

  /** Table and outcomes are those of the first items. */
  ghost predicate Imported(t: Table, r: Request, after: Table, outcomes: seq<Outcome>) {
    && |outcomes| <= |r.items| == |r.draws|
    && (after, outcomes) == ImportAll(t, r.items[..|outcomes|], r.overwrite, r.owner, r.now, r.draws[..|outcomes|])
  }

  /** The first items are imported, and the draws for the others are still new. */
  ghost predicate Going(t: Table, r: Request, after: Table, outcomes: seq<Outcome>) {
    && Imported(t, r, after, outcomes) && AllFine(outcomes)
    && FreshDraws(after, r.items[|outcomes|..], r.draws[|outcomes|..])
  }

  lemma NothingDone(t: Table, r: Request)
    requires FreshDraws(t, r.items, r.draws)
    ensures Going(t, r, t, [])
  {
    assert r.items[..0] == [] && r.draws[..0] == [] && r.items[0..] == r.items && r.draws[0..] == r.draws;
  }

  lemma DrawIsFresh(t: Table, r: Request, mid: Table, outcomes: seq<Outcome>)
    requires Going(t, r, mid, outcomes) && |outcomes| < |r.items|
    ensures |r.items| == |r.draws| && FreshDraw(mid, r.draws[|outcomes|])
  {
    assert r.draws[|outcomes|..][0] == r.draws[|outcomes|];
  }

  lemma ImportsOneMore(t: Table, r: Request, mid: Table, outcomes: seq<Outcome>, after: Table, outcome: Outcome)
    requires Imported(t, r, mid, outcomes) && AllFine(outcomes) && |outcomes| < |r.items| == |r.draws|
    requires (after, outcome) == ImportOne(mid, r.items[|outcomes|], r.overwrite, r.owner, r.now, r.draws[|outcomes|])
    ensures Imported(t, r, after, outcomes + [outcome])
  {
    var i := |outcomes|;
    FirstItems(r.items, i);
    FirstItems(r.draws, i);
    OneMoreItem(t, r, r.items[..i], r.draws[..i], r.items[i], r.draws[i], mid, outcomes, r.items[..i + 1], r.draws[..i + 1]);
    assert |outcomes + [outcome]| == i + 1;
  }

  lemma FirstItems<T>(s: seq<T>, i: nat)
    requires i < |s|
    ensures s[..i + 1] == s[..i] + [s[i]] && |s[..i]| == i
  {
  }

  lemma OneMoreItem(t: Table, r: Request, items: seq<Item>, draws: seq<Drawn>, item: Item, drawn: Drawn, mid: Table, outcomes: seq<Outcome>,
                    more: seq<Item>, moreDraws: seq<Drawn>)
    requires |items| == |draws| && more == items + [item] && moreDraws == draws + [drawn] && AllFine(outcomes)
    requires (mid, outcomes) == ImportAll(t, items, r.overwrite, r.owner, r.now, draws)
    ensures
      var (after, outcome) := ImportOne(mid, item, r.overwrite, r.owner, r.now, drawn);
      ImportAll(t, more, r.overwrite, r.owner, r.now, moreDraws) == (after, outcomes + [outcome])
  {
    ImportOneMore(t, items, r.overwrite, r.owner, r.now, draws, item, drawn);
  }

  lemma RestStaysFresh(r: Request, i: nat, mid: Table)
    requires i < |r.items| == |r.draws| && FreshDraws(mid, r.items[i..], r.draws[i..])
    ensures FreshDraws(ImportOne(mid, r.items[i], r.overwrite, r.owner, r.now, r.draws[i]).0, r.items[i + 1..], r.draws[i + 1..])
  {
    DrawsStayFresh(mid, r.items[i..], r.overwrite, r.owner, r.now, r.draws[i..]);
    assert r.items[i..][0] == r.items[i] && r.draws[i..][0] == r.draws[i];
    assert r.items[i..][1..] == r.items[i + 1..] && r.draws[i..][1..] == r.draws[i + 1..];
  }

  /** One turn of the loop. */
  lemma GoesOn(t: Table, r: Request, mid: Table, outcomes: seq<Outcome>, after: Table, outcome: Outcome)
    requires Going(t, r, mid, outcomes) && |outcomes| < |r.items| && |r.draws| == |r.items|
    requires (after, outcome) == ImportOne(mid, r.items[|outcomes|], r.overwrite, r.owner, r.now, r.draws[|outcomes|])
    ensures Imported(t, r, after, outcomes + [outcome])
    ensures !Failed(outcome) ==> Going(t, r, after, outcomes + [outcome])
  {
    ImportsOneMore(t, r, mid, outcomes, after, outcome);
    RestStaysFresh(r, |outcomes|, mid);
  }

  /** The tally counts the outcomes, and the touched clients are the created and the updated ones. */
  predicate Tallied(tally: Tally, outcomes: seq<Outcome>, touched: seq<Client>) {
    tally == Count(outcomes) && |touched| == tally.created + tally.updated
  }

  predicate EndedBy(outcomes: seq<Outcome>, failure: Outcome) {
    failure.Aborted? || (Failed(failure) && outcomes != [] && outcomes[|outcomes| - 1] == failure)
  }

  lemma CountMore(outcomes: seq<Outcome>, outcome: Outcome)
    ensures Count(outcomes + [outcome]) == Counted(Count(outcomes), outcome)
  {
    assert (outcomes + [outcome])[..|outcomes|] == outcomes;
  }

  lemma {:induction false} EverythingCounted(outcomes: seq<Outcome>)
    requires AllFine(outcomes)
    ensures Count(outcomes).created + Count(outcomes).updated + Count(outcomes).skipped == |outcomes|
  {
    if outcomes != [] {
      EverythingCounted(outcomes[..|outcomes| - 1]);
    }
  }

  /** Between two items of the loop. */
  ghost predicate Between(start: World, w: World, r: Request, i: nat, touched: seq<Client>, outcomes: seq<Outcome>, writes: seq<Step>) {
    |outcomes| == i && Going(start.table, r, w.table, outcomes) && Importing(start, w, writes, touched)
  }

  lemma TalliedMore(tally: Tally, before: seq<Outcome>, touched: seq<Client>, outcome: Outcome, outcomes: seq<Outcome>)
    requires tally == Count(before) && outcomes == if outcome.Aborted? then before else before + [outcome]
    requires |touched| == tally.created + tally.updated + if Writes(outcome) then 1 else 0
    ensures Tallied(Counted(tally, outcome), outcomes, touched)
  {
    CountMore(before, outcome);
  }

  lemma Begins(start: World, r: Request)
    requires Valid(start.table) && FreshDraws(start.table, r.items, r.draws)
    ensures Between(start, start, r, 0, [], [], [])
  {
    ReachNone(start);
    NothingDone(start.table, r);
  }

  /** The part of the clients service that imports. */
  class Service {
    const clients: ClientsService.Service
    const xrayService: XrayService.Service
    const db: Stores.Database

    constructor (clients: ClientsService.Service)
      ensures this.clients == clients && Wired()
    {
      this.clients, xrayService, db := clients, clients.xrayService, clients.xrayService.db;
    }

    predicate Wired() {
      xrayService == clients.xrayService && db == xrayService.db
    }

    /** A look-up by a unique index. */
    method FindUnique(field: Client -> string, value: string) returns (r: Option<ClientId>)
      requires UniqueField(db.table, field)
      ensures r == Holder(db.table, field, value)
    {
      var table := db.table;
      var left := table.Keys;
      while left != {}
        invariant left <= table.Keys
        invariant forall id :: id in table && id !in left ==> field(table[id].client) != value
      {
        var id :| id in left;
        if field(table[id].client) == value {
          return Some(id);
        }
        left := left - {id};
      }
      return None;
    }

    method FindImportTarget(item: Item) returns (r: Option<ClientId>)
      requires Consistent(db.table)
      ensures r == Target(db.table, item)
    {
      if item.id.Some? && item.id.value in db.table {
        return item.id;
      }
      var byUuid := FindUnique(UuidOf, item.uuid);
      if byUuid.Some? {
        return byUuid;
      }
      r := FindUnique(EmailTagOf, item.emailTag);
    }

    /** The loop ends: at most one probe more than there are clients, one further when the wanted tag is blank. */
    method EnsureUniqueEmailTag(desired: string, drawnTag: string, current: Option<ClientId>)
      returns (candidate: string, probes: nat)
      requires Consistent(db.table)
      ensures candidate == UniqueTag(db.table, desired, drawnTag, current)
      ensures 1 <= probes <= |db.table| + 1 + FirstCounted(desired)
    {
      var table := db.table;
      candidate := if Trim(desired) == "" then drawnTag else Trim(desired);
      var suffixCounter := 0;
      probes := 1;
      while true
        invariant candidate == Probe(desired, drawnTag, suffixCounter) && probes == suffixCounter + 1
        invariant AllTaken(table, desired, drawnTag, current, suffixCounter)
        invariant suffixCounter <= |table| + FirstCounted(desired)
        decreases |table| + FirstCounted(desired) + 1 - suffixCounter
      {
        var taken := IsTaken(candidate, current);
        if !taken {
          UniqueTagIs(table, desired, drawnTag, current, suffixCounter);
          return;
        }
        TakenAreFew(table, desired, drawnTag, current, suffixCounter + 1);
        suffixCounter := suffixCounter + 1;
        probes := probes + 1;
        candidate := desired + "-" + Decimals.Print(suffixCounter);
      }
    }

    method IsTaken(tag: string, current: Option<ClientId>) returns (taken: bool)
      requires Consistent(db.table)
      ensures taken <==> !Free(db.table, EmailTagOf, tag, current)
    {
      var existing := FindUnique(EmailTagOf, tag);
      taken := existing.Some? && existing != current;
    }

    /** The token is drawn anew until it is free; `drawnToken` is the first free draw. */
    method EnsureUniqueSubscriptionToken(desired: string, drawnToken: string, current: Option<ClientId>) returns (token: string)
      requires Consistent(db.table)
      ensures token == UniqueToken(db.table, desired, drawnToken, current)
    {
      if Trim(desired) == "" {
        return drawnToken;
      }
      var existing := FindUnique(TokenOf, Trim(desired));
      token := if existing.None? || existing == current then Trim(desired) else drawnToken;
    }

    /** What an item comes to before anything is written: the account to write, or why none is. */
    method Prepare(item: Item, overwrite: bool, owner: string, now: nat, drawn: Drawn) returns (outcome: Outcome, a: Option<Account>)
      requires Consistent(db.table)
      ensures outcome == ImportOne(db.table, item, overwrite, owner, now, drawn).1
      ensures a == if Writes(outcome) then Some(ImportedAccount(db.table, item, owner, now, drawn)) else None
    {
      var target := FindImportTarget(item);
      if target.Some? && !overwrite {
        return Skipped, None;
      }
      if !item.vlessEnabled && !item.wireguardEnabled {
        return NoTransport, None;
      }
      var emailTag, probes := EnsureUniqueEmailTag(item.emailTag, drawn.tag, target);
      var token := EnsureUniqueSubscriptionToken(item.subscriptionToken, drawn.token, target);
      var uuidHolder := FindUnique(UuidOf, item.uuid);
      if uuidHolder.Some? && uuidHolder != target {
        return UuidTaken, None;
      }
      var existing := if target.Some? then Some(db.table[target.value].client) else None;
      var id := target.GetOr(drawn.id);
      a := Some(Account(ImportedClient(item, existing, id, emailTag, token, owner, now), ImportedRows(item, now)));
      return if target.Some? then Updated(id) else Created(id), a;
    }

    /** One transaction, which may fail as a whole. */
    method ImportSingleClient(item: Item, overwrite: bool, owner: string, now: nat, drawn: Drawn)
      returns (outcome: Outcome, ghost step: Option<Step>)
      requires Wired() && Valid(db.table) && FreshDraw(db.table, drawn)
      modifies xrayService`waiting, db`table, db`failures
      ensures step.Some? <==> Writes(outcome)
      ensures xrayService.Failures() >= old(xrayService.Failures()) + if outcome.Aborted? then 1 else 0
      ensures if step.Some?
        then
          var a := ImportedAccount(old(db.table), item, owner, now, drawn);
          && Imports(step.value, outcome, a) && Next(old(xrayService.State()), step.value, xrayService.State())
          && xrayService.State() == Written(old(xrayService.State()), a)
        else xrayService.State() == old(xrayService.State())
      ensures outcome != Aborted ==> (db.table, outcome) == ImportOne(old(db.table), item, overwrite, owner, now, drawn)
    {
      ghost var before := xrayService.State();
      ConsistentIsValid(db.table);
      var a;
      outcome, a := Prepare(item, overwrite, owner, now, drawn);
      step := None;
      if a.Some? {
        ghost var s := StepFor(outcome, a.value);
        PreparedIsAStep(before, item, overwrite, owner, now, drawn, outcome, a.value);
        var ok := clients.CommitAccount(a.value);
        if !ok {
          return Aborted, None;
        }
        step := Some(s);
      }
    }

    /** The next item of the loop; what it writes is added to the records to sync. */
    method ImportNext(r: Request, i: nat, touched: seq<Client>, ghost start: World, ghost mid: World,
                      ghost outcomes: seq<Outcome>, ghost writes: seq<Step>)
      returns (outcome: Outcome, touched': seq<Client>, ghost after: World, ghost outcomes': seq<Outcome>, ghost writes': seq<Step>)
      requires Wired() && i < |r.items| && mid == xrayService.State()
      requires Between(start, mid, r, i, touched, outcomes, writes)
      modifies xrayService`waiting, db`table, db`failures
      ensures after == xrayService.State() && Importing(start, after, writes', touched')
      ensures xrayService.Failures() >= old(xrayService.Failures()) + if outcome.Aborted? then 1 else 0
      ensures Imported(start.table, r, after.table, outcomes')
      ensures outcomes' == if outcome.Aborted? then outcomes else outcomes + [outcome]
      ensures |touched'| == |touched| + if Writes(outcome) then 1 else 0
      ensures if Failed(outcome) then EndedBy(outcomes', outcome)
              else Between(start, after, r, i + 1, touched', outcomes', writes')
    {
      DrawIsFresh(start.table, r, db.table, outcomes);
      ghost var step;
      outcome, step := ImportSingleClient(r.items[i], r.overwrite, r.owner, r.now, r.draws[i]);
      after := xrayService.State();
      touched', writes', outcomes' := touched, writes, outcomes;
      if outcome.Aborted? {
        return;
      }
      outcomes' := outcomes + [outcome];
      GoesOn(start.table, r, mid.table, outcomes, db.table, outcome);
      if Writes(outcome) {
        ImportingMore(start, mid, writes, touched, step.value, after);
        writes' := writes + [step.value];
        touched' := touched + [db.table[outcome.id].client];
      }
    }

    /** The loop over the items; the first failure ends it, and what was written before stays. */
    method ImportItems(r: Request)
      returns (tally: Tally, failure: Option<Outcome>, touched: seq<Client>, ghost outcomes: seq<Outcome>, ghost writes: seq<Step>)
      requires Wired() && Valid(db.table) && FreshDraws(db.table, r.items, r.draws)
      modifies xrayService`waiting, db`table, db`failures
      ensures Importing(old(xrayService.State()), xrayService.State(), writes, touched)
      ensures Imported(old(db.table), r, db.table, outcomes) && Tallied(tally, outcomes, touched)
      ensures failure.None? ==> |outcomes| == |r.items| && AllFine(outcomes)
      ensures xrayService.Failures() >= old(xrayService.Failures()) + if failure == Some(Aborted) then 1 else 0
      ensures failure.Some? ==> EndedBy(outcomes, failure.value)
    {
      ghost var start := xrayService.State();
      ghost var current := start;
      Begins(start, r);
      tally, touched, failure := Tally(0, 0, 0), [], None;
      outcomes, writes := [], [];
      var i := 0;
      while i < |r.items|
        invariant 0 <= i <= |r.items| && current == xrayService.State()
        invariant Between(start, current, r, i, touched, outcomes, writes) && Tallied(tally, outcomes, touched)
        invariant xrayService.Failures() >= old(xrayService.Failures())
      {
        ghost var before := outcomes;
        var outcome;
        outcome, touched, current, outcomes, writes := ImportNext(r, i, touched, start, current, outcomes, writes);
        TalliedMore(tally, before, touched, outcome, outcomes);
        tally := Counted(tally, outcome);
        if Failed(outcome) {
          return tally, Some(outcome), touched, outcomes, writes;
        }
        i := i + 1;
      }
    }

    /** Imports the items and then syncs the clients it wrote. A failure on the way ends the request before any of
        them is synced. */
    method ImportClients(r: Request)
      returns (tally: Tally, failure: Option<Outcome>, ghost outcomes: seq<Outcome>, ghost touched: seq<Client>,
               ghost writes: seq<Step>, ghost mid: World, ghost syncs: seq<Step>)
      requires Wired() && Valid(db.table) && FreshDraws(db.table, r.items, r.draws)
      modifies xrayService, db, xrayService.xray
      ensures Reaches(old(xrayService.State()), writes, mid) && Wrote(writes, touched)
      ensures Imported(old(db.table), r, mid.table, outcomes) && Tallied(tally, outcomes, touched)
      ensures failure.None? ==> |outcomes| == |r.items| == tally.created + tally.updated + tally.skipped
      ensures failure.None? ==> ClientsService.HaveTurns(syncs, touched, r.now)
      ensures failure.Some? ==> syncs == [] && xrayService.State() == mid
      ensures xrayService.Failures() == old(xrayService.Failures()) ==> AllWell(syncs)
      ensures xrayService.Failures() >= old(xrayService.Failures()) + if failure == Some(Aborted) then 1 else 0
      ensures failure.Some? ==> EndedBy(outcomes, failure.value)
      ensures Reaches(mid, syncs, xrayService.State()) && Valid(db.table)
    {
      var written;
      tally, failure, written, outcomes, writes := ImportItems(r);
      touched, mid := written, xrayService.State();
      ReachNone(mid);
      syncs := [];
      if failure.None? {
        EverythingCounted(outcomes);
        syncs := SyncTouched(written, r.now);
      }
    }

    method SyncTouched(touched: seq<Client>, now: nat) returns (ghost syncs: seq<Step>)
      requires Wired() && Valid(db.table) && multiset(touched) <= xrayService.waiting
      modifies xrayService, db, xrayService.xray
      ensures Reaches(old(xrayService.State()), syncs, xrayService.State()) && Valid(db.table)
      ensures ClientsService.HaveTurns(syncs, touched, now)
      ensures xrayService.Failures() >= old(xrayService.Failures()) && (xrayService.Failures() == old(xrayService.Failures()) ==> AllWell(syncs))
    {
      ghost var start := xrayService.State();
      ReachNone(start);
      syncs := [];
      WholeSuffix(touched);
      for i := 0 to |touched|
        invariant Reaches(start, syncs, xrayService.State()) && Valid(db.table)
        invariant multiset(touched[i..]) <= xrayService.waiting
        invariant ClientsService.HaveTurns(syncs, touched[..i], now)
        invariant xrayService.Failures() >= old(xrayService.Failures()) && (xrayService.Failures() == old(xrayService.Failures()) ==> AllWell(syncs))
      {
        ghost var mid := xrayService.State();
        NextSuffix(touched, i);
        ghost var more := clients.SyncClientBestEffort(touched[i], now, multiset(touched[i..]));
        ReachBoth(start, syncs, mid, more, xrayService.State());
        ClientsService.HaveTurnsMore(syncs, more, touched[..i], touched[i], now);
        syncs := syncs + more;
      }
      assert touched[..|touched|] == touched;
    }
  }

  lemma WholeSuffix(cs: seq<Client>)
    ensures cs[0..] == cs && cs[..0] == []
  {
  }

  lemma NextSuffix(cs: seq<Client>, i: nat)
    requires i < |cs|
    ensures cs[i] in multiset(cs[i..]) && multiset(cs[i..]) - multiset{cs[i]} == multiset(cs[i + 1..])
    ensures cs[..i + 1] == cs[..i] + [cs[i]]
  {
    assert cs[i..] == [cs[i]] + cs[i + 1..];
  }
}
