/**
 What a full sync achieves although every other step may come between its turns, and where the
 user map does not follow the table: users that nobody's row asks for, and repairs that are forgotten.
 */
module SyncProofs {

  import opened Basics
  import opened StatNames
  import opened TrafficDeltas
  import opened Clients
  import opened Usage
  import opened ControlPlane
  import opened Ledger
  import opened EnforcementProofs

  // ----- one full sync, with anything in between -----

  /** The steps from the read of a full sync to its end. */
  ghost predicate OneSync(states: seq<World>, steps: seq<Step>) {
    && Run(states, steps) && |steps| >= 2
    && steps[0] == SyncReads && steps[|steps| - 1] == SyncEnds
    && forall i :: 0 < i < |steps| - 1 ==> !steps[i].SyncReads? && !steps[i].SyncEnds?
  }

  /** A step other than the sync's own turn that changes the user of a tag. */
  predicate Disturbs(step: Step, tag: string) {
    match step
    case Restart => true
    case SnapshotRecorded(_, _, e, _) => tag in e.cut
    case ClientTurn(c, _, turn, _) => c.emailTag == tag && !turn.Untouched?
    case _ => false
  }

  /** Among the first n steps the client had its turn, and its user is what the record that was read asked for then. */
  ghost predicate HadTurn(states: seq<World>, steps: seq<Step>, n: nat, id: ClientId, c: Client)
    requires n <= |steps| && |states| == |steps| + 1
  {
    exists k :: 0 <= k < n && steps[k].SyncTurn? && steps[k].id == id
                && Lookup(states[n].users, c.emailTag) == Desired(c, steps[k].now)
  }

  /** After n steps of the sync: what is left was read at the beginning, and whoever is not left had his turn. */
  ghost predicate Progress(states: seq<World>, steps: seq<Step>, n: nat, read: Table, id: ClientId)
    requires n <= |steps| && |states| == |steps| + 1 && id in read
  {
    states[n].inSync.Some? ==>
      var left := states[n].inSync.value;
      && (forall x :: x in left ==> x in read && left[x] == read[x])
      && (id !in left ==> HadTurn(states, steps, n, id, read[id].client))
  }

  lemma DesiredAfterTurn(users: map<string, string>, c: Client, now: nat)
    ensures Lookup(Turned(users, c, now, AsDesired), c.emailTag) == Desired(c, now)
  {
  }

  lemma TurnProgresses(states: seq<World>, steps: seq<Step>, n: nat, read: Table, id: ClientId)
    requires Run(states, steps) && n < |steps| && steps[n].SyncTurn? && Valid(read) && id in read
    requires Progress(states, steps, n, read, id)
    ensures Progress(states, steps, n + 1, read, id)
  {
    assert Next(states[n], steps[n], states[n + 1]);
    var x := steps[n].id;
    if steps[n].ok && x == id {
      DesiredAfterTurn(states[n].users, read[id].client, steps[n].now);
      assert HadTurn(states, steps, n + 1, id, read[id].client);
    }
  }

  lemma MeanwhileProgresses(states: seq<World>, steps: seq<Step>, n: nat, read: Table, id: ClientId)
    requires Run(states, steps) && n < |steps| && !OfFullSync(steps[n]) && id in read
    requires !Disturbs(steps[n], read[id].client.emailTag)
    requires Progress(states, steps, n, read, id)
    ensures Progress(states, steps, n + 1, read, id)
  {
    assert Next(states[n], steps[n], states[n + 1]);
  }

  lemma {:induction false} SyncProgress(states: seq<World>, steps: seq<Step>, n: nat, id: ClientId)
    requires OneSync(states, steps) && 1 <= n < |steps| && id in states[0].table
    requires forall i :: 0 <= i < |steps| ==> !Disturbs(steps[i], states[0].table[id].client.emailTag)
    ensures Progress(states, steps, n, states[0].table, id)
  {
    assert Next(states[0], steps[0], states[1]);
    if n > 1 {
      SyncProgress(states, steps, n - 1, id);
      if steps[n - 1].SyncTurn? {
        TurnProgresses(states, steps, n - 1, states[0].table, id);
      } else {
        MeanwhileProgresses(states, steps, n - 1, states[0].table, id);
      }
    }
  }

  /** From any user map, and with anything between its turns: when a full sync ends, the user of every client whose tag
      nothing else disturbed is what the row that was read asked for at the client's turn. */
  lemma FullSyncFollowsRead(states: seq<World>, steps: seq<Step>, id: ClientId)
    requires OneSync(states, steps) && id in states[0].table
    requires forall i :: 0 <= i < |steps| ==> !Disturbs(steps[i], states[0].table[id].client.emailTag)
    ensures HadTurn(states, steps, |steps|, id, states[0].table[id].client)
    ensures states[|steps|].provisioned && states[|steps|].inSync.None?
  {
    var n := |steps| - 1;
    SyncProgress(states, steps, n, id);
    assert Next(states[n], steps[n], states[n + 1]);
    assert states[n].inSync == Some(map[]);
  }

  /** What a row asks of the runtime depends on these fields alone. */
  predicate AsksTheSame(c: Client, c': Client) {
    c'.uuid == c.uuid && c'.vlessEnabled == c.vlessEnabled && c'.status == c.status && c'.expiresAt == c.expiresAt
    && Quota(c') == Quota(c) && c'.emailTag == c.emailTag
  }

  /** So the runtime agrees with the table as it is at the end, for every client whose row asks the same as when it was read. */
  lemma FullSyncConverges(states: seq<World>, steps: seq<Step>, id: ClientId)
    requires OneSync(states, steps) && id in states[0].table && id in states[|steps|].table
    requires AsksTheSame(states[0].table[id].client, states[|steps|].table[id].client)
    requires forall i :: 0 <= i < |steps| ==> !Disturbs(steps[i], states[0].table[id].client.emailTag)
    ensures HadTurn(states, steps, |steps|, id, states[|steps|].table[id].client)
  {
    FullSyncFollowsRead(states, steps, id);
    var c, c' := states[0].table[id].client, states[|steps|].table[id].client;
    var k :| 0 <= k < |steps| && steps[k].SyncTurn? && steps[k].id == id
             && Lookup(states[|steps|].users, c.emailTag) == Desired(c, steps[k].now);
    assert Desired(c', steps[k].now) == Desired(c, steps[k].now);
  }

  // ----- a full sync that nothing interrupts -----

  ghost predicate Uninterrupted(states: seq<World>, steps: seq<Step>, now: nat) {
    && OneSync(states, steps)
    && forall i :: 0 <= i < |steps| ==> OfFullSync(steps[i]) && (steps[i].SyncTurn? ==> steps[i].now == now)
  }

  ghost predicate Agrees(w: World, now: nat) {
    forall id :: id in w.table ==>
      var c := w.table[id].client;
      Lookup(w.users, c.emailTag) == if c.vlessEnabled && ResolveEffectiveStatus(c, 0, now) == ACTIVE then Some(c.uuid) else None
  }

  lemma {:induction false} SameTable(states: seq<World>, steps: seq<Step>, n: nat)
    requires Run(states, steps) && n <= |steps|
    requires forall i :: 0 <= i < |steps| ==> OfFullSync(steps[i])
    ensures states[n].table == states[0].table
  {
    if n > 0 {
      SameTable(states, steps, n - 1);
      assert Next(states[n - 1], steps[n - 1], states[n]);
    }
  }

  lemma {:induction false} StrangersUntouched(states: seq<World>, steps: seq<Step>, n: nat, tag: string)
    requires Run(states, steps) && n <= |steps| && |steps| > 0 && steps[0] == SyncReads
    requires forall i :: 0 <= i < |steps| ==> OfFullSync(steps[i]) && (i > 0 ==> !steps[i].SyncReads?)
    requires Owner(states[0].table, tag).None?
    ensures Lookup(states[n].users, tag) == Lookup(states[0].users, tag)
    ensures n > 0 && states[n].inSync.Some? ==>
      forall x :: x in states[n].inSync.value ==> x in states[0].table && states[n].inSync.value[x] == states[0].table[x]
  {
    if n > 0 {
      StrangersUntouched(states, steps, n - 1, tag);
      assert Next(states[n - 1], steps[n - 1], states[n]);
      if steps[n - 1].SyncTurn? {
        assert states[n - 1].inSync.value[steps[n - 1].id].client.emailTag != tag;
      }
    }
  }

  /** It makes the whole map agree with the table and leaves the tags alone that no client holds. */
  lemma UninterruptedSyncAgrees(states: seq<World>, steps: seq<Step>, now: nat)
    requires Uninterrupted(states, steps, now)
    ensures states[|steps|].table == states[0].table && Agrees(states[|steps|], now)
    ensures forall tag :: Owner(states[0].table, tag).None? ==> Lookup(states[|steps|].users, tag) == Lookup(states[0].users, tag)
  {
    SameTable(states, steps, |steps|);
    forall id | id in states[0].table
      ensures Lookup(states[|steps|].users, states[0].table[id].client.emailTag) == Desired(states[0].table[id].client, now)
    {
      FullSyncFollowsRead(states, steps, id);
    }
    forall tag | Owner(states[0].table, tag).None? ensures Lookup(states[|steps|].users, tag) == Lookup(states[0].users, tag) {
      StrangersUntouched(states, steps, |steps|, tag);
    }
  }

  /** A second one at the same time changes nothing. */
  lemma SecondSyncChangesNothing(first: seq<World>, steps: seq<Step>, second: seq<World>, steps': seq<Step>, now: nat)
    requires Uninterrupted(first, steps, now) && Uninterrupted(second, steps', now) && second[0] == first[|steps|]
    ensures second[|steps'|].users == first[|steps|].users
  {
    UninterruptedSyncAgrees(first, steps, now);
    UninterruptedSyncAgrees(second, steps', now);
    var w, w' := second[0], second[|steps'|];
    forall tag: string ensures Lookup(w'.users, tag) == Lookup(w.users, tag) {
      var owner := Owner(w.table, tag);
      if owner.Some? {
        assert w.table[owner.value].client.emailTag == tag;
      }
    }
    SameLookups(w.users, w'.users);
  }

  lemma SameLookups(a: map<string, string>, b: map<string, string>)
    requires forall tag: string :: Lookup(b, tag) == Lookup(a, tag)
    ensures a == b
  {
    forall tag: string ensures tag in a <==> tag in b {
      assert Lookup(b, tag) == Lookup(a, tag);
    }
    forall tag | tag in a ensures a[tag] == b[tag] {
      assert Lookup(b, tag) == Lookup(a, tag);
    }
  }

  // ----- the flag that asks for a repair -----

  /** The flag goes up with the end of a full sync, a complete snapshot, or the sync of one client that added its user; it
      goes down with a failed snapshot or a failed probe. Neither a restart of Xray nor a full sync that fails moves it. */
  lemma FlagMovesExactly(w: World, step: Step, w': World)
    requires Next(w, step, w')
    ensures !w.provisioned ==> (w'.provisioned <==>
      || step.SyncEnds?
      || (step.SnapshotRecorded? && step.complete)
      || (step.ClientTurn? && step.ok && step.client.vlessEnabled && ResolveEffectiveStatus(step.client, 0, step.now) == ACTIVE))
    ensures w.provisioned ==> (!w'.provisioned <==>
      step.SnapshotLost? || (step.SnapshotRecorded? && !step.complete) || step.Unreachable?)
  {
  }

  // ----- repairs that are forgotten -----

  /** A blocked client that a failed call left in the user map: the failure marks the runtime as not
      provisioned, so that the next tick syncs it. But a complete snapshot takes that mark away, and it
      cuts the client off only if it finds the client over a limit again. */
  lemma RepairForgottenExactly(w: World, now: nat, cap: Capture, e: Enforcement, w': World, id: ClientId)
    requires Next(w, SnapshotRecorded(now, cap, e, true), w')
    requires id in w.table && w.table[id].client.status == BLOCKED && w.table[id].client.emailTag in w.users
    ensures w'.provisioned && id in w'.table && w'.table[id].client.status == BLOCKED
    ensures w.table[id].client.emailTag in w'.users <==> !(OverQuotaIn(w.table[id], cap) || Breaching(w.table[id].client, cap))
  {
    SnapshotSetsStatus(w, now, cap, e, w', id);
    SnapshotCutsOff(w, now, cap, e, w', id);
  }

  // ----- strangers -----

  /** A user that is nobody's. */
  ghost predicate Stranger(w: World, tag: string) {
    tag in w.users && Owner(w.table, tag).None?
  }

  ghost predicate NoStrangers(w: World) {
    forall tag :: tag in w.users ==> Owner(w.table, tag).Some?
  }

  /** The steps that leave a user behind or bring one back: an edit that gives a client in the runtime another tag,
      the deletion of a client that is in the runtime, and a turn on a record, read earlier, of a client that is gone
      or renamed. */
  ghost predicate MakesStranger(w: World, step: Step) {
    match step
    case Edit(c, _) =>
      c.id in w.table && w.table[c.id].client.emailTag != c.emailTag && w.table[c.id].client.emailTag in w.users
    case Delete(id) => id in w.table && w.table[id].client.emailTag in w.users
    case SyncTurn(x, now, turn, _) =>
      w.inSync.Some? && x in w.inSync.value && AddsStranger(w.table, w.inSync.value[x].client, now, turn)
    case ClientTurn(c, now, turn, _) => AddsStranger(w.table, c, now, turn)
    case _ => false
  }

  ghost predicate AddsStranger(table: Table, c: Client, now: nat, turn: Turn) {
    turn.AsDesired? && Desired(c, now).Some? && Owner(table, c.emailTag).None?
  }

  lemma TurnStrangersExactly(w: World, c: Client, now: nat, turn: Turn)
    requires NoStrangers(w)
    ensures NoStrangers(w.(users := Turned(w.users, c, now, turn))) <==> !AddsStranger(w.table, c, now, turn)
  {
    var users := Turned(w.users, c, now, turn);
    if AddsStranger(w.table, c, now, turn) {
      assert c.emailTag in users;
    }
  }

  lemma EditStrangersExactly(w: World, a: Account)
    requires Valid(w.table) && Valid(w.table[a.client.id := a]) && a.client.id in w.table && NoStrangers(w)
    ensures
      var renamed := w.table[a.client.id].client.emailTag;
      NoStrangers(Written(w, a)) <==> !(renamed != a.client.emailTag && renamed in w.users)
  {
    var renamed := w.table[a.client.id].client.emailTag;
    OwnerAfterWrite(w.table, a, renamed);
    OwnerIs(w.table, a.client.id);
    if !(renamed != a.client.emailTag && renamed in w.users) {
      forall tag | tag in w.users ensures Owner(Written(w, a).table, tag).Some? {
        OwnerAfterWrite(w.table, a, tag);
      }
    }
  }

  lemma WriteStrangers(w: World, a: Account)
    requires Valid(w.table) && Valid(w.table[a.client.id := a]) && NoStrangers(w)
    requires a.client.id in w.table ==> w.table[a.client.id].client.emailTag == a.client.emailTag
    ensures NoStrangers(Written(w, a))
  {
    forall tag | tag in w.users ensures Owner(Written(w, a).table, tag).Some? {
      OwnerAfterWrite(w.table, a, tag);
      if a.client.id in w.table {
        OwnerIs(w.table, a.client.id);
      }
    }
  }

  lemma DeleteStrangersExactly(w: World, id: ClientId)
    requires Valid(w.table) && id in w.table && NoStrangers(w)
    ensures (forall tag :: tag in w.users ==> Owner(w.table - {id}, tag).Some?) <==> w.table[id].client.emailTag !in w.users
  {
    OwnerAfterDelete(w.table, id, w.table[id].client.emailTag);
    forall tag | tag in w.users && tag != w.table[id].client.emailTag ensures Owner(w.table - {id}, tag).Some? {
      OwnerAfterDelete(w.table, id, tag);
    }
  }

  lemma SameOwnersNoStrangers(w: World, w': World)
    requires NoStrangers(w) && UniqueTags(w.table) && SameClients(w.table, w'.table)
    requires forall tag :: tag in w'.users ==> tag in w.users
    ensures NoStrangers(w')
  {
    forall tag | tag in w'.users ensures Owner(w'.table, tag).Some? {
      SameOwners(w.table, w'.table, tag);
    }
  }

  /** Every step keeps the runtime free of strangers, with exactly these exceptions. */
  lemma StrangersExactly(w: World, step: Step, w': World)
    requires Next(w, step, w') && NoStrangers(w)
    ensures NoStrangers(w') <==> !MakesStranger(w, step)
  {
    match step
    case SnapshotRecorded(now, cap, e, complete) =>
      SnapshotSameClients(w.table, cap, now, e.blocked);
      SameOwnersNoStrangers(w, w');
    case ExpireWrites(read, ok) =>
      ExpireKeepsValid(w.table, read.Keys);
      SameOwnersNoStrangers(w, w');
    case ExpireInPlace(now) =>
      ExpireKeepsValid(w.table, ExpiredRows(w.table, now).Keys);
      SameOwnersNoStrangers(w, w');
    case SyncTurn(x, now, turn, ok) => TurnStrangersExactly(w, w.inSync.value[x].client, now, turn);
    case ClientTurn(c, now, turn, ok) => TurnStrangersExactly(w, c, now, turn);
    case Create(c, rows) => WriteStrangers(w, Account(c, rows));
    case Delete(id) => DeleteStrangersExactly(w, id);
    case ResetTraffic(x, status) => ResetStrangers(w, x, status);
    case Edit(c, rows) => EditStrangersExactly(w, EditedAccount(w.table, c, rows));
    case _ =>
  }

  lemma ResetStrangers(w: World, x: ClientId, status: Status)
    requires Valid(w.table) && x in w.table && NoStrangers(w)
    ensures NoStrangers(Written(w, Account(w.table[x].client.(status := status), map[])))
  {
    SameIdentityValid(w.table, Account(w.table[x].client.(status := status), map[]));
    WriteStrangers(w, Account(w.table[x].client.(status := status), map[]));
  }

  /** Over every run without such a step there are none. */
  lemma {:induction false} NoStrangersOverRuns(states: seq<World>, steps: seq<Step>)
    requires Run(states, steps) && NoStrangers(states[0])
    requires forall i :: 0 <= i < |steps| ==> !MakesStranger(states[i], steps[i])
    ensures NoStrangers(states[|steps|])
  {
    if steps != [] {
      var n := |steps| - 1;
      NoStrangersOverRuns(states[..n + 1], steps[..n]);
      StrangersExactly(states[n], steps[n], states[n + 1]);
    }
  }

  /** No sync and no expiry holds a record of the tag. */
  ghost predicate Unheld(w: World, tag: string) {
    NotExpiring(w, tag) && NotSyncing(w, tag)
  }

  ghost predicate NotExpiring(w: World, tag: string) {
    forall read: Batch, x :: read in w.expiring && x in read ==> read[x].emailTag != tag
  }

  ghost predicate NotSyncing(w: World, tag: string) {
    && (forall c :: c in w.waiting ==> c.emailTag != tag)
    && (w.inSync.Some? ==> forall x :: x in w.inSync.value ==> w.inSync.value[x].client.emailTag != tag)
  }

  /** What ends a stranger's stay: a restart of Xray, or a client that takes the tag. */
  predicate EndsStay(step: Step, tag: string) {
    match step
    case Restart => true
    case Create(c, _) => c.emailTag == tag
    case Edit(c, _) => c.emailTag == tag
    case _ => false
  }

  lemma StaysUnheld(w: World, step: Step, w': World, tag: string)
    requires Next(w, step, w') && Owner(w.table, tag).None? && Unheld(w, tag) && !EndsStay(step, tag)
    ensures Unheld(w', tag)
  {
    StaysNotExpiring(w, step, w', tag);
    match step
    case ExpireWrites(read, ok) => ExpiredAreRead(read);
    case _ =>
  }

  lemma StaysNotExpiring(w: World, step: Step, w': World, tag: string)
    requires Next(w, step, w') && Owner(w.table, tag).None? && NotExpiring(w, tag)
    ensures NotExpiring(w', tag)
  {
    if step.ExpireReads? {
      forall x | x in ExpiredRows(w.table, step.now) ensures ExpiredRows(w.table, step.now)[x].emailTag != tag {
        assert x in w.table;
      }
    } else {
      assert w'.expiring <= w.expiring;
    }
  }

  lemma StaysOwnerless(w: World, step: Step, w': World, tag: string)
    requires Next(w, step, w') && Owner(w.table, tag).None? && !EndsStay(step, tag)
    ensures Owner(w'.table, tag).None?
  {
    match step
    case SnapshotRecorded(now, cap, e, complete) =>
      SnapshotSameClients(w.table, cap, now, e.blocked);
      SameOwners(w.table, w'.table, tag);
    case ExpireWrites(read, ok) =>
      ExpireKeepsValid(w.table, read.Keys);
      SameOwners(w.table, ExpiredTable(w.table, read.Keys), tag);
    case ExpireInPlace(now) =>
      ExpireKeepsValid(w.table, ExpiredRows(w.table, now).Keys);
      SameOwners(w.table, w'.table, tag);
    case Create(c, rows) => OwnerAfterWrite(w.table, Account(c, rows), tag);
    case Delete(id) => OwnerAfterDelete(w.table, id, tag);
    case ResetTraffic(x, status) => ResetKeepsOwnerless(w, x, status, tag);
    case Edit(c, rows) => OwnerAfterWrite(w.table, EditedAccount(w.table, c, rows), tag);
    case _ =>
  }

  lemma StaysPresent(w: World, step: Step, w': World, tag: string)
    requires Next(w, step, w') && Stranger(w, tag) && Unheld(w, tag) && !EndsStay(step, tag)
    ensures tag in w'.users
  {
    match step
    case SnapshotRecorded(now, cap, e, complete) => CutsNoStranger(w.table, cap, now, e, tag);
    case SyncTurn(x, now, turn, ok) => TurnedAt(w.users, w.inSync.value[x].client, now, turn, tag);
    case ClientTurn(c, now, turn, ok) => TurnedAt(w.users, c, now, turn, tag);
    case _ =>
  }

  lemma StepKeepsStranger(w: World, step: Step, w': World, tag: string)
    requires Next(w, step, w') && Stranger(w, tag) && Unheld(w, tag) && !EndsStay(step, tag)
    ensures Stranger(w', tag) && Unheld(w', tag)
  {
    StaysUnheld(w, step, w', tag);
    StaysOwnerless(w, step, w', tag);
    StaysPresent(w, step, w', tag);
  }

  lemma ResetKeepsOwnerless(w: World, x: ClientId, status: Status, tag: string)
    requires Valid(w.table) && x in w.table && Owner(w.table, tag).None?
    ensures Owner(Written(w, Account(w.table[x].client.(status := status), map[])).table, tag).None?
  {
    var a := Account(w.table[x].client.(status := status), map[]);
    SameIdentityValid(w.table, a);
    OwnerAfterWrite(w.table, a, tag);
  }

  /** A snapshot cuts off clients' tags only. */
  lemma CutsNoStranger(table: Table, cap: Capture, now: nat, e: Enforcement, tag: string)
    requires Allowed(e, Recorded(table, cap, now), cap) && Owner(table, tag).None?
    ensures tag !in e.cut
  {
    var recorded := Recorded(table, cap, now);
    forall id | id in recorded ensures recorded[id].client.emailTag != tag {
      SeenKeeps(table[id].client, SightingOf(cap, table[id].client.emailTag), now);
    }
  }

  /** A stranger that no sync and no expiry holds a record of keeps its access, and everything it transfers is discarded, over every run
      in which Xray does not restart and no client takes the tag: however many full syncs run and succeed. */
  lemma {:induction false} StrangersOutliveSyncs(states: seq<World>, steps: seq<Step>, tag: string)
    requires Run(states, steps) && Stranger(states[0], tag) && Unheld(states[0], tag)
    requires forall i :: 0 <= i < |steps| ==> !EndsStay(steps[i], tag)
    ensures Stranger(states[|steps|], tag) && Unheld(states[|steps|], tag)
  {
    if steps != [] {
      var n := |steps| - 1;
      StrangersOutliveSyncs(states[..n + 1], steps[..n], tag);
      StepKeepsStranger(states[n], steps[n], states[n + 1], tag);
    }
  }

  /** A deleted client loses its access exactly when the one sync that follows the deletion does not fail without
      effect: the failure is ignored, and no later full sync knows the tag. */
  lemma DeletedKeepsAccessExactly(w: World, id: ClientId, mid: World, now: nat, turn: Turn, ok: bool, w': World)
    requires id in w.table && Unheld(w, w.table[id].client.emailTag) && Next(w, Delete(id), mid)
    requires Next(mid, ClientTurn(w.table[id].client.(status := DISABLED), now, turn, ok), w')
    ensures
      var tag := w.table[id].client.emailTag;
      && Unheld(w', tag) && Owner(w'.table, tag).None?
      && (Stranger(w', tag) <==> tag in w.users && turn == Untouched)
  {
    OwnerAfterDelete(w.table, id, w.table[id].client.emailTag);
    DeletedIsUnheld(w, id, w.table[id].client, mid, now, turn, ok, w');
  }

  lemma DeletedIsUnheld(w: World, id: ClientId, c: Client, mid: World, now: nat, turn: Turn, ok: bool, w': World)
    requires id in w.table && c == w.table[id].client && Unheld(w, c.emailTag) && Next(w, Delete(id), mid)
    requires Next(mid, ClientTurn(c.(status := DISABLED), now, turn, ok), w')
    ensures Unheld(w', c.emailTag) && w'.users == (if turn == Untouched then w.users else w.users - {c.emailTag})
    ensures w'.table == w.table - {id}
  {
    var gone := c.(status := DISABLED);
    TurnTaken(mid, gone, now, turn, ok, w');
    assert w.waiting + multiset{gone} - multiset{gone} == w.waiting;
    HeldTheSame(w, w', c.emailTag);
  }

  lemma TurnTaken(w: World, c: Client, now: nat, turn: Turn, ok: bool, w': World)
    requires Next(w, ClientTurn(c, now, turn, ok), w') && Desired(c, now).None?
    ensures w'.users == (if turn == Untouched then w.users else w.users - {c.emailTag})
    ensures w'.table == w.table && w'.waiting == w.waiting - multiset{c} && w'.inSync == w.inSync && w'.expiring == w.expiring
  {
  }

  lemma HeldTheSame(w: World, w': World, tag: string)
    requires w'.waiting == w.waiting && w'.inSync == w.inSync && w'.expiring == w.expiring && Unheld(w, tag)
    ensures Unheld(w', tag)
  {
  }

  // ----- users whose own row has stopped asking for them -----

  /** From the given time on the client's row asks for no user, yet Xray has one. */
  ghost predicate Overstays(w: World, id: ClientId, time: nat) {
    id in w.table && w.table[id].client.emailTag in w.users && Desired(w.table[id].client, time).None?
  }

  predicate Removes(c: Client, now: nat, turn: Turn, tag: string) {
    c.emailTag == tag && (turn.Absent? || (turn.AsDesired? && Desired(c, now).None?))
  }

  /** What ends it: a restart, a cut, a turn that removes the user, or the write of an expiry that lifts a block although
      the client's term was moved since the expiry read it. */
  ghost predicate EndsOverstay(w: World, step: Step, id: ClientId, time: nat)
    requires id in w.table
  {
    var c := w.table[id].client;
    match step
    case Restart => true
    case SnapshotRecorded(_, _, e, _) => c.emailTag in e.cut
    case SyncTurn(x, now, turn, _) =>
      w.inSync.Some? && x in w.inSync.value && Removes(w.inSync.value[x].client, now, turn, c.emailTag)
    case ClientTurn(r, now, turn, _) => Removes(r, now, turn, c.emailTag)
    case ExpireWrites(read, ok) => ok && id in read && Desired(c.(status := EXPIRED), time).Some?
    case _ => false
  }

  lemma UserStaysExactly(w: World, step: Step, w': World, tag: string)
    requires Next(w, step, w') && tag in w.users
    ensures tag in w'.users <==>
      match step
      case Restart => false
      case SnapshotRecorded(_, _, e, _) => tag !in e.cut
      case SyncTurn(x, now, turn, _) => w.inSync.Some? && x in w.inSync.value && !Removes(w.inSync.value[x].client, now, turn, tag)
      case ClientTurn(r, now, turn, _) => !Removes(r, now, turn, tag)
      case _ => true
  {
  }

  lemma SameAsking(c: Client, c': Client, time: nat)
    requires SameTerms(c, c') && Desired(c, time).None?
    ensures c'.status == BLOCKED || c'.status == c.status || (c'.status == EXPIRED && c.status == ACTIVE) ==> Desired(c', time).None?
    ensures c'.status == EXPIRED ==> Desired(c', time) == Desired(c.(status := EXPIRED), time)
  {
  }

  /** Unless an admin acts on the client, nothing else ends it. */
  lemma OverstayEndsExactly(w: World, step: Step, w': World, id: ClientId, time: nat)
    requires Next(w, step, w') && Overstays(w, id, time) && !ActsOn(step, id)
    ensures id in w'.table && w'.table[id].client.emailTag == w.table[id].client.emailTag
    ensures Overstays(w', id, time) <==> !EndsOverstay(w, step, id, time)
  {
    RowAfter(w, step, w', id);
    UserStaysExactly(w, step, w', w.table[id].client.emailTag);
    SameAsking(w.table[id].client, w'.table[id].client, time);
  }

  /** So such a user stays over every run without one of these steps, however many expiries look for it. */
  lemma {:induction false} OverstaysUntilEnded(states: seq<World>, steps: seq<Step>, id: ClientId, time: nat)
    requires Run(states, steps) && Overstays(states[0], id, time)
    requires forall i :: 0 <= i < |steps| ==>
      !ActsOn(steps[i], id) && (id in states[i].table ==> !EndsOverstay(states[i], steps[i], id, time))
    ensures Overstays(states[|steps|], id, time)
  {
    if steps != [] {
      var n := |steps| - 1;
      OverstaysUntilEnded(states[..n + 1], steps[..n], id, time);
      OverstayEndsExactly(states[n], steps[n], states[n + 1], id, time);
    }
  }

  lemma StaysInactive(w: World, step: Step, w': World, id: ClientId)
    requires Next(w, step, w') && id in w.table && w.table[id].client.status != ACTIVE && !ActsOn(step, id)
    ensures id in w'.table && w'.table[id].client.status != ACTIVE
  {
    RowAfter(w, step, w', id);
  }

  /** For a client that is not ACTIVE is never read by an expiry again, unless an admin acts on it: so nothing syncs it. */
  lemma {:induction false} NeverReadAgain(states: seq<World>, steps: seq<Step>, id: ClientId, now: nat)
    requires Run(states, steps) && id in states[0].table && states[0].table[id].client.status != ACTIVE
    requires forall i :: 0 <= i < |steps| ==> !ActsOn(steps[i], id)
    ensures id in states[|steps|].table && states[|steps|].table[id].client.status != ACTIVE
    ensures id !in ExpiredRows(states[|steps|].table, now)
  {
    if steps != [] {
      var n := |steps| - 1;
      NeverReadAgain(states[..n + 1], steps[..n], id, now);
      StaysInactive(states[n], steps[n], states[n + 1], id);
    }
  }
}
