/**
 The daily usage rows of a client: how they add up, which one is the latest, and what
 one usage snapshot does to them.
 */
module Usage {

  import opened Basics
  import opened TrafficDeltas

  datatype UsageRow = UsageRow(incomingBytes: nat, outgoingBytes: nat, totalBytes: nat, activeConnections: nat)

  /** The rows of one client by UTC day: (client, day) is a unique index. */
  type Rows = map<nat, UsageRow>

  datatype Bytes = Bytes(incoming: nat, outgoing: nat, total: nat)

  const ZERO := Bytes(0, 0, 0)

  function Plus(a: Bytes, b: Bytes): Bytes {
    Bytes(a.incoming + b.incoming, a.outgoing + b.outgoing, a.total + b.total)
  }

  lemma PlusSwap(a: Bytes, b: Bytes, c: Bytes)
    ensures Plus(a, Plus(b, c)) == Plus(b, Plus(a, c)) == Plus(Plus(a, b), c)
  {
  }

  lemma PlusComm(a: Bytes, b: Bytes)
    ensures Plus(a, b) == Plus(b, a)
  {
  }

  lemma PlusZero(a: Bytes)
    ensures Plus(ZERO, a) == a == Plus(a, ZERO)
  {
  }

  function BytesOf(row: UsageRow): Bytes {
    Bytes(row.incomingBytes, row.outgoingBytes, row.totalBytes)
  }

  function BytesAt(rows: Rows, day: nat): Bytes {
    if day in rows then BytesOf(rows[day]) else ZERO
  }

  ghost function Sum(rows: Rows): Bytes
    decreases |rows|
  {
    if rows.Keys == {} then ZERO
    else var day :| day in rows.Keys; Plus(BytesOf(rows[day]), Sum(rows - {day}))
  }

  lemma {:induction false} SumRemove(rows: Rows, day: nat)
    requires day in rows
    ensures Sum(rows) == Plus(BytesOf(rows[day]), Sum(rows - {day}))
    decreases |rows|
  {
    var d :| d in rows.Keys && Sum(rows) == Plus(BytesOf(rows[d]), Sum(rows - {d}));
    if d != day {
      var without := rows - {d} - {day};
      assert without == rows - {day} - {d};
      SumRemove(rows - {d}, day);
      assert Sum(rows - {d}) == Plus(BytesOf(rows[day]), Sum(without));
      SumRemove(rows - {day}, d);
      assert Sum(rows - {day}) == Plus(BytesOf(rows[d]), Sum(without));
      PlusSwap(BytesOf(rows[d]), BytesOf(rows[day]), Sum(without));
    }
  }

  lemma OneRowSum(day: nat, row: UsageRow)
    ensures Sum(map[day := row]) == BytesOf(row)
  {
    SumRemove(map[day := row], day);
    assert map[day := row] - {day} == map[];
    PlusZero(BytesOf(row));
  }

  // ----- the latest row -----

  ghost predicate IsLatest(rows: Rows, day: nat) {
    day in rows && forall d: nat :: d in rows ==> d <= day
  }

  method FindLatest(rows: Rows) returns (latest: Option<nat>)
    ensures latest.None? <==> rows == map[]
    ensures latest.Some? ==> IsLatest(rows, latest.value)
  {
    latest := None;
    var left := rows.Keys;
    while left != {}
      invariant left <= rows.Keys
      invariant latest.None? <==> left == rows.Keys
      invariant latest.Some? ==> latest.value in rows && forall d :: d in rows && d !in left ==> d <= latest.value
    {
      var d :| d in left;
      left := left - {d};
      if latest.None? || latest.value < d {
        latest := Some(d);
      }
    }
  }

  lemma {:induction false} LatestExists(rows: Rows)
    requires rows != map[]
    ensures exists day: nat :: IsLatest(rows, day)
    decreases |rows|
  {
    var d :| d in rows.Keys;
    var rest := rows - {d};
    if rest == map[] {
      assert forall x :: x in rows && x != d ==> x in rest;
      assert IsLatest(rows, d);
    } else {
      LatestExists(rest);
      var e: nat :| IsLatest(rest, e);
      assert forall x :: x in rows ==> x == d || x in rest;
      assert IsLatest(rows, if d > e then d else e);
    }
  }

  /** The connection count on display: the one of the client's latest row, 0 without any row. */
  ghost function LatestConnections(rows: Rows): nat {
    if exists day: nat :: IsLatest(rows, day)
    then var day: nat :| IsLatest(rows, day); rows[day].activeConnections
    else 0
  }

  lemma LatestIs(rows: Rows, day: nat)
    requires IsLatest(rows, day)
    ensures LatestConnections(rows) == rows[day].activeConnections
  {
  }

  // ----- one snapshot, seen from one client -----

  /** What a snapshot knows about a client: `None` when it does not name the client. */
  datatype Sighting = Sighting(delta: Delta, activeConnections: nat)

  predicate Idle(s: Sighting) {
    s.delta.totalBytes == 0 && s.activeConnections == 0
  }

  function ClearToday(rows: Rows, day: nat): Rows {
    if day in rows then rows[day := rows[day].(activeConnections := 0)] else rows
  }

  function SetConnections(rows: Rows, day: nat, count: nat): Rows {
    if day in rows then rows[day := rows[day].(activeConnections := count)]
    else rows[day := UsageRow(0, 0, 0, count)]
  }

  function Charge(rows: Rows, day: nat, s: Sighting): Rows {
    var before := BytesAt(rows, day);
    rows[day := UsageRow(before.incoming + s.delta.incomingBytes, before.outgoing + s.delta.outgoingBytes,
                         before.total + s.delta.totalBytes, s.activeConnections)]
  }

  /** An unnamed client that is still on display as online gets a row for today that says 0. */
  ghost function Dismissed(rows: Rows, day: nat): Rows {
    if LatestConnections(rows) == 0 then rows else SetConnections(rows, day, 0)
  }

  /** The rows of one client after the snapshot's transaction. */
  ghost function Captured(rows: Rows, day: nat, sighting: Option<Sighting>): Rows {
    var cleared := ClearToday(rows, day);
    match sighting
    case None => Dismissed(cleared, day)
    case Some(s) => if Idle(s) then cleared else Charge(cleared, day, s)
  }

  ghost predicate TotalsConsistent(rows: Rows) {
    forall d :: d in rows ==> rows[d].totalBytes == rows[d].incomingBytes + rows[d].outgoingBytes
  }

  predicate WellSummed(sighting: Option<Sighting>) {
    sighting.Some? ==>
      var d := sighting.value.delta;
      d.totalBytes == d.incomingBytes + d.outgoingBytes
  }

  function Gain(sighting: Option<Sighting>): Bytes {
    if sighting.Some?
    then var d := sighting.value.delta; Bytes(d.incomingBytes, d.outgoingBytes, d.totalBytes)
    else ZERO
  }

  /** A snapshot writes to no day but its own. */
  lemma CapturedOtherDays(rows: Rows, day: nat, sighting: Option<Sighting>)
    ensures Captured(rows, day, sighting) - {day} == rows - {day}
  {
    var cleared := ClearToday(rows, day);
    assert cleared - {day} == rows - {day};
    assert Dismissed(cleared, day) - {day} == rows - {day};
    if sighting.Some? {
      assert Charge(cleared, day, sighting.value) - {day} == rows - {day};
    }
  }

  lemma CapturedWithoutTraffic(rows: Rows, day: nat, sighting: Option<Sighting>)
    requires sighting.Some? ==> Idle(sighting.value)
    ensures BytesAt(Captured(rows, day, sighting), day) == BytesAt(rows, day)
  {
    ClearBytes(rows, day);
    DismissedBytes(ClearToday(rows, day), day);
  }

  lemma CapturedTraffic(rows: Rows, day: nat, s: Sighting)
    requires !Idle(s)
    ensures BytesAt(Captured(rows, day, Some(s)), day) == Plus(BytesAt(rows, day), Gain(Some(s)))
  {
    ClearBytes(rows, day);
    ChargeBytes(ClearToday(rows, day), day, s);
  }

  /** There it charges exactly the bytes it saw. */
  lemma CapturedBytes(rows: Rows, day: nat, sighting: Option<Sighting>)
    requires WellSummed(sighting)
    ensures BytesAt(Captured(rows, day, sighting), day) == Plus(BytesAt(rows, day), Gain(sighting))
  {
    if sighting.Some? && !Idle(sighting.value) {
      CapturedTraffic(rows, day, sighting.value);
    } else {
      CapturedWithoutTraffic(rows, day, sighting);
      IdleGainsNothing(sighting);
      PlusZero(BytesAt(rows, day));
    }
  }

  lemma CapturedKeepsTotals(rows: Rows, day: nat, sighting: Option<Sighting>)
    requires WellSummed(sighting) && TotalsConsistent(rows)
    ensures TotalsConsistent(Captured(rows, day, sighting))
  {
  }

  lemma DismissedBytes(rows: Rows, day: nat)
    ensures BytesAt(Dismissed(rows, day), day) == BytesAt(rows, day)
  {
  }

  lemma ClearBytes(rows: Rows, day: nat)
    ensures BytesAt(ClearToday(rows, day), day) == BytesAt(rows, day)
  {
  }

  lemma IdleGainsNothing(sighting: Option<Sighting>)
    requires WellSummed(sighting)
    requires sighting.Some? ==> Idle(sighting.value)
    ensures Gain(sighting) == ZERO
  {
  }

  lemma ChargeBytes(rows: Rows, day: nat, s: Sighting)
    ensures BytesAt(Charge(rows, day, s), day) == Plus(BytesAt(rows, day), Gain(Some(s)))
  {
  }

  /** So the client's total grows by exactly the bytes of the snapshot. */
  lemma CapturedSum(rows: Rows, day: nat, sighting: Option<Sighting>)
    requires WellSummed(sighting)
    ensures Sum(Captured(rows, day, sighting)) == Plus(Sum(rows), Gain(sighting))
  {
    var after := Captured(rows, day, sighting);
    CapturedBytes(rows, day, sighting);
    CapturedOtherDays(rows, day, sighting);
    SumSplit(rows, day);
    SumSplit(after, day);
    var rest := Sum(rows - {day});
    PlusSwap(BytesAt(rows, day), Gain(sighting), rest);
    PlusSwap(Gain(sighting), BytesAt(rows, day), rest);
    PlusComm(Gain(sighting), Sum(rows));
  }

  lemma SumSplit(rows: Rows, day: nat)
    ensures Sum(rows) == Plus(BytesAt(rows, day), Sum(rows - {day}))
  {
    if day in rows {
      SumRemove(rows, day);
    } else {
      assert rows - {day} == rows;
      PlusZero(Sum(rows));
    }
  }

  ghost predicate NoRowAfter(rows: Rows, day: nat) {
    forall d :: d in rows ==> d <= day
  }

  /** The count the snapshot observed, 0 for a client it does not name. */
  function Observed(sighting: Option<Sighting>): nat {
    if sighting.Some? then sighting.value.activeConnections else 0
  }

  /** The panel shows the observed count for every client except one kind: a client that Xray still
      keeps counters for, that moved nothing and is offline, has no row for today yet, and was
      online when its last row was written. That client goes on being shown as online. */
  lemma ConnectionsShown(rows: Rows, day: nat, sighting: Option<Sighting>)
    requires NoRowAfter(rows, day)
    ensures LatestConnections(Captured(rows, day, sighting)) == Observed(sighting) <==>
            !(sighting.Some? && Idle(sighting.value) && day !in rows && LatestConnections(rows) != 0)
  {
    var cleared := ClearToday(rows, day);
    var after := Captured(rows, day, sighting);
    if day in after {
      assert IsLatest(after, day);
      LatestIs(after, day);
      if day in rows {
        LatestIs(cleared, day);
      }
    }
    if day in rows {
      assert IsLatest(cleared, day);
      LatestIs(cleared, day);
    }
  }
}
