/**
 The dashboard groups the same usage rows twice, by day for the timeline and by client for the
 list. Both groupings are loops that add to one record per row; a sort puts the clients in order.
 */
module Dashboard {

  import opened Basics
  import opened Clients

  /** A usage row of the query; `day` is the number of its UTC day. */
  datatype TrendRow = TrendRow(day: int, clientId: ClientId, incomingBytes: nat, outgoingBytes: nat, totalBytes: nat, activeConnections: nat)

  datatype Bucket = Bucket(day: int, incomingBytes: nat, outgoingBytes: nat, totalBytes: nat, activeClients: set<ClientId>)

  datatype ClientRow = ClientRow(id: ClientId, displayName: string, status: Status)

  datatype Totals = Totals(incomingBytes: nat, outgoingBytes: nat, totalBytes: nat)

  const NOTHING := Totals(0, 0, 0)

  datatype ClientStats = ClientStats(
    client: ClientRow,
    allTime: Totals,
    activeConnections: nat,
    activeDays: nat,
    peakActiveConnections: nat,
    todayTrafficBytes: nat,
    windowTrafficBytes: nat
  )

  // ----- sums over rows -----

  type Choice = TrendRow -> bool
  type Measure = TrendRow -> nat

  function Total(rows: seq<TrendRow>, p: Choice, f: Measure): nat {
    if rows == [] then 0
    else Total(rows[..|rows| - 1], p, f) + if p(rows[|rows| - 1]) then f(rows[|rows| - 1]) else 0
  }

  function Peak(rows: seq<TrendRow>, id: ClientId): nat {
    if rows == [] then 0
    else
      var before, row := Peak(rows[..|rows| - 1], id), rows[|rows| - 1];
      if row.clientId == id && row.activeConnections > before then row.activeConnections else before
  }

  function OnDay(day: int): Choice {
    (r: TrendRow) => r.day == day
  }

  function OfClient(id: ClientId): Choice {
    (r: TrendRow) => r.clientId == id
  }

  function OfClientOnDay(id: ClientId, day: int): Choice {
    (r: TrendRow) => r.clientId == id && r.day == day
  }

  predicate IsActive(r: TrendRow) {
    r.totalBytes > 0 || r.activeConnections > 0
  }

  function Incoming(r: TrendRow): nat {
    r.incomingBytes
  }

  function Outgoing(r: TrendRow): nat {
    r.outgoingBytes
  }

  function Bytes(r: TrendRow): nat {
    r.totalBytes
  }

  function ActiveDay(r: TrendRow): nat {
    if IsActive(r) then 1 else 0
  }

  lemma TotalNext(rows: seq<TrendRow>, i: nat, p: Choice, f: Measure)
    requires i < |rows|
    ensures Total(rows[..i + 1], p, f) == Total(rows[..i], p, f) + if p(rows[i]) then f(rows[i]) else 0
  {
    assert rows[..i + 1][..i] == rows[..i];
  }

  // ----- the two groupings, as they are meant -----

  function BucketOf(rows: seq<TrendRow>, day: int): Bucket {
    Bucket(day, Total(rows, OnDay(day), Incoming), Total(rows, OnDay(day), Outgoing), Total(rows, OnDay(day), Bytes),
           set r | r in rows && r.day == day && r.activeConnections > 0 :: r.clientId)
  }

  function StatsOf(c: ClientRow, rows: seq<TrendRow>, allTime: map<ClientId, Totals>, latest: map<ClientId, nat>, today: int): ClientStats {
    ClientStats(c, Lookup(allTime, c.id).GetOr(NOTHING), Lookup(latest, c.id).GetOr(0),
                Total(rows, OfClient(c.id), ActiveDay), Peak(rows, c.id),
                Total(rows, OfClientOnDay(c.id, today), Bytes), Total(rows, OfClient(c.id), Bytes))
  }

  // ----- by day -----

  function Charged(b: Bucket, row: TrendRow): Bucket {
    Bucket(b.day, b.incomingBytes + row.incomingBytes, b.outgoingBytes + row.outgoingBytes, b.totalBytes + row.totalBytes,
           if row.activeConnections > 0 then b.activeClients + {row.clientId} else b.activeClients)
  }

  lemma BucketNext(rows: seq<TrendRow>, i: nat, day: int)
    requires i < |rows|
    ensures BucketOf(rows[..i + 1], day)
         == if rows[i].day == day then Charged(BucketOf(rows[..i], day), rows[i]) else BucketOf(rows[..i], day)
  {
    TotalNext(rows, i, OnDay(day), Incoming);
    TotalNext(rows, i, OnDay(day), Outgoing);
    TotalNext(rows, i, OnDay(day), Bytes);
    assert rows[..i + 1] == rows[..i] + [rows[i]];
    ActiveNext(rows[..i], rows[i], day);
  }

  lemma ActiveNext(rows: seq<TrendRow>, row: TrendRow, day: int)
    ensures BucketOf(rows + [row], day).activeClients
         == BucketOf(rows, day).activeClients + if row.day == day && row.activeConnections > 0 then {row.clientId} else {}
  {
  }

  method BuildTrendBuckets(rows: seq<TrendRow>, today: int, windowDays: nat) returns (timeline: seq<Bucket>)
    ensures |timeline| == windowDays
    ensures forall k :: 0 <= k < windowDays ==> timeline[k] == BucketOf(rows, today - (windowDays - 1) + k)
  {
    var start := today - (windowDays - 1);
    var buckets: map<int, Bucket> := map d | start <= d <= today :: Bucket(d, 0, 0, 0, {});
    for i := 0 to |rows|
      invariant forall d :: d in buckets <==> start <= d <= today
      invariant forall d :: d in buckets ==> buckets[d] == BucketOf(rows[..i], d)
    {
      var row := rows[i];
      forall d | d in buckets
        ensures BucketOf(rows[..i + 1], d) == if row.day == d then Charged(BucketOf(rows[..i], d), row) else BucketOf(rows[..i], d)
      {
        BucketNext(rows, i, d);
      }
      if row.day in buckets {
        buckets := buckets[row.day := Charged(buckets[row.day], row)];
      }
    }
    assert rows[..|rows|] == rows;
    timeline := seq(windowDays, k requires 0 <= k < windowDays => buckets[start + k]);
  }

  // ----- by client -----

  function Counted(s: ClientStats, row: TrendRow, today: int): ClientStats {
    s.(windowTrafficBytes := s.windowTrafficBytes + row.totalBytes,
       peakActiveConnections := if row.activeConnections > s.peakActiveConnections then row.activeConnections else s.peakActiveConnections,
       activeDays := s.activeDays + (if IsActive(row) then 1 else 0),
       todayTrafficBytes := s.todayTrafficBytes + (if row.day == today then row.totalBytes else 0))
  }

  lemma StatsNext(c: ClientRow, rows: seq<TrendRow>, i: nat, allTime: map<ClientId, Totals>, latest: map<ClientId, nat>, today: int)
    requires i < |rows|
    ensures StatsOf(c, rows[..i + 1], allTime, latest, today)
         == if rows[i].clientId == c.id then Counted(StatsOf(c, rows[..i], allTime, latest, today), rows[i], today)
            else StatsOf(c, rows[..i], allTime, latest, today)
  {
    TotalNext(rows, i, OfClient(c.id), ActiveDay);
    TotalNext(rows, i, OfClient(c.id), Bytes);
    TotalNext(rows, i, OfClientOnDay(c.id, today), Bytes);
    assert rows[..i + 1][..i] == rows[..i];
  }

  predicate UniqueIds(clients: seq<ClientRow>) {
    forall i, j :: 0 <= i < j < |clients| ==> clients[i].id != clients[j].id
  }

  method BuildClientStats(clients: seq<ClientRow>, rows: seq<TrendRow>, allTime: map<ClientId, Totals>, latest: map<ClientId, nat>, today: int)
    returns (stats: seq<ClientStats>)
    requires UniqueIds(clients)
    ensures |stats| == |clients|
    ensures forall k :: 0 <= k < |clients| ==> stats[k] == StatsOf(clients[k], rows, allTime, latest, today)
  {
    stats := seq(|clients|, k requires 0 <= k < |clients| => StatsOf(clients[k], [], allTime, latest, today));
    assert rows[..0] == [];
    for i := 0 to |rows|
      invariant |stats| == |clients|
      invariant forall k :: 0 <= k < |clients| ==> stats[k] == StatsOf(clients[k], rows[..i], allTime, latest, today)
    {
      forall k | 0 <= k < |clients|
        ensures StatsOf(clients[k], rows[..i + 1], allTime, latest, today)
             == if rows[i].clientId == clients[k].id then Counted(stats[k], rows[i], today) else stats[k]
      {
        StatsNext(clients[k], rows, i, allTime, latest, today);
      }
      var at := IndexOf(clients, rows[i].clientId);
      if at < |clients| {
        stats := stats[at := Counted(stats[at], rows[i], today)];
      }
    }
    assert rows[..|rows|] == rows;
  }

  method IndexOf(clients: seq<ClientRow>, id: ClientId) returns (at: nat)
    ensures at <= |clients|
    ensures at < |clients| ==> clients[at].id == id
    ensures at == |clients| ==> forall k :: 0 <= k < |clients| ==> clients[k].id != id
  {
    at := 0;
    while at < |clients| && clients[at].id != id
      invariant at <= |clients|
      invariant forall k :: 0 <= k < at ==> clients[k].id != id
    {
      at := at + 1;
    }
  }

  // ----- the order of the list -----

  /** A comparison of names as `localeCompare` gives it: any order in which all names compare. */
  type Collation = (string, string) -> bool

  ghost predicate Orders(leq: Collation) {
    && (forall a, b :: leq(a, b) || leq(b, a))
    && (forall a, b, c :: leq(a, b) && leq(b, c) ==> leq(a, c))
  }

  /** More traffic in the window first, then today, then ever; then by name. */
  predicate Before(leq: Collation, a: ClientStats, b: ClientStats) {
    if a.windowTrafficBytes != b.windowTrafficBytes then a.windowTrafficBytes > b.windowTrafficBytes
    else if a.todayTrafficBytes != b.todayTrafficBytes then a.todayTrafficBytes > b.todayTrafficBytes
    else if a.allTime.totalBytes != b.allTime.totalBytes then a.allTime.totalBytes > b.allTime.totalBytes
    else leq(a.client.displayName, b.client.displayName)
  }

  predicate Sorted(leq: Collation, s: seq<ClientStats>) {
    forall i, j :: 0 <= i < j < |s| ==> Before(leq, s[i], s[j])
  }

  /** In a sorted list the traffic of the window falls, where it is equal the traffic of today does, then that of all time,
      and only clients with equal figures stand in the order of their names. */
  lemma SortedMeans(leq: Collation, s: seq<ClientStats>, i: nat, j: nat)
    requires Sorted(leq, s) && i < j < |s|
    ensures s[i].windowTrafficBytes >= s[j].windowTrafficBytes
    ensures s[i].windowTrafficBytes == s[j].windowTrafficBytes ==> s[i].todayTrafficBytes >= s[j].todayTrafficBytes
    ensures s[i].windowTrafficBytes == s[j].windowTrafficBytes && s[i].todayTrafficBytes == s[j].todayTrafficBytes ==>
      && s[i].allTime.totalBytes >= s[j].allTime.totalBytes
      && (s[i].allTime.totalBytes == s[j].allTime.totalBytes ==> leq(s[i].client.displayName, s[j].client.displayName))
  {
    assert Before(leq, s[i], s[j]);
  }

  lemma BeforeTotal(leq: Collation, a: ClientStats, b: ClientStats)
    requires Orders(leq)
    ensures Before(leq, a, b) || Before(leq, b, a)
  {
  }

  lemma BeforeTransitive(leq: Collation, a: ClientStats, b: ClientStats, c: ClientStats)
    requires Orders(leq) && Before(leq, a, b) && Before(leq, b, c)
    ensures Before(leq, a, c)
  {
  }

  /** Behind everything that does not have to come after it. */
  function Placed(leq: Collation, s: seq<ClientStats>, x: ClientStats): seq<ClientStats> {
    if s == [] then [x]
    else
      var n := |s| - 1;
      if Before(leq, s[n], x) then s + [x] else Placed(leq, s[..n], x) + [s[n]]
  }

  lemma {:induction false} PlacedSame(leq: Collation, s: seq<ClientStats>, x: ClientStats)
    ensures multiset(Placed(leq, s, x)) == multiset(s) + multiset{x}
    ensures |Placed(leq, s, x)| == |s| + 1
  {
    if s != [] {
      var n := |s| - 1;
      assert s == s[..n] + [s[n]];
      PlacedSame(leq, s[..n], x);
    }
  }

  lemma {:induction false} PlacedSorted(leq: Collation, s: seq<ClientStats>, x: ClientStats)
    requires Orders(leq) && Sorted(leq, s)
    ensures Sorted(leq, Placed(leq, s, x))
  {
    if s != [] {
      var n := |s| - 1;
      if Before(leq, s[n], x) {
        forall i | 0 <= i < n ensures Before(leq, s[i], x) {
          BeforeTransitive(leq, s[i], s[n], x);
        }
      } else {
        BeforeTotal(leq, s[n], x);
        var init := Placed(leq, s[..n], x);
        PlacedSorted(leq, s[..n], x);
        PlacedFrom(leq, s[..n], x);
        forall i | 0 <= i < |init| ensures Before(leq, init[i], s[n]) {
          assert init[i] in init;
        }
      }
    }
  }

  lemma {:induction false} PlacedFrom(leq: Collation, s: seq<ClientStats>, x: ClientStats)
    ensures forall y :: y in Placed(leq, s, x) ==> y in s || y == x
  {
    if s != [] {
      PlacedFrom(leq, s[..|s| - 1], x);
    }
  }

  method SortClients(leq: Collation, stats: seq<ClientStats>) returns (ordered: seq<ClientStats>)
    requires Orders(leq)
    ensures Sorted(leq, ordered) && multiset(ordered) == multiset(stats)
  {
    ordered := [];
    for i := 0 to |stats|
      invariant Sorted(leq, ordered) && multiset(ordered) == multiset(stats[..i])
    {
      PlacedSorted(leq, ordered, stats[i]);
      PlacedSame(leq, ordered, stats[i]);
      assert stats[..i + 1] == stats[..i] + [stats[i]];
      ordered := Placed(leq, ordered, stats[i]);
    }
    assert stats[..|stats|] == stats;
  }

  /** The first client of the list that had traffic in the window. */
  method FindTopClient(leq: Collation, ordered: seq<ClientStats>) returns (top: Option<ClientStats>)
    requires Sorted(leq, ordered)
    ensures top.None? <==> forall k :: 0 <= k < |ordered| ==> ordered[k].windowTrafficBytes == 0
    ensures top.Some? ==> top.value in ordered && top.value.windowTrafficBytes > 0
    ensures top.Some? ==> forall k :: 0 <= k < |ordered| ==> ordered[k].windowTrafficBytes <= top.value.windowTrafficBytes
  {
    for i := 0 to |ordered|
      invariant forall k :: 0 <= k < i ==> ordered[k].windowTrafficBytes == 0
    {
      if ordered[i].windowTrafficBytes > 0 {
        assert forall k :: i < k < |ordered| ==> Before(leq, ordered[i], ordered[k]);
        return Some(ordered[i]);
      }
    }
    return None;
  }

  /** Among the first n buckets: at least as much as in all, more than in any before. */
  ghost predicate FirstBusiest(buckets: seq<Bucket>, n: nat, at: nat) {
    && at < n <= |buckets|
    && (forall k :: 0 <= k < n ==> buckets[k].totalBytes <= buckets[at].totalBytes)
    && (forall k :: 0 <= k < at ==> buckets[k].totalBytes < buckets[at].totalBytes)
  }

  method FindBusiest(buckets: seq<Bucket>) returns (busiest: Option<Bucket>)
    ensures busiest.None? <==> buckets == []
    ensures busiest.Some? ==> exists at: nat :: FirstBusiest(buckets, |buckets|, at) && buckets[at] == busiest.value
  {
    busiest := None;
    ghost var at: nat := 0;
    for i := 0 to |buckets|
      invariant busiest.None? <==> i == 0
      invariant busiest.Some? ==> FirstBusiest(buckets, i, at) && buckets[at] == busiest.value
    {
      if busiest.None? || buckets[i].totalBytes > busiest.value.totalBytes {
        busiest := Some(buckets[i]);
        at := i;
      }
    }
  }
}
