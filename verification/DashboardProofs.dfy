/**
 The timeline and the client list tell the same story: what they disagree on is exactly the
 traffic of rows that only one of them shows.
 */
module DashboardProofs {

  import opened Basics
  import opened Clients
  import opened Dashboard

  // ----- sums split by a second criterion -----

  lemma {:induction false} TotalSplit(rows: seq<TrendRow>, p: Choice, q: Choice, either: Choice, f: Measure)
    requires forall r :: r in rows ==> (either(r) <==> p(r) || q(r)) && !(p(r) && q(r))
    ensures Total(rows, either, f) == Total(rows, p, f) + Total(rows, q, f)
  {
    if rows != [] {
      var n := |rows| - 1;
      TotalSplit(rows[..n], p, q, either, f);
    }
  }

  lemma {:induction false} TotalNone(rows: seq<TrendRow>, p: Choice, f: Measure)
    requires forall r :: r in rows && p(r) ==> f(r) == 0
    ensures Total(rows, p, f) == 0
  {
    if rows != [] {
      TotalNone(rows[..|rows| - 1], p, f);
    }
  }

  lemma {:induction false} TotalSame(rows: seq<TrendRow>, p: Choice, q: Choice, f: Measure)
    requires forall r :: r in rows ==> p(r) == q(r)
    ensures Total(rows, p, f) == Total(rows, q, f)
  {
    if rows != [] {
      TotalSame(rows[..|rows| - 1], p, q, f);
    }
  }

  // ----- what one row adds -----

  /** A row adds its own bytes, direction by direction, to the bucket of its day and to no other. */
  lemma RowGoesToItsDay(rows: seq<TrendRow>, row: TrendRow, day: int)
    ensures BucketOf([], day) == Bucket(day, 0, 0, 0, {})
    ensures
      var before := BucketOf(rows, day);
      BucketOf(rows + [row], day) ==
        if row.day != day then before
        else Bucket(day, before.incomingBytes + row.incomingBytes, before.outgoingBytes + row.outgoingBytes,
                    before.totalBytes + row.totalBytes,
                    before.activeClients + if row.activeConnections > 0 then {row.clientId} else {})
  {
    BucketNext(rows + [row], |rows|, day);
    assert (rows + [row])[..|rows|] == rows && (rows + [row])[..|rows| + 1] == rows + [row];
  }

  /** A row adds to the figures of its own client and to no other's; what is not of the window comes from elsewhere. */
  lemma RowGoesToItsClient(c: ClientRow, rows: seq<TrendRow>, row: TrendRow, allTime: map<ClientId, Totals>,
                           latest: map<ClientId, nat>, today: int)
    ensures StatsOf(c, [], allTime, latest, today) ==
      ClientStats(c, if c.id in allTime then allTime[c.id] else Totals(0, 0, 0), if c.id in latest then latest[c.id] else 0, 0, 0, 0, 0)
    ensures
      var before := StatsOf(c, rows, allTime, latest, today);
      StatsOf(c, rows + [row], allTime, latest, today) ==
        if row.clientId != c.id then before
        else ClientStats(c, before.allTime, before.activeConnections,
                         before.activeDays + (if row.totalBytes > 0 || row.activeConnections > 0 then 1 else 0),
                         if row.activeConnections > before.peakActiveConnections then row.activeConnections else before.peakActiveConnections,
                         before.todayTrafficBytes + (if row.day == today then row.totalBytes else 0),
                         before.windowTrafficBytes + row.totalBytes)
  {
    StatsNext(c, rows + [row], |rows|, allTime, latest, today);
    assert (rows + [row])[..|rows|] == rows && (rows + [row])[..|rows| + 1] == rows + [row];
  }

  /** The peak is the most connections that any row of the client shows. */
  lemma {:induction false} PeakIsTheMost(rows: seq<TrendRow>, id: ClientId)
    ensures forall r :: r in rows && r.clientId == id ==> r.activeConnections <= Peak(rows, id)
    ensures Peak(rows, id) == 0 || exists r :: r in rows && r.clientId == id && r.activeConnections == Peak(rows, id)
  {
    if rows != [] {
      var n := |rows| - 1;
      PeakIsTheMost(rows[..n], id);
      assert rows == rows[..n] + [rows[n]];
      if Peak(rows, id) == Peak(rows[..n], id) {
        assert forall r :: r in rows[..n] ==> r in rows;
      } else {
        assert rows[n] in rows && rows[n].activeConnections == Peak(rows, id);
      }
    }
  }

  function All(): Choice {
    (r: TrendRow) => true
  }

  function Within(from: int, to: int): Choice {
    (r: TrendRow) => from <= r.day < to
  }

  function OfClientWithin(id: ClientId, from: int, to: int): Choice {
    (r: TrendRow) => r.clientId == id && from <= r.day < to
  }

  function Outside(from: int, to: int): Choice {
    (r: TrendRow) => !(from <= r.day < to)
  }

  function Listed(ids: seq<ClientId>): Choice {
    (r: TrendRow) => r.clientId in ids
  }

  function Unlisted(ids: seq<ClientId>): Choice {
    (r: TrendRow) => r.clientId !in ids
  }

  function ListedOnDay(ids: seq<ClientId>, day: int): Choice {
    (r: TrendRow) => r.clientId in ids && r.day == day
  }

  function UnlistedOnDay(ids: seq<ClientId>, day: int): Choice {
    (r: TrendRow) => r.clientId !in ids && r.day == day
  }

  // ----- by day -----

  function SumOfDays(rows: seq<TrendRow>, from: int, days: nat, f: Measure): nat {
    if days == 0 then 0 else SumOfDays(rows, from, days - 1, f) + Total(rows, OnDay(from + days - 1), f)
  }

  lemma {:induction false} DaysCoverWindow(rows: seq<TrendRow>, from: int, days: nat, f: Measure)
    ensures SumOfDays(rows, from, days, f) == Total(rows, Within(from, from + days), f)
  {
    if days == 0 {
      TotalNone(rows, Within(from, from), f);
    } else {
      DaysCoverWindow(rows, from, days - 1, f);
      TotalSplit(rows, Within(from, from + days - 1), OnDay(from + days - 1), Within(from, from + days), f);
    }
  }

  function SumOfBuckets(buckets: seq<Bucket>): nat {
    if buckets == [] then 0 else SumOfBuckets(buckets[..|buckets| - 1]) + buckets[|buckets| - 1].totalBytes
  }

  type Column = Bucket -> nat

  function SumOfColumn(buckets: seq<Bucket>, column: Column): nat {
    if buckets == [] then 0 else SumOfColumn(buckets[..|buckets| - 1], column) + column(buckets[|buckets| - 1])
  }

  lemma {:induction false} ColumnIsDays(timeline: seq<Bucket>, column: Column, rows: seq<TrendRow>, from: int, f: Measure)
    requires forall k :: 0 <= k < |timeline| ==> column(timeline[k]) == Total(rows, OnDay(from + k), f)
    ensures SumOfColumn(timeline, column) == SumOfDays(rows, from, |timeline|, f)
  {
    if timeline != [] {
      ColumnIsDays(timeline[..|timeline| - 1], column, rows, from, f);
    }
  }

  function InOf(b: Bucket): nat {
    b.incomingBytes
  }

  function OutOf(b: Bucket): nat {
    b.outgoingBytes
  }

  lemma ColumnIsKept(timeline: seq<Bucket>, column: Column, rows: seq<TrendRow>, from: int, to: int, f: Measure)
    requires to == from + |timeline|
    requires forall k :: 0 <= k < |timeline| ==> column(timeline[k]) == Total(rows, OnDay(from + k), f)
    ensures SumOfColumn(timeline, column) + Total(rows, Outside(from, to), f) == Total(rows, All(), f)
  {
    ColumnIsDays(timeline, column, rows, from, f);
    DaysCoverWindow(rows, from, |timeline|, f);
    TotalSplit(rows, Within(from, to), Outside(from, to), All(), f);
  }

  /** A timeline as `BuildTrendBuckets` returns it. */
  ghost predicate IsTimeline(timeline: seq<Bucket>, rows: seq<TrendRow>, from: int) {
    forall k :: 0 <= k < |timeline| ==> timeline[k] == BucketOf(rows, from + k)
  }

  lemma {:induction false} BucketsAreDays(timeline: seq<Bucket>, rows: seq<TrendRow>, from: int)
    requires IsTimeline(timeline, rows, from)
    ensures SumOfBuckets(timeline) == SumOfDays(rows, from, |timeline|, Bytes)
  {
    if timeline != [] {
      var n := |timeline| - 1;
      BucketsAreDays(timeline[..n], rows, from);
      assert timeline[n] == BucketOf(rows, from + n);
    }
  }

  /** Each direction of the timeline sums to that direction of the rows in the window. */
  lemma DirectionsAreKept(timeline: seq<Bucket>, rows: seq<TrendRow>, from: int, to: int)
    requires IsTimeline(timeline, rows, from) && to == from + |timeline|
    ensures SumOfColumn(timeline, InOf) + Total(rows, Outside(from, to), Incoming) == Total(rows, All(), Incoming)
    ensures SumOfColumn(timeline, OutOf) + Total(rows, Outside(from, to), Outgoing) == Total(rows, All(), Outgoing)
  {
    ColumnIsKept(timeline, InOf, rows, from, to, Incoming);
    ColumnIsKept(timeline, OutOf, rows, from, to, Outgoing);
  }

  lemma {:induction false} SumOfBucketsConcat(a: seq<Bucket>, b: seq<Bucket>)
    ensures SumOfBuckets(a + b) == SumOfBuckets(a) + SumOfBuckets(b)
  {
    if b == [] {
      assert a + b == a;
    } else {
      var n := |b| - 1;
      SumOfBucketsConcat(a, b[..n]);
      assert (a + b)[..|a| + n] == a + b[..n];
    }
  }

  /** The comparison of two weeks covers a timeline of fourteen days. */
  lemma TwoWeeks(timeline: seq<Bucket>)
    requires |timeline| == 14
    ensures SumOfBuckets(timeline) == SumOfBuckets(timeline[|timeline| - 7..]) + SumOfBuckets(timeline[|timeline| - 14..|timeline| - 7])
  {
    SumOfBucketsConcat(timeline[0..7], timeline[7..]);
    assert timeline == timeline[0..7] + timeline[7..];
  }

  // ----- by client -----

  function IdsOf(clients: seq<ClientRow>): (ids: seq<ClientId>)
    ensures |ids| == |clients| && forall k :: 0 <= k < |ids| ==> ids[k] == clients[k].id
  {
    seq(|clients|, k requires 0 <= k < |clients| => clients[k].id)
  }

  predicate AllDifferent(ids: seq<ClientId>) {
    forall i, j :: 0 <= i < j < |ids| ==> ids[i] != ids[j]
  }

  function SumOfClients(rows: seq<TrendRow>, ids: seq<ClientId>, f: Measure): nat {
    if ids == [] then 0 else SumOfClients(rows, ids[..|ids| - 1], f) + Total(rows, OfClient(ids[|ids| - 1]), f)
  }

  lemma {:induction false} ClientsCoverListed(rows: seq<TrendRow>, ids: seq<ClientId>, f: Measure)
    requires AllDifferent(ids)
    ensures SumOfClients(rows, ids, f) == Total(rows, Listed(ids), f)
  {
    if ids == [] {
      TotalNone(rows, Listed(ids), f);
    } else {
      var n := |ids| - 1;
      ClientsCoverListed(rows, ids[..n], f);
      assert ids == ids[..n] + [ids[n]];
      TotalSplit(rows, Listed(ids[..n]), OfClient(ids[n]), Listed(ids), f);
    }
  }

  function SumToday(rows: seq<TrendRow>, ids: seq<ClientId>, today: int): nat {
    if ids == [] then 0 else SumToday(rows, ids[..|ids| - 1], today) + Total(rows, OfClientOnDay(ids[|ids| - 1], today), Bytes)
  }

  lemma {:induction false} ClientsCoverToday(rows: seq<TrendRow>, ids: seq<ClientId>, today: int)
    requires AllDifferent(ids)
    ensures SumToday(rows, ids, today) == Total(rows, ListedOnDay(ids, today), Bytes)
  {
    if ids == [] {
      TotalNone(rows, ListedOnDay(ids, today), Bytes);
    } else {
      var n := |ids| - 1;
      ClientsCoverToday(rows, ids[..n], today);
      assert ids == ids[..n] + [ids[n]];
      TotalSplit(rows, ListedOnDay(ids[..n], today), OfClientOnDay(ids[n], today), ListedOnDay(ids, today), Bytes);
    }
  }

  function WindowTraffic(stats: seq<ClientStats>): nat {
    if stats == [] then 0 else WindowTraffic(stats[..|stats| - 1]) + stats[|stats| - 1].windowTrafficBytes
  }

  function TodayTraffic(stats: seq<ClientStats>): nat {
    if stats == [] then 0 else TodayTraffic(stats[..|stats| - 1]) + stats[|stats| - 1].todayTrafficBytes
  }

  /** A list as `BuildClientStats` returns it. */
  ghost predicate AreStats(stats: seq<ClientStats>, ids: seq<ClientId>, rows: seq<TrendRow>, today: int) {
    && |stats| == |ids|
    && (forall k :: 0 <= k < |stats| ==> stats[k].windowTrafficBytes == Total(rows, OfClient(ids[k]), Bytes))
    && (forall k :: 0 <= k < |stats| ==> stats[k].todayTrafficBytes == Total(rows, OfClientOnDay(ids[k], today), Bytes))
  }

  lemma {:induction false} StatsAreClients(stats: seq<ClientStats>, ids: seq<ClientId>, rows: seq<TrendRow>, today: int)
    requires AreStats(stats, ids, rows, today)
    ensures WindowTraffic(stats) == SumOfClients(rows, ids, Bytes)
    ensures TodayTraffic(stats) == SumToday(rows, ids, today)
  {
    if stats != [] {
      StatsAreClients(stats[..|stats| - 1], ids[..|ids| - 1], rows, today);
    }
  }

  // ----- the two groupings agree -----

  lemma ClientsAndUnlisted(stats: seq<ClientStats>, ids: seq<ClientId>, rows: seq<TrendRow>, today: int)
    requires AreStats(stats, ids, rows, today) && AllDifferent(ids)
    ensures WindowTraffic(stats) + Total(rows, Unlisted(ids), Bytes) == Total(rows, All(), Bytes)
  {
    StatsAreClients(stats, ids, rows, today);
    ClientsCoverListed(rows, ids, Bytes);
    TotalSplit(rows, Listed(ids), Unlisted(ids), All(), Bytes);
  }

  lemma DaysAndOutside(timeline: seq<Bucket>, rows: seq<TrendRow>, from: int, to: int)
    requires IsTimeline(timeline, rows, from) && to == from + |timeline|
    ensures SumOfBuckets(timeline) + Total(rows, Outside(from, to), Bytes) == Total(rows, All(), Bytes)
  {
    BucketsAreDays(timeline, rows, from);
    DaysCoverWindow(rows, from, |timeline|, Bytes);
    TotalSplit(rows, Within(from, to), Outside(from, to), All(), Bytes);
  }

  /** For any rows: the two groupings differ exactly by the rows of clients that are not listed and the rows outside the window. */
  lemma GroupingsDifferExactly(timeline: seq<Bucket>, stats: seq<ClientStats>, ids: seq<ClientId>, rows: seq<TrendRow>, today: int)
    requires IsTimeline(timeline, rows, today + 1 - |timeline|)
    requires AreStats(stats, ids, rows, today) && AllDifferent(ids)
    ensures WindowTraffic(stats) + Total(rows, Unlisted(ids), Bytes)
         == SumOfBuckets(timeline) + Total(rows, Outside(today + 1 - |timeline|, today + 1), Bytes)
  {
    ClientsAndUnlisted(stats, ids, rows, today);
    DaysAndOutside(timeline, rows, today + 1 - |timeline|, today + 1);
  }

  /** Today's traffic by client falls short of the last bucket by the rows of clients that are not listed. */
  lemma TodayDiffersExactly(timeline: seq<Bucket>, stats: seq<ClientStats>, ids: seq<ClientId>, rows: seq<TrendRow>, today: int)
    requires timeline != [] && IsTimeline(timeline, rows, today + 1 - |timeline|)
    requires AreStats(stats, ids, rows, today) && AllDifferent(ids)
    ensures TodayTraffic(stats) + Total(rows, UnlistedOnDay(ids, today), Bytes) == timeline[|timeline| - 1].totalBytes
  {
    StatsAreClients(stats, ids, rows, today);
    ClientsCoverToday(rows, ids, today);
    TotalSplit(rows, ListedOnDay(ids, today), UnlistedOnDay(ids, today), OnDay(today), Bytes);
    assert timeline[|timeline| - 1] == BucketOf(rows, today);
  }

  /** With every client listed and no row dated after today the groupings agree. */
  lemma GroupingsAgree(timeline: seq<Bucket>, stats: seq<ClientStats>, ids: seq<ClientId>, rows: seq<TrendRow>, today: int)
    requires timeline != [] && IsTimeline(timeline, rows, today + 1 - |timeline|)
    requires AreStats(stats, ids, rows, today) && AllDifferent(ids)
    requires forall r :: r in rows ==> r.clientId in ids && today + 1 - |timeline| <= r.day <= today
    ensures WindowTraffic(stats) == SumOfBuckets(timeline)
    ensures TodayTraffic(stats) == timeline[|timeline| - 1].totalBytes
  {
    GroupingsDifferExactly(timeline, stats, ids, rows, today);
    TodayDiffersExactly(timeline, stats, ids, rows, today);
    TotalNone(rows, Unlisted(ids), Bytes);
    TotalNone(rows, UnlistedOnDay(ids, today), Bytes);
    TotalNone(rows, Outside(today + 1 - |timeline|, today + 1), Bytes);
  }

  // ----- active days -----

  predicate OneRowPerDay(rows: seq<TrendRow>) {
    forall i, j :: 0 <= i < j < |rows| ==> rows[i].clientId != rows[j].clientId || rows[i].day != rows[j].day
  }

  lemma {:induction false} AtMostOnce(rows: seq<TrendRow>, id: ClientId, day: int)
    requires OneRowPerDay(rows)
    ensures Total(rows, OfClientOnDay(id, day), ActiveDay) <= 1
  {
    if rows != [] {
      var n := |rows| - 1;
      AtMostOnce(rows[..n], id, day);
      if rows[n].clientId == id && rows[n].day == day {
        TotalNone(rows[..n], OfClientOnDay(id, day), ActiveDay);
      }
    }
  }

  lemma {:induction false} ActiveDaysWithin(rows: seq<TrendRow>, id: ClientId, from: int, days: nat)
    requires OneRowPerDay(rows)
    ensures Total(rows, OfClientWithin(id, from, from + days), ActiveDay) <= days
  {
    if days == 0 {
      TotalNone(rows, OfClientWithin(id, from, from), ActiveDay);
    } else {
      ActiveDaysWithin(rows, id, from, days - 1);
      AtMostOnce(rows, id, from + days - 1);
      TotalSplit(rows, OfClientWithin(id, from, from + days - 1), OfClientOnDay(id, from + days - 1),
                 OfClientWithin(id, from, from + days), ActiveDay);
    }
  }

  /** A client is active on no more days than the window has. */
  lemma ActiveDaysBounded(c: ClientRow, rows: seq<TrendRow>, allTime: map<ClientId, Totals>, latest: map<ClientId, nat>, today: int, windowDays: nat)
    requires OneRowPerDay(rows)
    requires forall r :: r in rows ==> today + 1 - windowDays <= r.day <= today
    ensures StatsOf(c, rows, allTime, latest, today).activeDays <= windowDays
  {
    var from := today + 1 - windowDays;
    ActiveDaysWithin(rows, c.id, from, windowDays);
    TotalSame(rows, OfClient(c.id), OfClientWithin(c.id, from, from + windowDays), ActiveDay);
  }

  /** The results of the two loops are what the sums above speak about. */
  lemma LoopsMeetSums(clients: seq<ClientRow>, stats: seq<ClientStats>, rows: seq<TrendRow>, allTime: map<ClientId, Totals>,
                      latest: map<ClientId, nat>, today: int)
    requires UniqueIds(clients) && |stats| == |clients|
    requires forall k :: 0 <= k < |clients| ==> stats[k] == StatsOf(clients[k], rows, allTime, latest, today)
    ensures AreStats(stats, IdsOf(clients), rows, today) && AllDifferent(IdsOf(clients))
  {
  }

  lemma TakeOne(s: seq<ClientStats>, k: nat)
    requires k < |s|
    ensures s == s[..k] + [s[k]] + s[k + 1..]
    ensures multiset(s[..k] + s[k + 1..]) == multiset(s) - multiset{s[k]}
  {
    assert s == s[..k] + [s[k]] + s[k + 1..];
  }

  lemma TakeSame(a: seq<ClientStats>, n: nat, b: seq<ClientStats>) returns (k: nat)
    requires multiset(a) == multiset(b) && |a| == n + 1
    ensures k < |b| && b[k] == a[n] && b == b[..k] + [b[k]] + b[k + 1..]
    ensures multiset(a[..n]) == multiset(b[..k] + b[k + 1..])
  {
    assert a[n] in multiset(b);
    k :| 0 <= k < |b| && b[k] == a[n];
    TakeOne(a, n);
    TakeOne(b, k);
    assert a[..n] + a[n + 1..] == a[..n];
  }

  /** The list's order does not change its totals. */
  lemma {:induction false} OrderIrrelevant(a: seq<ClientStats>, b: seq<ClientStats>)
    requires multiset(a) == multiset(b)
    ensures WindowTraffic(a) == WindowTraffic(b)
    decreases |a|
  {
    if a == [] {
      assert |multiset(b)| == 0;
    } else {
      var n := |a| - 1;
      var k := TakeSame(a, n, b);
      OrderIrrelevant(a[..n], b[..k] + b[k + 1..]);
      TrafficWithout(b[..k], b[k], b[k + 1..]);
    }
  }

  lemma {:induction false} TrafficWithout(a: seq<ClientStats>, x: ClientStats, b: seq<ClientStats>)
    ensures WindowTraffic(a + [x] + b) == WindowTraffic(a + b) + x.windowTrafficBytes
  {
    if b == [] {
      assert a + [x] + b == a + [x] && a + b == a;
      assert (a + [x])[..|a|] == a;
    } else {
      var n := |b| - 1;
      TrafficWithout(a, x, b[..n]);
      assert (a + [x] + b)[..|a| + 1 + n] == a + [x] + b[..n];
      assert (a + b)[..|a| + n] == a + b[..n];
    }
  }
}
