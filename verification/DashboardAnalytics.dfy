/** The analytics answer as a whole: timeline, ordered client list and top client. */
module DashboardAnalytics {

  import opened Basics
  import opened Clients
  import opened Dashboard
  import opened DashboardProofs

  /** What the query promises: rows of listed clients, none of them outside the window. */
  ghost predicate RowsFit(clients: seq<ClientRow>, rows: seq<TrendRow>, today: int, windowDays: nat) {
    forall r :: r in rows ==> r.clientId in IdsOf(clients) && today + 1 - windowDays <= r.day <= today
  }

  predicate Leads(top: ClientStats, ordered: seq<ClientStats>) {
    forall k :: 0 <= k < |ordered| ==> ordered[k].windowTrafficBytes <= top.windowTrafficBytes
  }

  lemma {:induction false} NoTraffic(stats: seq<ClientStats>)
    ensures WindowTraffic(stats) == 0 <==> forall k :: 0 <= k < |stats| ==> stats[k].windowTrafficBytes == 0
  {
    if stats != [] {
      NoTraffic(stats[..|stats| - 1]);
    }
  }

  method BuildDashboardAnalytics(leq: Collation, clients: seq<ClientRow>, rows: seq<TrendRow>, allTime: map<ClientId, Totals>,
                                 latest: map<ClientId, nat>, today: int, windowDays: nat)
    returns (timeline: seq<Bucket>, ordered: seq<ClientStats>, top: Option<ClientStats>)
    requires Orders(leq) && UniqueIds(clients) && windowDays > 0
    ensures |timeline| == windowDays && IsTimeline(timeline, rows, today + 1 - windowDays)
    ensures Sorted(leq, ordered)
    ensures exists stats :: AreStats(stats, IdsOf(clients), rows, today) && multiset(stats) == multiset(ordered)
    ensures top.Some? ==> top.value in ordered && Leads(top.value, ordered)
    ensures RowsFit(clients, rows, today, windowDays) ==> WindowTraffic(ordered) == SumOfBuckets(timeline)
    ensures RowsFit(clients, rows, today, windowDays) ==> (top.None? <==> SumOfBuckets(timeline) == 0)
  {
    timeline := BuildTrendBuckets(rows, today, windowDays);
    var stats := BuildClientStats(clients, rows, allTime, latest, today);
    ordered := SortClients(leq, stats);
    top := FindTopClient(leq, ordered);
    LoopsMeetSums(clients, stats, rows, allTime, latest, today);
    OrderIrrelevant(stats, ordered);
    NoTraffic(ordered);
    if RowsFit(clients, rows, today, windowDays) {
      GroupingsAgree(timeline, stats, IdsOf(clients), rows, today);
    }
  }
}
