/**
 The statistics that one snapshot reads from Xray, and their aggregation into one
 traffic delta per client tag.
 */
module TrafficDeltas {

  import opened Basics
  import opened StatNames

  datatype StatEntry = StatEntry(name: string, value: nat)

  datatype Delta = Delta(incomingBytes: nat, outgoingBytes: nat, totalBytes: nat)

  const NO_DELTA := Delta(0, 0, 0)

  /** Bytes that a list of statistics reports for one direction of one tag. */
  function Reported(stats: seq<StatEntry>, tag: string, dir: Direction): nat {
    if stats == [] then 0
    else
      var last := stats[|stats| - 1];
      Reported(stats[..|stats| - 1], tag, dir)
      + if ParseTrafficName(last.name) == Some((tag, dir)) then last.value else 0
  }

  /** A tag counts as named when some traffic statistic carries it, even with value zero. */
  predicate Mentioned(stats: seq<StatEntry>, tag: string) {
    exists i :: 0 <= i < |stats| && Carries(stats[i], tag)
  }

  predicate Carries(stat: StatEntry, tag: string) {
    ParseTrafficName(stat.name).Some? && ParseTrafficName(stat.name).value.0 == tag
  }

  function ReportedDelta(stats: seq<StatEntry>, tag: string): Delta {
    var incoming, outgoing := Reported(stats, tag, Downlink), Reported(stats, tag, Uplink);
    Delta(incoming, outgoing, incoming + outgoing)
  }

  /** A delta map that aggregates a list of statistics. */
  ghost predicate Aggregates(usage: map<string, Delta>, stats: seq<StatEntry>) {
    && (forall tag :: tag in usage <==> tag != "" && Mentioned(stats, tag))
    && (forall tag :: tag in usage ==> usage[tag] == ReportedDelta(stats, tag))
  }

  method BuildTrafficDeltaMap(stats: seq<StatEntry>) returns (usage: map<string, Delta>)
    ensures Aggregates(usage, stats)
  {
    usage := map[];
    for i := 0 to |stats|
      invariant Aggregates(usage, stats[..i])
    {
      var stat := stats[i];
      var parsed := ParseTrafficName(stat.name);
      if parsed.None? || parsed.value.0 == "" {
        AggregateSkip(usage, stats, i);
        continue;
      }
      var (tag, dir) := parsed.value;
      var current := if tag in usage then usage[tag] else NO_DELTA;
      if dir == Uplink {
        current := current.(outgoingBytes := current.outgoingBytes + stat.value);
      } else {
        current := current.(incomingBytes := current.incomingBytes + stat.value);
      }
      current := current.(totalBytes := current.incomingBytes + current.outgoingBytes);
      AggregateStep(usage, stats, i, current);
      usage := usage[tag := current];
    }
    assert stats[..|stats|] == stats;
  }

  lemma AggregateSkip(usage: map<string, Delta>, stats: seq<StatEntry>, i: nat)
    requires i < |stats| && Aggregates(usage, stats[..i])
    requires ParseTrafficName(stats[i].name).None? || ParseTrafficName(stats[i].name).value.0 == ""
    ensures Aggregates(usage, stats[..i + 1])
  {
    forall t: string ensures Mentioned(stats[..i + 1], t) && t != "" <==> Mentioned(stats[..i], t) && t != "" {
      StepMentioned(stats, i, t);
    }
    forall t | t in usage ensures usage[t] == ReportedDelta(stats[..i + 1], t) {
      StepDelta(stats, i, t);
    }
  }

  lemma AggregateStep(usage: map<string, Delta>, stats: seq<StatEntry>, i: nat, current: Delta)
    requires i < |stats| && Aggregates(usage, stats[..i])
    requires ParseTrafficName(stats[i].name).Some? && ParseTrafficName(stats[i].name).value.0 != ""
    requires
      var (tag, dir) := ParseTrafficName(stats[i].name).value;
      var before := if tag in usage then usage[tag] else NO_DELTA;
      && current.incomingBytes == before.incomingBytes + (if dir == Downlink then stats[i].value else 0)
      && current.outgoingBytes == before.outgoingBytes + (if dir == Uplink then stats[i].value else 0)
      && current.totalBytes == current.incomingBytes + current.outgoingBytes
    ensures Aggregates(usage[ParseTrafficName(stats[i].name).value.0 := current], stats[..i + 1])
  {
    var after := usage[ParseTrafficName(stats[i].name).value.0 := current];
    forall t: string ensures t in after <==> t != "" && Mentioned(stats[..i + 1], t) {
      StepMentioned(stats, i, t);
    }
    forall t | t in after ensures after[t] == ReportedDelta(stats[..i + 1], t) {
      StepDelta(stats, i, t);
      if t !in usage {
        UnmentionedReportsNothing(stats[..i], t);
      }
    }
  }

  lemma StepDelta(stats: seq<StatEntry>, i: nat, tag: string)
    requires i < |stats|
    ensures
      var before, after := ReportedDelta(stats[..i], tag), ReportedDelta(stats[..i + 1], tag);
      var parsed := ParseTrafficName(stats[i].name);
      && after.incomingBytes == before.incomingBytes + (if parsed == Some((tag, Downlink)) then stats[i].value else 0)
      && after.outgoingBytes == before.outgoingBytes + (if parsed == Some((tag, Uplink)) then stats[i].value else 0)
  {
    StepReported(stats, i, tag, Downlink);
    StepReported(stats, i, tag, Uplink);
  }

  lemma StepReported(stats: seq<StatEntry>, i: nat, tag: string, dir: Direction)
    requires i < |stats|
    ensures Reported(stats[..i + 1], tag, dir) == Reported(stats[..i], tag, dir)
            + if ParseTrafficName(stats[i].name) == Some((tag, dir)) then stats[i].value else 0
  {
    assert stats[..i + 1][..i] == stats[..i];
  }

  lemma StepMentioned(stats: seq<StatEntry>, i: nat, tag: string)
    requires i < |stats|
    ensures Mentioned(stats[..i + 1], tag) <==> Mentioned(stats[..i], tag) || Carries(stats[i], tag)
  {
    if Mentioned(stats[..i], tag) {
      var k :| 0 <= k < i && Carries(stats[..i][k], tag);
      assert Carries(stats[..i + 1][k], tag);
    }
    if Carries(stats[i], tag) {
      assert Carries(stats[..i + 1][i], tag);
    }
    if Mentioned(stats[..i + 1], tag) {
      var k :| 0 <= k < i + 1 && Carries(stats[..i + 1][k], tag);
      assert k < i ==> Carries(stats[..i][k], tag);
    }
  }

  lemma {:induction false} UnmentionedReportsNothing(stats: seq<StatEntry>, tag: string)
    requires !Mentioned(stats, tag)
    ensures Reported(stats, tag, Uplink) == 0 == Reported(stats, tag, Downlink)
  {
    if stats != [] {
      var n := |stats| - 1;
      assert !Carries(stats[n], tag);
      assert stats[..n + 1] == stats;
      StepMentioned(stats, n, tag);
      UnmentionedReportsNothing(stats[..n], tag);
    }
  }

  // ----- reading the counters of Xray -----

  /** A query answers with every counter exactly once, in any order. */
  ghost predicate Enumerates(stats: seq<StatEntry>, counters: map<string, nat>) {
    && (forall i, j :: 0 <= i < j < |stats| ==> stats[i].name != stats[j].name)
    && (forall i :: 0 <= i < |stats| ==> stats[i].name in counters && counters[stats[i].name] == stats[i].value)
    && (forall name :: name in counters ==> exists i :: 0 <= i < |stats| && stats[i].name == name)
  }

  function CounterOf(counters: map<string, nat>, tag: string, dir: Direction): nat {
    if TrafficName(tag, dir) in counters then counters[TrafficName(tag, dir)] else 0
  }

  ghost predicate HasCounter(counters: map<string, nat>, tag: string) {
    TrafficName(tag, Uplink) in counters || TrafficName(tag, Downlink) in counters
  }

  lemma {:induction false} ReportedPrefix(stats: seq<StatEntry>, n: nat, tag: string, dir: Direction)
    requires n <= |stats|
    requires forall i, j :: 0 <= i < j < |stats| ==> stats[i].name != stats[j].name
    ensures Parsable(tag) && (exists i :: 0 <= i < n && stats[i].name == TrafficName(tag, dir)) ==>
              forall i :: 0 <= i < n && stats[i].name == TrafficName(tag, dir) ==> Reported(stats[..n], tag, dir) == stats[i].value
    ensures !(Parsable(tag) && exists i :: 0 <= i < n && stats[i].name == TrafficName(tag, dir)) ==>
              Reported(stats[..n], tag, dir) == 0
  {
    if n > 0 {
      ReportedPrefix(stats, n - 1, tag, dir);
      StepReported(stats, n - 1, tag, dir);
      TrafficRoundTrip(tag, dir);
      if ParseTrafficName(stats[n - 1].name) == Some((tag, dir)) {
        AcceptedTrafficName(stats[n - 1].name);
      }
    }
  }

  /** What the aggregation reports for a tag is exactly what Xray counted for it, as long as the
      tag can be read back from the counter's name; for any other tag it reports nothing at all. */
  lemma ReportedIsCounted(stats: seq<StatEntry>, counters: map<string, nat>, tag: string, dir: Direction)
    requires Enumerates(stats, counters)
    ensures Reported(stats, tag, dir) == if Parsable(tag) then CounterOf(counters, tag, dir) else 0
  {
    assert stats[..|stats|] == stats;
    ReportedPrefix(stats, |stats|, tag, dir);
  }

  lemma MentionedIsCounted(stats: seq<StatEntry>, counters: map<string, nat>, tag: string)
    requires Enumerates(stats, counters)
    ensures Mentioned(stats, tag) <==> Parsable(tag) && HasCounter(counters, tag)
  {
    if Mentioned(stats, tag) {
      var i :| 0 <= i < |stats| && Carries(stats[i], tag);
      AcceptedTrafficName(stats[i].name);
    }
    if Parsable(tag) && HasCounter(counters, tag) {
      var dir := if TrafficName(tag, Uplink) in counters then Uplink else Downlink;
      var i :| 0 <= i < |stats| && stats[i].name == TrafficName(tag, dir);
      TrafficRoundTrip(tag, dir);
      assert Carries(stats[i], tag);
    }
  }

  /** The deltas a snapshot takes over are a function of the counters, whatever the order of the answer. */
  ghost predicate DeltasOf(counters: map<string, nat>, deltas: map<string, Delta>) {
    && (forall tag :: tag in deltas <==> tag != "" && Parsable(tag) && HasCounter(counters, tag))
    && (forall tag :: tag in deltas ==>
          var incoming, outgoing := CounterOf(counters, tag, Downlink), CounterOf(counters, tag, Uplink);
          deltas[tag] == Delta(incoming, outgoing, incoming + outgoing))
  }

  lemma AggregationIsExact(stats: seq<StatEntry>, counters: map<string, nat>, deltas: map<string, Delta>)
    requires Enumerates(stats, counters)
    requires Aggregates(deltas, stats)
    ensures DeltasOf(counters, deltas)
  {
    forall tag: string ensures Mentioned(stats, tag) <==> Parsable(tag) && HasCounter(counters, tag) {
      MentionedIsCounted(stats, counters, tag);
    }
    forall tag, dir | Parsable(tag) ensures Reported(stats, tag, dir) == CounterOf(counters, tag, dir) {
      ReportedIsCounted(stats, counters, tag, dir);
    }
  }

  /** A query followed by the aggregation loses no byte of a readable tag and invents none. */
  method ReadDeltas(stats: seq<StatEntry>, ghost counters: map<string, nat>) returns (deltas: map<string, Delta>)
    requires Enumerates(stats, counters)
    ensures DeltasOf(counters, deltas)
  {
    deltas := BuildTrafficDeltaMap(stats);
    AggregationIsExact(stats, counters, deltas);
  }
}
