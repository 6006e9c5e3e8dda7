/**
 The login limiter: one map for all keys, cleaned up by every call. The specification knows only
 a key's own events and never cleans up.
 */
module LoginLimiter {

  import opened Basics

  datatype Attempt = Attempt(failures: nat, firstFailureAt: int, blockedUntil: Option<int>)

  datatype Limits = Limits(ttlMs: nat, maxAttempts: nat)

  datatype Event = Failure(key: string, at: int) | Success(key: string, at: int)

  // ----- one key, without clean-up -----

  /** An entry that the clean-up leaves in place. */
  predicate Live(a: Attempt, now: int, limits: Limits) {
    now - a.firstFailureAt <= limits.ttlMs && !(a.blockedUntil.Some? && a.blockedUntil.value <= now)
  }

  predicate Blocks(o: Option<Attempt>, now: int, limits: Limits) {
    o.Some? && Live(o.value, now, limits) && o.value.blockedUntil.Some?
  }

  function Recorded(o: Option<Attempt>, now: int, limits: Limits): Attempt {
    if o.None? || !Live(o.value, now, limits) then Attempt(1, now, None)
    else
      var failures := o.value.failures + 1;
      Attempt(failures, o.value.firstFailureAt,
              if failures >= limits.maxAttempts then Some(now + limits.ttlMs) else o.value.blockedUntil)
  }

  /** What the events of one key leave behind; the other keys' events do not matter. */
  function WindowOf(events: seq<Event>, key: string, limits: Limits): Option<Attempt> {
    if events == [] then None
    else
      var before := WindowOf(events[..|events| - 1], key, limits);
      var e := events[|events| - 1];
      if e.key != key then before
      else if e.Failure? then Some(Recorded(before, e.at, limits))
      else None
  }

  lemma WindowNext(events: seq<Event>, e: Event, key: string, limits: Limits)
    ensures WindowOf(events + [e], key, limits) ==
      if e.key != key then WindowOf(events, key, limits)
      else if e.Failure? then Some(Recorded(WindowOf(events, key, limits), e.at, limits))
      else None
  {
    assert (events + [e])[..|events|] == events;
  }

  // ----- the service -----

  class LoginAttemptService {
    const limits: Limits
    var attempts: map<string, Attempt>
    ghost var events: seq<Event>
    ghost var clock: int

    /** The map has every entry that is still live, and no entry that differs from the key's own window. */
    ghost predicate Valid()
      reads this
    {
      && (forall key :: key in attempts ==> WindowOf(events, key, limits) == Some(attempts[key]))
      && (forall key :: key !in attempts ==> Forgotten(WindowOf(events, key, limits)))
    }

    ghost predicate Forgotten(o: Option<Attempt>)
      reads this
    {
      o.Some? ==> forall now :: clock <= now ==> !Live(o.value, now, limits)
    }

    constructor (limits: Limits, ghost start: int)
      ensures Valid() && this.limits == limits && events == [] && clock == start
    {
      this.limits := limits;
      attempts := map[];
      events := [];
      clock := start;
    }

    method AssertAllowed(key: string, now: int) returns (allowed: bool)
      requires Valid() && clock <= now
      modifies this
      ensures Valid() && events == old(events) && clock == now
      ensures allowed == !Blocks(WindowOf(events, key, limits), now, limits)
    {
      Cleanup(now);
      allowed := !(key in attempts && attempts[key].blockedUntil.Some? && attempts[key].blockedUntil.value > now);
    }

    method RecordFailure(key: string, now: int)
      requires Valid() && clock <= now
      modifies this
      ensures Valid() && events == old(events) + [Failure(key, now)] && clock == now
    {
      Cleanup(now);
      ghost var before := events;
      events := events + [Failure(key, now)];
      forall k ensures WindowOf(events, k, limits) == WindowOf(before + [Failure(key, now)], k, limits) {
        WindowNext(before, Failure(key, now), k, limits);
      }
      if key !in attempts || now - attempts[key].firstFailureAt > limits.ttlMs {
        attempts := attempts[key := Attempt(1, now, None)];
        return;
      }
      var current := attempts[key];
      var failures := current.failures + 1;
      attempts := attempts[key := Attempt(failures, current.firstFailureAt,
        if failures >= limits.maxAttempts then Some(now + limits.ttlMs) else current.blockedUntil)];
    }

    /** A login with a wrong password. */
    method FailedLogin(key: string, now: int) returns (allowed: bool)
      requires Valid() && clock <= now
      modifies this
      ensures Valid() && clock == now
      ensures events == AfterAttempts(old(events), key, [now], limits)
    {
      allowed := AssertAllowed(key, now);
      if allowed {
        RecordFailure(key, now);
      }
    }

    method Clear(key: string, ghost now: int)
      requires Valid() && clock <= now
      modifies this
      ensures Valid() && events == old(events) + [Success(key, now)] && clock == now
    {
      ghost var before := events;
      events := events + [Success(key, now)];
      clock := now;
      forall k ensures WindowOf(events, k, limits) == if k == key then None else WindowOf(before, k, limits) {
        WindowNext(before, Success(key, now), k, limits);
      }
      attempts := attempts - {key};
    }

    /** Deletes the entries of every key whose window or block has passed, and changes no answer. */
    method Cleanup(now: int)
      requires Valid() && clock <= now
      modifies this`attempts, this`clock
      ensures Valid() && clock == now
      ensures forall key :: key in attempts <==> key in old(attempts) && Live(old(attempts)[key], now, limits)
      ensures forall key :: key in attempts ==> attempts[key] == old(attempts)[key]
    {
      clock := now;
      ghost var all := attempts;
      var left := attempts.Keys;
      var kept := attempts;
      while left != {}
        invariant left <= all.Keys
        invariant forall key :: key in kept <==> key in all && (key in left || Live(all[key], now, limits))
        invariant forall key :: key in kept ==> kept[key] == all[key]
      {
        var key :| key in left;
        left := left - {key};
        if !Live(kept[key], now, limits) {
          kept := kept - {key};
        }
      }
      attempts := kept;
    }
  }

  // ----- bounds -----

  /** The number of failures that it takes to block a key: a first failure never blocks. */
  function Threshold(limits: Limits): nat {
    if limits.maxAttempts < 2 then 2 else limits.maxAttempts
  }

  predicate WellFormed(o: Option<Attempt>, limits: Limits) {
    o.Some? ==>
      && o.value.failures >= 1
      && (o.value.blockedUntil.Some? <==> o.value.failures >= Threshold(limits))
      && (o.value.blockedUntil.Some? ==> o.value.blockedUntil.value >= o.value.firstFailureAt + limits.ttlMs)
  }

  predicate Chronological(events: seq<Event>) {
    forall i, j :: 0 <= i < j < |events| ==> events[i].at <= events[j].at
  }

  predicate Until(o: Option<Attempt>, time: int) {
    o.Some? ==> o.value.firstFailureAt <= time
  }

  lemma {:induction false} WindowsAreWellFormed(events: seq<Event>, key: string, limits: Limits)
    requires Chronological(events)
    ensures WellFormed(WindowOf(events, key, limits), limits)
    ensures forall time :: (forall i :: 0 <= i < |events| ==> events[i].at <= time) ==> Until(WindowOf(events, key, limits), time)
  {
    if events != [] {
      var n := |events| - 1;
      WindowsAreWellFormed(events[..n], key, limits);
      assert Until(WindowOf(events[..n], key, limits), events[n].at);
    }
  }

  /** A block holds until the window that began with the first failure ends: then the clean-up drops it, however late it was set.
      At that very millisecond it still holds, unless it was set in the millisecond of the first failure. */
  lemma BlockLastsExactly(a: Attempt, blockedAt: int, now: int, limits: Limits)
    requires a.blockedUntil == Some(blockedAt + limits.ttlMs) && a.firstFailureAt <= blockedAt <= now
    ensures Blocks(Some(a), now, limits) <==>
      if a.firstFailureAt < blockedAt then now <= a.firstFailureAt + limits.ttlMs else now < a.firstFailureAt + limits.ttlMs
  {
  }

  /** Attempts with a wrong password at the given times: each is turned away or recorded. The number of those recorded. */
  function Passed(o: Option<Attempt>, times: seq<int>, limits: Limits): nat
    decreases |times|
  {
    if times == [] then 0
    else if Blocks(o, times[0], limits) then Passed(o, times[1..], limits)
    else 1 + Passed(Some(Recorded(o, times[0], limits)), times[1..], limits)
  }

  predicate Ascending(times: seq<int>) {
    forall i, j :: 0 <= i < j < |times| ==> times[i] <= times[j]
  }

  predicate AllWithin(times: seq<int>, from: int, to: int) {
    forall i :: 0 <= i < |times| ==> from <= times[i] < to
  }

  function Left(o: Option<Attempt>, limits: Limits): nat {
    if o.Some? && o.value.failures < Threshold(limits) then Threshold(limits) - o.value.failures else 0
  }

  function Min(a: nat, b: nat): nat {
    if a < b then a else b
  }

  /** A window that is live throughout lets exactly those pass that are left until it blocks. */
  lemma {:induction false} PassedInWindow(a: Attempt, times: seq<int>, limits: Limits, from: int)
    requires WellFormed(Some(a), limits) && from <= a.firstFailureAt && Ascending(times)
    requires AllWithin(times, a.firstFailureAt, from + limits.ttlMs)
    ensures Passed(Some(a), times, limits) == Min(|times|, Left(Some(a), limits))
    decreases |times|
  {
    if times != [] {
      assert Live(a, times[0], limits);
      var next := if Blocks(Some(a), times[0], limits) then a else Recorded(Some(a), times[0], limits);
      PassedInWindow(next, times[1..], limits, from);
    }
  }

  /** In a window that starts with a failure exactly the first max(2, MAX) failures pass. */
  lemma PassedFromFirst(o: Option<Attempt>, times: seq<int>, limits: Limits)
    requires times != [] && Ascending(times) && AllWithin(times, times[0], times[0] + limits.ttlMs)
    requires o.None? || !Live(o.value, times[0], limits)
    ensures Passed(o, times, limits) == Min(|times|, if limits.maxAttempts < 2 then 2 else limits.maxAttempts)
  {
    PassedInWindow(Recorded(o, times[0], limits), times[1..], limits, times[0]);
  }

  /** What attempts with a wrong password at the given times leave behind. */
  function AfterTimes(o: Option<Attempt>, times: seq<int>, limits: Limits): Option<Attempt>
    decreases |times|
  {
    if times == [] then o
    else AfterTimes(if Blocks(o, times[0], limits) then o else Some(Recorded(o, times[0], limits)), times[1..], limits)
  }

  /** The failure that reaches the threshold sets the block, and nothing after it moves it. */
  lemma {:induction false} AfterTimesInWindow(a: Attempt, times: seq<int>, limits: Limits)
    requires WellFormed(Some(a), limits) && a.failures <= Threshold(limits) && Ascending(times)
    requires AllWithin(times, a.firstFailureAt, a.firstFailureAt + limits.ttlMs)
    ensures
      var left := Left(Some(a), limits);
      AfterTimes(Some(a), times, limits) == Some(
        if left == 0 then a
        else if |times| < left then a.(failures := a.failures + |times|)
        else Attempt(Threshold(limits), a.firstFailureAt, Some(times[left - 1] + limits.ttlMs)))
    decreases |times|
  {
    if times != [] {
      assert Live(a, times[0], limits);
      var next := if Blocks(Some(a), times[0], limits) then a else Recorded(Some(a), times[0], limits);
      AfterTimesInWindow(next, times[1..], limits);
    }
  }

  /** After attempts within one window somebody is blocked exactly when there were max(2, MAX) of them, and exactly until
      that window ends; its last millisecond counts unless all those came in its first. */
  lemma BlockedAfterwardsExactly(o: Option<Attempt>, times: seq<int>, limits: Limits, now: int)
    requires times != [] && Ascending(times) && AllWithin(times, times[0], times[0] + limits.ttlMs)
    requires o.None? || !Live(o.value, times[0], limits)
    requires now >= times[|times| - 1]
    ensures
      var n := if limits.maxAttempts < 2 then 2 else limits.maxAttempts;
      Blocks(AfterTimes(o, times, limits), now, limits) <==>
        |times| >= n && if times[0] < times[n - 1] then now <= times[0] + limits.ttlMs else now < times[0] + limits.ttlMs
  {
    var first := Recorded(o, times[0], limits);
    AfterTimesInWindow(first, times[1..], limits);
  }

  /** Without a success at most twice max(2, MAX) failures pass in any interval as long as a window. */
  lemma {:induction false} PassedInInterval(o: Option<Attempt>, times: seq<int>, limits: Limits, from: int)
    requires WellFormed(o, limits) && Ascending(times) && AllWithin(times, from, from + limits.ttlMs)
    requires times != [] ==> Until(o, times[0])
    ensures Passed(o, times, limits) <= Left(o, limits) + Threshold(limits)
    ensures Passed(o, times, limits) <= 2 * Threshold(limits)
    decreases |times|
  {
    if times != [] {
      var t := times[0];
      if o.Some? && Live(o.value, t, limits) {
        var next := if Blocks(o, t, limits) then o else Some(Recorded(o, t, limits));
        PassedInInterval(next, times[1..], limits, from);
      } else {
        PassedInWindow(Recorded(o, t, limits), times[1..], limits, from);
      }
    }
  }

  // ----- from the service's events to the bounds -----

  function EventsOf(events: seq<Event>, key: string): seq<Event> {
    if events == [] then []
    else
      var e := events[|events| - 1];
      EventsOf(events[..|events| - 1], key) + if e.key == key then [e] else []
  }

  /** Keys are independent of each other although they share one map. */
  lemma {:induction false} KeysIndependent(events: seq<Event>, key: string, limits: Limits)
    ensures WindowOf(events, key, limits) == WindowOf(EventsOf(events, key), key, limits)
  {
    if events != [] {
      var n := |events| - 1;
      KeysIndependent(events[..n], key, limits);
      if events[n].key == key {
        WindowNext(EventsOf(events[..n], key), events[n], key, limits);
      } else {
        assert EventsOf(events, key) == EventsOf(events[..n], key);
      }
    }
  }

  /** The events after attempts with a wrong password at the given times, each checked and then recorded at once. */
  function AfterAttempts(events: seq<Event>, key: string, times: seq<int>, limits: Limits): seq<Event>
    decreases |times|
  {
    if times == [] then events
    else if Blocks(WindowOf(events, key, limits), times[0], limits) then AfterAttempts(events, key, times[1..], limits)
    else AfterAttempts(events + [Failure(key, times[0])], key, times[1..], limits)
  }

  lemma {:induction false} AttemptsCount(events: seq<Event>, key: string, times: seq<int>, limits: Limits)
    ensures |AfterAttempts(events, key, times, limits)| == |events| + Passed(WindowOf(events, key, limits), times, limits)
    ensures WindowOf(AfterAttempts(events, key, times, limits), key, limits) == AfterTimes(WindowOf(events, key, limits), times, limits)
    decreases |times|
  {
    if times != [] {
      if Blocks(WindowOf(events, key, limits), times[0], limits) {
        AttemptsCount(events, key, times[1..], limits);
      } else {
        WindowNext(events, Failure(key, times[0]), key, limits);
        AttemptsCount(events + [Failure(key, times[0])], key, times[1..], limits);
      }
    }
  }

  /** Whatever happened before: in any interval as long as a window at most 2 * max(2, MAX) wrong passwords get through. */
  lemma AttemptsBounded(events: seq<Event>, key: string, times: seq<int>, limits: Limits, from: int)
    requires Chronological(events) && Ascending(times) && AllWithin(times, from, from + limits.ttlMs)
    requires times != [] ==> forall i :: 0 <= i < |events| ==> events[i].at <= times[0]
    ensures |AfterAttempts(events, key, times, limits)| - |events| <= 2 * Threshold(limits)
  {
    AttemptsCount(events, key, times, limits);
    WindowsAreWellFormed(events, key, limits);
    PassedInInterval(WindowOf(events, key, limits), times, limits, from);
  }
}
