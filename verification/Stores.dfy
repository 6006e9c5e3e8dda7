/**
 The two systems the service talks to. Every call may fail; each counts its failures, so that a caller
 can be shown to fail only when a call did.
 */
module Stores {

  import opened Basics
  import opened TrafficDeltas
  import opened Clients
  import opened Usage
  import opened ControlPlane

  /** PostgreSQL as the service sees it. A failed call changes nothing. */
  class Database {
    var table: Table
    var audit: seq<AutoBlock>
    ghost var failures: nat

    /** The rows of a query result come back under their ids; a loop over them meets them in
        an order of the database's choosing. */
    method FindAll() returns (rows: Option<Table>)
      modifies this`failures
      ensures failures == old(failures) + if rows.None? then 1 else 0
      ensures rows.Some? ==> rows.value == table
    {
      if * {
        failures := failures + 1;
        return None;
      }
      return Some(table);
    }

    method FindByTags(tags: set<string>) returns (rows: Option<Table>)
      modifies this`failures
      ensures failures == old(failures) + if rows.None? then 1 else 0
      ensures rows.Some? ==> rows.value == Select(table, Tagged(table, tags))
    {
      if * {
        failures := failures + 1;
        return None;
      }
      return Some(Select(table, Tagged(table, tags)));
    }

    /** The rows that an expiry is about to write. */
    method FindExpired(now: nat) returns (rows: Option<Batch>)
      modifies this`failures
      ensures failures == old(failures) + if rows.None? then 1 else 0
      ensures rows.Some? ==> rows.value == ExpiredRows(table, now)
    {
      if * {
        failures := failures + 1;
        return None;
      }
      return Some(ExpiredRows(table, now));
    }

    method SetStatus(id: ClientId, status: Status) returns (ok: bool)
      requires id in table
      modifies this`table, this`failures
      ensures failures == old(failures) + if ok then 0 else 1
      ensures table == if ok then old(table)[id := WithStatus(old(table)[id], status)] else old(table)
    {
      ok := *;
      if ok { table := table[id := WithStatus(table[id], status)]; } else { failures := failures + 1; }
    }

    /** The conditional update: `Some(count)` rows changed, or the call failed. */
    method BlockIfActive(id: ClientId) returns (count: Option<nat>)
      requires id in table
      modifies this`table, this`failures
      ensures failures == old(failures) + if count.None? then 1 else 0
      ensures count.Some? ==> count.value == if old(table)[id].client.status == ACTIVE then 1 else 0
      ensures table == if count.Some? && count.value > 0 then old(table)[id := WithStatus(old(table)[id], BLOCKED)] else old(table)
    {
      if * {
        failures := failures + 1;
        return None;
      }
      if table[id].client.status == ACTIVE {
        table := table[id := WithStatus(table[id], BLOCKED)];
        return Some(1);
      }
      return Some(0);
    }

    method WriteAudit(entry: AutoBlock) returns (ok: bool)
      modifies this`audit, this`failures
      ensures failures == old(failures) + if ok then 0 else 1
      ensures audit == if ok then old(audit) + [entry] else old(audit)
    {
      ok := *;
      if ok { audit := audit + [entry]; } else { failures := failures + 1; }
    }

    /** A transaction takes effect as a whole or not at all. */
    method Commit(table': Table) returns (ok: bool)
      modifies this`table, this`failures
      ensures failures == old(failures) + if ok then 0 else 1
      ensures table == if ok then table' else old(table)
    {
      ok := *;
      if ok { table := table'; } else { failures := failures + 1; }
    }
  }

  function Select(table: Table, ids: set<ClientId>): Table {
    map id | id in table && id in ids :: table[id]
  }

  /** The sum over all usage rows of a client, as the grouped query returns it. */
  method TotalBytes(rows: Rows) returns (total: nat)
    ensures total == Sum(rows).total
  {
    total := 0;
    var left := rows;
    while left != map[]
      invariant total + Sum(left).total == Sum(rows).total
      decreases |left|
    {
      var day :| day in left.Keys;
      SumRemove(left, day);
      total := total + left[day].totalBytes;
      left := left - {day};
    }
  }

  /** For every client, the connection count of its latest usage row. */
  method LatestSnapshots(table: Table) returns (latest: map<ClientId, nat>)
    ensures latest.Keys == table.Keys
    ensures forall id :: id in table ==> latest[id] == LatestConnections(table[id].rows)
  {
    latest := map[];
    var left := table.Keys;
    while left != {}
      invariant left <= table.Keys
      invariant latest.Keys == table.Keys - left
      invariant forall id :: id in latest ==> latest[id] == LatestConnections(table[id].rows)
    {
      var id :| id in left;
      var day := FindLatest(table[id].rows);
      latest := latest[id := if day.Some? then table[id].rows[day.value].activeConnections else 0];
      left := left - {id};
    }
  }

  datatype CallResult = Done | AlreadyExists | Missing | Failed

  /** The answer to a health probe; an answer without uptime counts as the last one known. */
  datatype Probe = Down | Healthy(uptime: Option<nat>)

  /** Xray. A call that fails may or may not have had its effect. */
  class XrayRuntime {
    var users: map<string, string>
    var counters: map<string, nat>
    /** Who is online, and the addresses under each presence statistic. */
    var onlineNames: seq<string>
    var onlineIps: map<string, set<string>>
    ghost var failures: nat

    method QueryStatsReset() returns (stats: Option<seq<StatEntry>>)
      modifies this`counters, this`failures
      ensures failures == old(failures) + if stats.None? then 1 else 0
      ensures stats.Some? ==> Enumerates(stats.value, old(counters)) && counters == Zeroed(old(counters))
      ensures stats.None? ==> counters == old(counters) || counters == Zeroed(old(counters))
    {
      var list := ListCounters(counters);
      if * { counters := Zeroed(counters); }
      if * {
        failures := failures + 1;
        return None;
      }
      counters := Zeroed(counters);
      return Some(list);
    }

    method GetAllOnlineUsers() returns (names: Option<seq<string>>)
      modifies this`failures
      ensures failures == old(failures) + if names.None? then 1 else 0
      ensures names.Some? ==> names.value == onlineNames
    {
      if * {
        failures := failures + 1;
        return None;
      }
      return Some(onlineNames);
    }

    /** The addresses under one presence statistic. */
    method GetStatsOnlineIpList(name: string) returns (ips: Option<set<string>>)
      modifies this`failures
      ensures failures == old(failures) + if ips.None? then 1 else 0
      ensures ips.Some? ==> ips.value == Lookup(onlineIps, name).GetOr({})
    {
      if * {
        failures := failures + 1;
        return None;
      }
      return Some(Lookup(onlineIps, name).GetOr({}));
    }

    /** The older query: a number, which need not be there. */
    method GetStatsOnline(name: string) returns (stat: Option<Option<int>>)
      modifies this`failures
      ensures failures == old(failures) + if stat.None? then 1 else 0
    {
      if * {
        failures := failures + 1;
        return None;
      }
      stat := *;
      if stat.None? {
        return Some(None);
      }
    }

    method GetSysStats() returns (probe: Probe)
      modifies this`failures
      ensures failures == old(failures) + if probe.Down? then 1 else 0
    {
      if * {
        failures := failures + 1;
        return Down;
      }
      var seconds: nat := *;
      if * { return Healthy(Some(seconds)); }
      return Healthy(None);
    }

    method AddUser(tag: string, uuid: string) returns (r: CallResult)
      modifies this`users, this`failures
      ensures failures == old(failures) + if r == Failed then 1 else 0
      ensures r == Done ==> tag !in old(users) && users == old(users)[tag := uuid]
      ensures r == AlreadyExists ==> tag in old(users) && users == old(users)
      ensures r == Failed ==> users == old(users) || (tag !in old(users) && users == old(users)[tag := uuid])
      ensures r != Missing
    {
      if * {
        if tag !in users {
          if * { users := users[tag := uuid]; }
        }
        failures := failures + 1;
        return Failed;
      }
      if tag in users { return AlreadyExists; }
      users := users[tag := uuid];
      return Done;
    }

    method RemoveUser(tag: string) returns (r: CallResult)
      modifies this`users, this`failures
      ensures failures == old(failures) + if r == Failed then 1 else 0
      ensures r == Done ==> tag in old(users) && users == old(users) - {tag}
      ensures r == Missing ==> tag !in old(users) && users == old(users)
      ensures r == Failed ==> users == old(users) || users == old(users) - {tag}
      ensures r != AlreadyExists
    {
      if * {
        if * { users := users - {tag}; }
        failures := failures + 1;
        return Failed;
      }
      if tag !in users { return Missing; }
      users := users - {tag};
      return Done;
    }
  }

  method ListCounters(counters: map<string, nat>) returns (stats: seq<StatEntry>)
    ensures Enumerates(stats, counters)
  {
    stats := [];
    var left := counters.Keys;
    while left != {}
      invariant left <= counters.Keys
      invariant forall i, j :: 0 <= i < j < |stats| ==> stats[i].name != stats[j].name
      invariant forall i :: 0 <= i < |stats| ==> stats[i].name in counters && stats[i].name !in left && counters[stats[i].name] == stats[i].value
      invariant forall name :: name in counters && name !in left ==> exists i :: 0 <= i < |stats| && stats[i].name == name
    {
      var name :| name in left;
      ghost var before := stats;
      stats := stats + [StatEntry(name, counters[name])];
      forall x | x in counters && x !in left - {name} ensures exists i :: 0 <= i < |stats| && stats[i].name == x {
        if x == name {
          assert stats[|before|].name == x;
        } else {
          var i :| 0 <= i < |before| && before[i].name == x;
          assert stats[i].name == x;
        }
      }
      left := left - {name};
    }
  }
}
