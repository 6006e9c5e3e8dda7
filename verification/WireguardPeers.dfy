/**
 The WireGuard peer table while several callers fill it. Each caller looks for a peer, reads the
 addresses in use, allocates one and inserts a row; other callers and client deletions may come
 between any two of these steps. Only the unique indexes of the table hold it together.
 */
module WireguardPeers {

  import opened Basics
  import opened JsInt32
  import opened WireguardIp
  import Decimals
  import IpProofs = WireguardIpProofs

  type ClientId = string

  datatype Peer = Peer(clientId: ClientId, assignedIpv4: string, publicKey: nat)

  /** How far a caller of `ensurePeerForClientId` has come. */
  datatype Caller =
    | Idle
    | Looking(clientId: ClientId)
    | Reading(clientId: ClientId)
    | Inserting(clientId: ClientId, seen: seq<string>)
    | Done(peer: Option<Peer>)
    | Failed

  datatype World = World(clients: set<ClientId>, rows: seq<Peer>, callers: map<nat, Caller>)

  datatype Step =
    | Start(who: nat, clientId: ClientId)
    | Look(who: nat)
    | Read(who: nat)
    | Insert(who: nat, key: nat)
    | CreateClient(id: ClientId)
    | DeleteClient(id: ClientId)

  /** Any allocator; the one of the service is `Allocated` for its configured subnet. */
  type Allocator = seq<string> -> Allocation

  // ----- the table -----

  /** The three unique indexes. */
  predicate Apart(p: Peer, q: Peer) {
    p.clientId != q.clientId && p.assignedIpv4 != q.assignedIpv4 && p.publicKey != q.publicKey
  }

  predicate Distinct(rows: seq<Peer>) {
    forall i, j :: 0 <= i < j < |rows| ==> Apart(rows[i], rows[j])
  }

  function FindPeer(rows: seq<Peer>, c: ClientId): (p: Option<Peer>)
    ensures p.Some? ==> p.value in rows && p.value.clientId == c
    ensures p.None? ==> forall r :: r in rows ==> r.clientId != c
  {
    if rows == [] then None
    else if rows[0].clientId == c then Some(rows[0])
    else FindPeer(rows[1..], c)
  }

  function AddressesOf(rows: seq<Peer>): (s: seq<string>)
    ensures |s| == |rows| && forall i :: 0 <= i < |s| ==> s[i] == rows[i].assignedIpv4
  {
    seq(|rows|, i requires 0 <= i < |rows| => rows[i].assignedIpv4)
  }

  predicate Accepts(rows: seq<Peer>, p: Peer) {
    forall i :: 0 <= i < |rows| ==> Apart(rows[i], p)
  }

  /** The rows left after the cascade of a client's deletion. */
  function Without(rows: seq<Peer>, c: ClientId): (left: seq<Peer>)
    ensures forall r :: r in left <==> r in rows && r.clientId != c
  {
    if rows == [] then []
    else
      var n := |rows| - 1;
      assert rows == rows[..n] + [rows[n]];
      Without(rows[..n], c) + if rows[n].clientId == c then [] else [rows[n]]
  }

  lemma {:induction false} WithoutDistinct(rows: seq<Peer>, c: ClientId)
    requires Distinct(rows)
    ensures Distinct(Without(rows, c))
  {
    if rows != [] {
      var n := |rows| - 1;
      WithoutDistinct(rows[..n], c);
      var left := Without(rows[..n], c);
      forall i | 0 <= i < |left| ensures Apart(left[i], rows[n]) {
        assert left[i] in rows[..n];
      }
    }
  }

  // ----- steps -----

  function At(w: World, who: nat): Caller {
    if who in w.callers then w.callers[who] else Idle
  }

  function Moved(w: World, who: nat, to: Caller): World {
    w.(callers := w.callers[who := to])
  }

  function Inserted(alloc: Allocator, w: World, who: nat, c: ClientId, seen: seq<string>, key: nat): World {
    match alloc(seen)
    case Assigned(address) =>
      var p := Peer(c, address, key);
      if c in w.clients && Accepts(w.rows, p) then Moved(w, who, Done(Some(p))).(rows := w.rows + [p])
      else Moved(w, who, Failed)
    case _ => Moved(w, who, Failed)
  }

  function Next(alloc: Allocator, w: World, s: Step): World {
    match s
    case Start(who, c) => Moved(w, who, Looking(c))
    case Look(who) =>
      (match At(w, who)
       case Looking(c) =>
         var existing := FindPeer(w.rows, c);
         Moved(w, who, if existing.Some? then Done(existing) else Reading(c))
       case _ => w)
    case Read(who) =>
      (match At(w, who)
       case Reading(c) => Moved(w, who, if c in w.clients then Inserting(c, AddressesOf(w.rows)) else Done(None))
       case _ => w)
    case Insert(who, key) =>
      (match At(w, who)
       case Inserting(c, seen) => Inserted(alloc, w, who, c, seen, key)
       case _ => w)
    case CreateClient(id) => w.(clients := w.clients + {id})
    case DeleteClient(id) => w.(clients := w.clients - {id}, rows := Without(w.rows, id))
  }

  function Run(alloc: Allocator, w: World, steps: seq<Step>): World
    decreases |steps|
  {
    if steps == [] then w else Run(alloc, Next(alloc, w, steps[0]), steps[1..])
  }

  // ----- what an allocator owes -----

  ghost predicate AllIn(addresses: seq<string>, hosts: iset<string>) {
    forall a :: a in addresses ==> a in hosts
  }

  /** A host that is not in the list, or none when the list has them all. */
  ghost predicate Fits(r: Allocation, seen: seq<string>, hosts: iset<string>) {
    match r
    case Assigned(a) => a in hosts && a !in seen
    case NoneLeft => forall h :: h in hosts ==> h in seen
    case _ => false
  }

  ghost predicate Sound(alloc: Allocator, hosts: iset<string>) {
    forall seen :: AllIn(seen, hosts) ==> Fits(alloc(seen), seen, hosts)
  }

  // ----- invariants -----

  ghost predicate Seen(c: Caller, hosts: iset<string>) {
    c.Inserting? ==> AllIn(c.seen, hosts)
  }

  ghost predicate Valid(w: World, hosts: iset<string>) {
    && Distinct(w.rows)
    && AllIn(AddressesOf(w.rows), hosts)
    && (forall r :: r in w.rows ==> r.clientId in w.clients)
    && (forall who :: who in w.callers ==> Seen(w.callers[who], hosts))
  }

  lemma HostRow(rows: seq<Peer>, hosts: iset<string>, r: Peer)
    requires AllIn(AddressesOf(rows), hosts) && r in rows
    ensures r.assignedIpv4 in hosts
  {
    var i :| 0 <= i < |rows| && rows[i] == r;
    assert AddressesOf(rows)[i] in AddressesOf(rows);
  }

  lemma HostRows(rows: seq<Peer>, hosts: iset<string>)
    requires forall r :: r in rows ==> r.assignedIpv4 in hosts
    ensures AllIn(AddressesOf(rows), hosts)
  {
  }

  lemma DeleteKeepsValid(alloc: Allocator, hosts: iset<string>, w: World, id: ClientId)
    requires Valid(w, hosts)
    ensures Valid(Next(alloc, w, DeleteClient(id)), hosts)
  {
    WithoutDistinct(w.rows, id);
    forall r | r in Without(w.rows, id) ensures r.assignedIpv4 in hosts {
      HostRow(w.rows, hosts, r);
    }
    HostRows(Without(w.rows, id), hosts);
  }

  /** In every interleaving, rejected inserts included: one peer a client, addresses pairwise distinct hosts. */
  lemma NextKeepsValid(alloc: Allocator, hosts: iset<string>, w: World, s: Step)
    requires Valid(w, hosts) && Sound(alloc, hosts)
    ensures Valid(Next(alloc, w, s), hosts)
  {
    match s
    case DeleteClient(id) => DeleteKeepsValid(alloc, hosts, w, id);
    case _ =>
  }

  lemma {:induction false} RunKeepsValid(alloc: Allocator, hosts: iset<string>, w: World, steps: seq<Step>)
    requires Valid(w, hosts) && Sound(alloc, hosts)
    ensures Valid(Run(alloc, w, steps), hosts)
    decreases |steps|
  {
    if steps != [] {
      NextKeepsValid(alloc, hosts, w, steps[0]);
      RunKeepsValid(alloc, hosts, Next(alloc, w, steps[0]), steps[1..]);
    }
  }

  /** An assignment once made stays as it is for as long as its client exists. */
  lemma {:induction false} AssignmentStays(alloc: Allocator, w: World, steps: seq<Step>, r: Peer)
    requires r in w.rows && DeleteClient(r.clientId) !in steps
    ensures r in Run(alloc, w, steps).rows
    decreases |steps|
  {
    if steps != [] {
      assert steps[0] in steps;
      AssignmentStays(alloc, Next(alloc, w, steps[0]), steps[1..], r);
    }
  }

  /** Two rows of one client, or with one address, are one row. */
  lemma OnePeerEach(hosts: iset<string>, w: World, p: Peer, q: Peer)
    requires Valid(w, hosts) && p in w.rows && q in w.rows
    requires p.clientId == q.clientId || p.assignedIpv4 == q.assignedIpv4
    ensures p == q
  {
    var i :| 0 <= i < |w.rows| && w.rows[i] == p;
    var j :| 0 <= j < |w.rows| && w.rows[j] == q;
    assert !Apart(p, q);
  }

  // ----- losing and retrying -----

  predicate FreshKey(w: World, key: nat) {
    forall i :: 0 <= i < |w.rows| ==> w.rows[i].publicKey != key
  }

  /** Somebody else's row stands in the way. */
  ghost predicate Beaten(alloc: Allocator, w: World, c: ClientId, seen: seq<string>, r: Peer) {
    r in w.rows && (r.clientId == c || alloc(seen) == Assigned(r.assignedIpv4))
  }

  /** An insert fails exactly when the client is gone, no host was left to read, or another caller's row came first; a
      row that took the address was not there when this caller read. */
  lemma InsertFailsExactly(alloc: Allocator, hosts: iset<string>, w: World, who: nat, key: nat)
    requires Valid(w, hosts) && Sound(alloc, hosts) && At(w, who).Inserting? && FreshKey(w, key)
    ensures var c, seen := At(w, who).clientId, At(w, who).seen;
      && (At(Next(alloc, w, Insert(who, key)), who).Failed? <==>
          c !in w.clients || alloc(seen) == NoneLeft || exists r :: Beaten(alloc, w, c, seen, r))
      && (forall r :: Beaten(alloc, w, c, seen, r) && r.clientId != c ==> r.assignedIpv4 !in seen)
  {
    var c, seen := At(w, who).clientId, At(w, who).seen;
    assert AllIn(seen, hosts);
    assert Fits(alloc(seen), seen, hosts);
    if alloc(seen).Assigned? {
      var p := Peer(c, alloc(seen).address, key);
      if !Accepts(w.rows, p) {
        var i :| 0 <= i < |w.rows| && !Apart(w.rows[i], p);
        assert Beaten(alloc, w, c, seen, w.rows[i]);
      } else {
        AcceptsAll(w.rows, p);
      }
    }
  }

  lemma AcceptsAll(rows: seq<Peer>, p: Peer)
    requires Accepts(rows, p)
    ensures forall r :: r in rows ==> Apart(r, p)
  {
  }

  ghost predicate HostFree(w: World, hosts: iset<string>) {
    exists h :: h in hosts && h !in AddressesOf(w.rows)
  }

  function Alone(who: nat, c: ClientId, key: nat): seq<Step> {
    [Start(who, c), Look(who), Read(who), Insert(who, key)]
  }

  function RunAlone(alloc: Allocator, w: World, who: nat, c: ClientId, key: nat): World {
    var w1 := Next(alloc, w, Start(who, c));
    var w2 := Next(alloc, w1, Look(who));
    var w3 := Next(alloc, w2, Read(who));
    Next(alloc, w3, Insert(who, key))
  }

  lemma AloneIsRun(alloc: Allocator, w: World, who: nat, c: ClientId, key: nat)
    ensures Run(alloc, w, Alone(who, c, key)) == RunAlone(alloc, w, who, c, key)
  {
    var w1 := Next(alloc, w, Start(who, c));
    var w2 := Next(alloc, w1, Look(who));
    var w3 := Next(alloc, w2, Read(who));
    RunOne(alloc, w, Start(who, c), [Look(who), Read(who), Insert(who, key)]);
    RunOne(alloc, w1, Look(who), [Read(who), Insert(who, key)]);
    RunOne(alloc, w2, Read(who), [Insert(who, key)]);
    RunOne(alloc, w3, Insert(who, key), []);
    assert [Start(who, c)] + [Look(who), Read(who), Insert(who, key)] == Alone(who, c, key);
    assert [Look(who)] + [Read(who), Insert(who, key)] == [Look(who), Read(who), Insert(who, key)];
    assert [Read(who)] + [Insert(who, key)] == [Read(who), Insert(who, key)];
    assert [Insert(who, key)] + [] == [Insert(who, key)];
  }

  lemma RunOne(alloc: Allocator, w: World, s: Step, rest: seq<Step>)
    ensures Run(alloc, w, [s] + rest) == Run(alloc, Next(alloc, w, s), rest)
  {
    assert ([s] + rest)[1..] == rest;
  }

  /** A caller that is not disturbed, for instance a loser that tries again, ends with the client's peer exactly when the
      client has one or exists and some host is free. */
  lemma RetrySucceedsExactly(alloc: Allocator, hosts: iset<string>, w: World, who: nat, c: ClientId, key: nat, after: World)
    requires Valid(w, hosts) && Sound(alloc, hosts) && FreshKey(w, key)
    requires after == RunAlone(alloc, w, who, c, key)
    ensures HasPeer(At(after, who)) <==> FindPeer(w.rows, c).Some? || (c in w.clients && HostFree(w, hosts))
    ensures HasPeer(At(after, who)) ==> At(after, who).peer.value in after.rows && At(after, who).peer.value.clientId == c
    ensures !HasPeer(At(after, who)) ==> after.rows == w.rows
  {
    if FindPeer(w.rows, c).None? && c in w.clients {
      var seen := AddressesOf(w.rows);
      assert Fits(alloc(seen), seen, hosts);
      if alloc(seen).Assigned? {
        NewRowFits(w, c, alloc(seen).address, key);
        assert HostFree(w, hosts);
      }
    }
  }

  predicate HasPeer(c: Caller) {
    c.Done? && c.peer.Some?
  }

  lemma NewRowFits(w: World, c: ClientId, address: string, key: nat)
    requires FindPeer(w.rows, c).None? && address !in AddressesOf(w.rows) && FreshKey(w, key)
    ensures Accepts(w.rows, Peer(c, address, key))
  {
    forall i | 0 <= i < |w.rows| ensures Apart(w.rows[i], Peer(c, address, key)) {
      assert w.rows[i] in w.rows && AddressesOf(w.rows)[i] in AddressesOf(w.rows);
    }
  }

  // ----- the allocator of the service -----

  /** The hosts of the configured subnet as the table writes them. */
  ghost function HostNames(server: nat, k: nat): iset<string> {
    iset x: nat | x < TWO_31 && IpProofs.IsHost(server, k, x) :: IntToIpv4(x)
  }

  lemma {:induction false} HostsAreAddresses(server: nat, k: nat, seen: seq<string>)
    requires AllIn(seen, HostNames(server, k))
    ensures Addresses(seen).Some?
    ensures forall x: nat :: x < TWO_31 ==> (x as int in Addresses(seen).value <==> IntToIpv4(x) in seen)
  {
    if seen != [] {
      var n := |seen| - 1;
      assert seen == seen[..n] + [seen[n]];
      assert seen[n] in seen;
      HostsAreAddresses(server, k, seen[..n]);
      var y: nat :| y < TWO_31 && seen[n] == IntToIpv4(y);
      IpProofs.PrintedCounts(seen[..n], y);
      forall x: nat | x < TWO_31 ensures x as int in Addresses(seen).value <==> IntToIpv4(x) in seen {
        if IntToIpv4(x) == IntToIpv4(y) {
          IpProofs.PrintInjective(x, y);
        }
      }
    }
  }

  /** Below 128.0.0.0 the service's allocator does what the peer table needs. */
  lemma ServiceAllocatorSound(serverAddressCidr: string, server: nat, cidr: nat, k: nat, n: Network)
    requires server < TWO_31 && 1 <= cidr <= 32 && cidr + k == 32
    requires n == NetworkOf(server, cidr) && ParseWireguardNetwork(serverAddressCidr) == Some(n)
    ensures Sound(used => Allocated(serverAddressCidr, used), HostNames(server, k))
  {
    forall seen | AllIn(seen, HostNames(server, k))
      ensures Fits(Allocated(serverAddressCidr, seen), seen, HostNames(server, k))
    {
      AllocatedFits(serverAddressCidr, server, cidr, k, n, seen);
    }
  }

  /** So for every server below 128.0.0.0 and every prefix there is a configuration with which it does. */
  lemma SoundConfigurationExists(server: nat, cidr: nat, k: nat) returns (serverAddressCidr: string)
    requires server < TWO_31 && 1 <= cidr <= 32 && cidr + k == 32
    ensures Sound(used => Allocated(serverAddressCidr, used), HostNames(server, k))
  {
    serverAddressCidr := IntToIpv4(server) + "/" + Decimals.Print(cidr);
    IpProofs.NetworkRoundTrip(server, cidr);
    ServiceAllocatorSound(serverAddressCidr, server, cidr, k, NetworkOf(server, cidr));
  }

  lemma AllocatedFits(serverAddressCidr: string, server: nat, cidr: nat, k: nat, n: Network, seen: seq<string>)
    requires server < TWO_31 && 1 <= cidr <= 32 && cidr + k == 32
    requires n == NetworkOf(server, cidr) && ParseWireguardNetwork(serverAddressCidr) == Some(n)
    requires AllIn(seen, HostNames(server, k))
    ensures Fits(Allocated(serverAddressCidr, seen), seen, HostNames(server, k))
  {
    HostsAreAddresses(server, k, seen);
    IpProofs.AllocatesLowest(server, cidr, k, Addresses(seen).value, n);
  }

  /** No peer ever gets the server's own address. */
  lemma ServerIsNoHost(server: nat, k: nat)
    requires server < TWO_32
    ensures IntToIpv4(server) !in HostNames(server, k)
  {
    if IntToIpv4(server) in HostNames(server, k) {
      var x: nat :| x < TWO_31 && IpProofs.IsHost(server, k, x) && IntToIpv4(x) == IntToIpv4(server);
      IpProofs.PrintInjective(x, server);
    }
  }
}
