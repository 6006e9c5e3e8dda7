/**
 The service on top of the peer table: filling it for every enabled client and rendering the
 configuration that WireGuard reads. The file is a sequence of lines.
 */
module WireguardService {

  import opened Basics
  import opened WireguardIp
  import opened WireguardPeers
  import Clients

  datatype Line =
    | Setting(text: string)
    | PeerHeader
    | PublicKey(key: nat)
    | AllowedIps(address: string)
    | Blank

  predicate UniqueIds(clients: seq<Clients.Client>) {
    forall i, j :: 0 <= i < j < |clients| ==> clients[i].id != clients[j].id
  }

  function IdsOf(clients: seq<Clients.Client>): set<ClientId> {
    set c | c in clients :: c.id
  }

  // ----- which peers a configuration has -----

  predicate Rendered(c: Clients.Client, now: int) {
    c.wireguardEnabled && Clients.RuntimeActive(c, now)
  }

  /** The peers of the rendered clients, in the order of the clients. */
  function ActivePeers(clients: seq<Clients.Client>, rows: seq<Peer>, now: int): seq<Peer> {
    if clients == [] then []
    else
      var n := |clients| - 1;
      ActivePeers(clients[..n], rows, now) + ActivePeer(clients[n], rows, now)
  }

  function ActivePeer(c: Clients.Client, rows: seq<Peer>, now: int): seq<Peer> {
    var p := FindPeer(rows, c.id);
    if p.Some? && Rendered(c, now) then [p.value] else []
  }

  function PeerLines(p: Peer): seq<Line> {
    [PeerHeader, PublicKey(p.publicKey), AllowedIps(p.assignedIpv4), Blank]
  }

  function ConfigLines(header: seq<Line>, peers: seq<Peer>): seq<Line> {
    if peers == [] then header else ConfigLines(header, peers[..|peers| - 1]) + PeerLines(peers[|peers| - 1])
  }

  /** One peer as a reader of the configuration sees it. */
  datatype Block = Block(key: nat, address: string)

  /** How far a reader has come in a block: a key counts only under the peer's heading, an address only under its key. */
  datatype Place = Outside | Begun | Keyed(key: nat)

  datatype Reading = Reading(blocks: seq<Block>, place: Place)

  function ReadLine(r: Reading, l: Line): Reading {
    match l
    case PeerHeader => r.(place := Begun)
    case PublicKey(key) => r.(place := if r.place.Begun? then Keyed(key) else Outside)
    case AllowedIps(address) =>
      if r.place.Keyed? then Reading.Reading(r.blocks + [Block(r.place.key, address)], Outside) else r
    case _ => r
  }

  function Read(lines: seq<Line>): Reading {
    if lines == [] then Reading.Reading([], Outside) else ReadLine(Read(lines[..|lines| - 1]), lines[|lines| - 1])
  }

  function BlockOf(p: Peer): Block {
    Block(p.publicKey, p.assignedIpv4)
  }

  function BlocksOf(peers: seq<Peer>): (blocks: seq<Block>)
    ensures |blocks| == |peers| && forall i :: 0 <= i < |peers| ==> blocks[i] == BlockOf(peers[i])
  {
    seq(|peers|, i requires 0 <= i < |peers| => BlockOf(peers[i]))
  }

  /** The lines before the first peer mention none. */
  predicate NoPeer(header: seq<Line>) {
    forall l :: l in header ==> !l.AllowedIps?
  }

  lemma ReadMore(lines: seq<Line>, l: Line)
    ensures Read(lines + [l]) == ReadLine(Read(lines), l)
  {
    assert (lines + [l])[..|lines|] == lines;
  }

  lemma {:induction false} ReadHeader(header: seq<Line>)
    requires NoPeer(header)
    ensures Read(header).blocks == []
  {
    if header != [] {
      var n := |header| - 1;
      ReadHeader(header[..n]);
      assert header[n] in header;
    }
  }

  lemma ReadPeer(lines: seq<Line>, p: Peer)
    ensures Read(lines + PeerLines(p)).blocks == Read(lines).blocks + [BlockOf(p)]
  {
    var a := lines + [PeerHeader];
    var b := a + [PublicKey(p.publicKey)];
    var c := b + [AllowedIps(p.assignedIpv4)];
    ReadMore(lines, PeerHeader);
    ReadMore(a, PublicKey(p.publicKey));
    ReadMore(b, AllowedIps(p.assignedIpv4));
    ReadMore(c, Blank);
    assert lines + PeerLines(p) == c + [Blank];
  }

  /** A reader gets every peer back, with its own key and address, in order. */
  lemma {:induction false} ReadConfig(header: seq<Line>, peers: seq<Peer>)
    requires NoPeer(header)
    ensures Read(ConfigLines(header, peers)).blocks == BlocksOf(peers)
  {
    if peers == [] {
      ReadHeader(header);
    } else {
      var n := |peers| - 1;
      ReadConfig(header, peers[..n]);
      ReadPeer(ConfigLines(header, peers[..n]), peers[n]);
      assert BlocksOf(peers) == BlocksOf(peers[..n]) + [BlockOf(peers[n])];
    }
  }

  ghost predicate PeerOfRendered(clients: seq<Clients.Client>, rows: seq<Peer>, now: int, p: Peer) {
    p in rows && exists c ::
      c in clients && c.id == p.clientId && c.wireguardEnabled && Clients.ResolveEffectiveStatus(c, 0, now) == Clients.ACTIVE
  }

  lemma RowOf(rows: seq<Peer>, p: Peer)
    requires Distinct(rows) && p in rows
    ensures FindPeer(rows, p.clientId) == Some(p)
  {
    var q := FindPeer(rows, p.clientId).value;
    var i :| 0 <= i < |rows| && rows[i] == p;
    var j :| 0 <= j < |rows| && rows[j] == q;
    assert !Apart(p, q);
  }

  lemma {:induction false} ActivePeersExactly(clients: seq<Clients.Client>, rows: seq<Peer>, now: int)
    requires Distinct(rows) && UniqueIds(clients)
    ensures forall p :: p in ActivePeers(clients, rows, now) <==> PeerOfRendered(clients, rows, now, p)
    ensures Distinct(ActivePeers(clients, rows, now))
  {
    if clients != [] {
      var n := |clients| - 1;
      var init := clients[..n];
      ActivePeersExactly(init, rows, now);
      assert clients == init + [clients[n]];
      forall p ensures p in ActivePeers(clients, rows, now) <==> PeerOfRendered(clients, rows, now, p) {
        if PeerOfRendered(clients, rows, now, p) {
          RowOf(rows, p);
        }
        if p in ActivePeer(clients[n], rows, now) {
          assert clients[n] in clients;
        }
      }
      LastIsApart(clients, rows, now, n, ActivePeers(init, rows, now));
    }
  }

  lemma LastIsApart(clients: seq<Clients.Client>, rows: seq<Peer>, now: int, n: nat, earlier: seq<Peer>)
    requires Distinct(rows) && UniqueIds(clients) && |clients| == n + 1 && Distinct(earlier)
    requires forall p :: p in earlier ==> PeerOfRendered(clients[..n], rows, now, p)
    ensures Distinct(earlier + ActivePeer(clients[n], rows, now))
  {
    var last := ActivePeer(clients[n], rows, now);
    if last != [] {
      forall i | 0 <= i < |earlier| ensures Apart(earlier[i], last[0]) {
        assert PeerOfRendered(clients[..n], rows, now, earlier[i]);
        RowsApart(rows, earlier[i], last[0]);
      }
    }
  }

  lemma RowsApart(rows: seq<Peer>, p: Peer, q: Peer)
    requires Distinct(rows) && p in rows && q in rows && p.clientId != q.clientId
    ensures Apart(p, q)
  {
    var i :| 0 <= i < |rows| && rows[i] == p;
    var j :| 0 <= j < |rows| && rows[j] == q;
  }

  ghost predicate BlockOfRendered(clients: seq<Clients.Client>, rows: seq<Peer>, now: int, b: Block) {
    exists p: Peer :: BlockOf(p) == b && PeerOfRendered(clients, rows, now, p)
  }

  lemma BlocksExactly(peers: seq<Peer>, clients: seq<Clients.Client>, rows: seq<Peer>, now: int)
    requires forall p :: p in peers <==> PeerOfRendered(clients, rows, now, p)
    ensures forall b :: b in BlocksOf(peers) <==> BlockOfRendered(clients, rows, now, b)
  {
    forall b ensures b in BlocksOf(peers) <==> BlockOfRendered(clients, rows, now, b) {
      if b in BlocksOf(peers) {
        var i :| 0 <= i < |peers| && BlocksOf(peers)[i] == b;
        assert PeerOfRendered(clients, rows, now, peers[i]);
      }
      if BlockOfRendered(clients, rows, now, b) {
        var p: Peer :| BlockOf(p) == b && PeerOfRendered(clients, rows, now, p);
        var i :| 0 <= i < |peers| && peers[i] == p;
        assert BlocksOf(peers)[i] == b;
      }
    }
  }

  predicate EachOnce(blocks: seq<Block>) {
    forall i, j :: 0 <= i < j < |blocks| ==> blocks[i].key != blocks[j].key && blocks[i].address != blocks[j].address
  }

  /** The file pairs the key and the address of exactly the enabled active clients' peers; no key and no address occurs twice. */
  lemma ConfigExactly(header: seq<Line>, clients: seq<Clients.Client>, rows: seq<Peer>, now: int)
    requires Distinct(rows) && UniqueIds(clients) && NoPeer(header)
    ensures var blocks := Read(ConfigLines(header, ActivePeers(clients, rows, now))).blocks;
      && (forall b :: b in blocks <==> BlockOfRendered(clients, rows, now, b))
      && EachOnce(blocks)
  {
    var peers := ActivePeers(clients, rows, now);
    ActivePeersExactly(clients, rows, now);
    ReadConfig(header, peers);
    BlocksExactly(peers, clients, rows, now);
    forall i, j | 0 <= i < j < |peers| ensures BlocksOf(peers)[i].key != BlocksOf(peers)[j].key
                                               && BlocksOf(peers)[i].address != BlocksOf(peers)[j].address {
      assert Apart(peers[i], peers[j]);
    }
  }

  // ----- filling the table -----

  datatype Table = Table(rows: seq<Peer>, nextKey: nat)

  /** One undisturbed call: the table after it and how the call ended. */
  function Ensured(alloc: Allocator, ids: set<ClientId>, t: Table, c: ClientId): (Table, Caller) {
    var existing := FindPeer(t.rows, c);
    if existing.Some? then (t.(nextKey := t.nextKey + 1), Done(existing))
    else if c !in ids then (t.(nextKey := t.nextKey + 1), Done(None))
    else Added(t, c, alloc(AddressesOf(t.rows)))
  }

  function Added(t: Table, c: ClientId, allocation: Allocation): (Table, Caller) {
    match allocation
    case Assigned(address) =>
      var p := Peer(c, address, t.nextKey);
      if Accepts(t.rows, p) then (Table(t.rows + [p], t.nextKey + 1), Done(Some(p)))
      else (t.(nextKey := t.nextKey + 1), Failed)
    case _ => (t.(nextKey := t.nextKey + 1), Failed)
  }

  /** It is the run of the protocol without anybody in between. */
  lemma EnsuredIsARun(alloc: Allocator, ids: set<ClientId>, t: Table, c: ClientId, after: World)
    requires after == Run(alloc, World(ids, t.rows, map[]), Alone(0, c, t.nextKey))
    ensures Ensured(alloc, ids, t, c) == (Table(after.rows, t.nextKey + 1), At(after, 0))
  {
    var w := World(ids, t.rows, map[]);
    AloneIsRun(alloc, w, 0, c, t.nextKey);
  }

  predicate Succeeded(c: Caller) {
    c.Done?
  }

  ghost predicate TableValid(t: Table, ids: set<ClientId>, hosts: iset<string>) {
    && WireguardPeers.Valid(World(ids, t.rows, map[]), hosts)
    && forall r :: r in t.rows ==> r.publicKey < t.nextKey
  }

  lemma EnsuredIs(alloc: Allocator, ids: set<ClientId>, t: Table, hosts: iset<string>, c: ClientId)
    requires TableValid(t, ids, hosts) && Sound(alloc, hosts)
    ensures var (after, outcome) := Ensured(alloc, ids, t, c);
      && TableValid(after, ids, hosts)
      && (forall r :: r in t.rows ==> r in after.rows)
      && (c in ids && Succeeded(outcome) ==> FindPeer(after.rows, c).Some?)
      && (!Succeeded(outcome) ==> forall h :: h in hosts ==> h in AddressesOf(t.rows))
  {
    var w := World(ids, t.rows, map[]);
    var after := Run(alloc, w, Alone(0, c, t.nextKey));
    EnsuredIsARun(alloc, ids, t, c, after);
    AloneIsRun(alloc, w, 0, c, t.nextKey);
    RetrySucceedsExactly(alloc, hosts, w, 0, c, t.nextKey, after);
    RunKeepsValid(alloc, hosts, w, Alone(0, c, t.nextKey));
  }

  /** Every client of a list, in order; the first failure ends the work. */
  function EnsuredAll(alloc: Allocator, ids: set<ClientId>, t: Table, queue: seq<ClientId>): (Table, bool)
    decreases |queue|
  {
    if queue == [] then (t, true)
    else
      var (after, outcome) := Ensured(alloc, ids, t, queue[0]);
      if Succeeded(outcome) then EnsuredAll(alloc, ids, after, queue[1..]) else (after, false)
  }

  /** Nothing is lost or changed; without a failure everybody on the list has a peer, and a failure means that the hosts ran out. */
  lemma {:induction false} EnsuredAllServes(alloc: Allocator, ids: set<ClientId>, t: Table, hosts: iset<string>, queue: seq<ClientId>)
    requires TableValid(t, ids, hosts) && Sound(alloc, hosts)
    ensures var (after, ok) := EnsuredAll(alloc, ids, t, queue);
      && TableValid(after, ids, hosts)
      && (forall r :: r in t.rows ==> r in after.rows)
      && (ok ==> forall c :: c in queue && c in ids ==> FindPeer(after.rows, c).Some?)
      && (!ok ==> forall h :: h in hosts ==> h in AddressesOf(after.rows))
    decreases |queue|
  {
    if queue != [] {
      var (after, outcome) := Ensured(alloc, ids, t, queue[0]);
      EnsuredIs(alloc, ids, t, hosts, queue[0]);
      if Succeeded(outcome) {
        EnsuredAllServes(alloc, ids, after, hosts, queue[1..]);
        var end := EnsuredAll(alloc, ids, after, queue[1..]).0;
        if queue[0] in ids {
          assert FindPeer(after.rows, queue[0]).value in end.rows;
        }
      } else {
        StillAssigned(t.rows, after.rows, hosts);
      }
    }
  }

  lemma StillAssigned(rows: seq<Peer>, more: seq<Peer>, hosts: iset<string>)
    requires forall r :: r in rows ==> r in more
    requires forall h :: h in hosts ==> h in AddressesOf(rows)
    ensures forall h :: h in hosts ==> h in AddressesOf(more)
  {
    forall h | h in hosts ensures h in AddressesOf(more) {
      assert h in AddressesOf(rows);
      var i :| 0 <= i < |rows| && AddressesOf(rows)[i] == h;
      assert rows[i] in rows;
      var j :| 0 <= j < |more| && more[j] == rows[i];
      assert AddressesOf(more)[j] == h;
    }
  }

  /** The enabled clients without a peer, in order. */
  function Unserved(clients: seq<Clients.Client>, rows: seq<Peer>): seq<ClientId> {
    if clients == [] then []
    else
      var c := clients[0];
      (if c.wireguardEnabled && FindPeer(rows, c.id).None? then [c.id] else []) + Unserved(clients[1..], rows)
  }

  class Service {
    const serverAddressCidr: string
    const header: seq<Line>
    var clients: seq<Clients.Client>
    var rows: seq<Peer>
    var nextKey: nat
    var config: seq<Line>
    var lastConfigSyncAt: Option<int>

    constructor (serverAddressCidr: string, header: seq<Line>)
      ensures clients == [] && rows == [] && config == [] && lastConfigSyncAt == None
    {
      this.serverAddressCidr := serverAddressCidr;
      this.header := header;
      clients, rows, nextKey, config, lastConfigSyncAt := [], [], 0, [], None;
    }

    function Alloc(): Allocator {
      used => Allocated(serverAddressCidr, used)
    }

    ghost function Contents(): Table
      reads this
    {
      Table(rows, nextKey)
    }

    method EnsurePeerForClientId(clientId: ClientId) returns (outcome: Caller)
      modifies this`rows, this`nextKey
      ensures (Contents(), outcome) == Ensured(Alloc(), IdsOf(clients), old(Contents()), clientId)
    {
      var existing := FindPeer(rows, clientId);
      if existing.Some? {
        nextKey := nextKey + 1;
        return Done(existing);
      }
      if clientId !in IdsOf(clients) {
        nextKey := nextKey + 1;
        return Done(None);
      }
      var allocation := Allocate(AddressesOf(rows));
      outcome := InsertPeer(clientId, allocation);
    }

    method Allocate(usedAddresses: seq<string>) returns (r: Allocation)
      ensures r == Alloc()(usedAddresses)
    {
      r := AllocateWireguardPeerIpv4(serverAddressCidr, usedAddresses);
    }

    /** The insert fails where a unique index rejects the row. */
    method InsertPeer(clientId: ClientId, allocation: Allocation) returns (outcome: Caller)
      modifies this`rows, this`nextKey
      ensures (Contents(), outcome) == Added(old(Contents()), clientId, allocation)
    {
      var key := nextKey;
      nextKey := nextKey + 1;
      if !allocation.Assigned? {
        return Failed;
      }
      var peer := Peer(clientId, allocation.address, key);
      if !Accepts(rows, peer) {
        return Failed;
      }
      rows := rows + [peer];
      return Done(Some(peer));
    }

    method EnsurePeersForClientIds(queue: seq<ClientId>) returns (ok: bool)
      modifies this`rows, this`nextKey
      ensures (Contents(), ok) == EnsuredAll(Alloc(), IdsOf(clients), old(Contents()), queue)
    {
      var i := 0;
      while i < |queue|
        invariant 0 <= i <= |queue|
        invariant EnsuredAll(Alloc(), IdsOf(clients), old(Contents()), queue)
               == EnsuredAll(Alloc(), IdsOf(clients), Contents(), queue[i..])
      {
        var outcome := EnsurePeerForClientId(queue[i]);
        assert queue[i..][1..] == queue[i + 1..];
        if !Succeeded(outcome) {
          return false;
        }
        i := i + 1;
      }
      return true;
    }

    method BuildServerConfig(peers: seq<Peer>) returns (lines: seq<Line>)
      ensures lines == ConfigLines(header, peers)
    {
      lines := header;
      for i := 0 to |peers|
        invariant lines == ConfigLines(header, peers[..i])
      {
        assert peers[..i + 1][..i] == peers[..i];
        lines := lines + [PeerHeader];
        lines := lines + [PublicKey(peers[i].publicKey)];
        lines := lines + [AllowedIps(peers[i].assignedIpv4)];
        lines := lines + [Blank];
      }
      assert peers[..|peers|] == peers;
    }

    method FindActivePeers(now: int) returns (peers: seq<Peer>)
      ensures peers == ActivePeers(clients, rows, now)
    {
      peers := [];
      for i := 0 to |clients|
        invariant peers == ActivePeers(clients[..i], rows, now)
      {
        assert clients[..i + 1][..i] == clients[..i];
        peers := peers + ActivePeer(clients[i], rows, now);
      }
      assert clients[..|clients|] == clients;
    }

    /** `false` where a client without a peer gets none: the old configuration stays. */
    method PerformRenderConfig(now: int) returns (ok: bool)
      modifies this
      ensures clients == old(clients)
      ensures (Contents(), ok) == EnsuredAll(Alloc(), IdsOf(clients), old(Contents()), Unserved(clients, old(rows)))
      ensures config == if ok then ConfigLines(header, ActivePeers(clients, rows, now)) else old(config)
      ensures lastConfigSyncAt == if ok then Some(now) else old(lastConfigSyncAt)
    {
      ok := EnsurePeersForClientIds(Unserved(clients, rows));
      if ok {
        var activePeers := FindActivePeers(now);
        config := BuildServerConfig(activePeers);
        lastConfigSyncAt := Some(now);
      }
    }
  }

  /** A rendering that succeeds lists exactly the enabled active clients' peers, each with its own key and address; every
      enabled client has a peer, no key and no address occurs twice, and no address is the server's. */
  lemma RenderingExactly(alloc: Allocator, header: seq<Line>, clients: seq<Clients.Client>, t: Table, hosts: iset<string>, now: int)
    requires TableValid(t, IdsOf(clients), hosts) && Sound(alloc, hosts) && UniqueIds(clients) && NoPeer(header)
    ensures var (after, ok) := EnsuredAll(alloc, IdsOf(clients), t, Unserved(clients, t.rows));
      ok ==> ListsExactly(Read(ConfigLines(header, ActivePeers(clients, after.rows, now))).blocks, clients, after.rows, hosts, now)
  {
    EnsuredAllServes(alloc, IdsOf(clients), t, hosts, Unserved(clients, t.rows));
    var (after, ok) := EnsuredAll(alloc, IdsOf(clients), t, Unserved(clients, t.rows));
    ConfigExactly(header, clients, after.rows, now);
    forall p: Peer | PeerOfRendered(clients, after.rows, now, p) ensures p.assignedIpv4 in hosts {
      HostRow(after.rows, hosts, p);
    }
    if ok {
      forall c | c in clients && c.wireguardEnabled ensures FindPeer(after.rows, c.id).Some? {
        UnservedExactly(clients, t.rows, c);
        if FindPeer(t.rows, c.id).Some? {
          assert FindPeer(t.rows, c.id).value in after.rows;
        }
      }
    }
  }

  ghost predicate ListsExactly(blocks: seq<Block>, clients: seq<Clients.Client>, rows: seq<Peer>, hosts: iset<string>, now: int) {
    && (forall c :: c in clients && c.wireguardEnabled ==> FindPeer(rows, c.id).Some?)
    && (forall b :: b in blocks <==> BlockOfRendered(clients, rows, now, b))
    && (forall b :: b in blocks ==> b.address in hosts)
    && EachOnce(blocks)
  }

  lemma {:induction false} UnservedExactly(clients: seq<Clients.Client>, rows: seq<Peer>, c: Clients.Client)
    requires c in clients && c.wireguardEnabled
    ensures c.id in Unserved(clients, rows) || FindPeer(rows, c.id).Some?
  {
    if clients[0] != c {
      UnservedExactly(clients[1..], rows, c);
    }
  }
}
