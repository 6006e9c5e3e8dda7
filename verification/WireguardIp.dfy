/**
 Address arithmetic of the WireGuard subnet. JavaScript's `&` and `|` answer with signed 32-bit
 numbers while the addresses themselves are unsigned, which decides where the allocator works.
 */
module WireguardIp {

  import opened Basics
  import opened JsStrings
  import opened JsInt32
  import Decimals

  datatype Network = Network(networkAddress: int, broadcastAddress: int, cidr: nat, serverAddress: nat)

  /** An address, or one of the three errors that the allocator throws. */
  datatype Allocation = Assigned(address: string) | InvalidNetwork | InvalidAddress | NoneLeft

  // ----- parsing and printing -----

  /** `Number` on plain decimal integers; the empty string is 0. */
  function JsInteger(s: string): Option<int> {
    var t := Trim(s);
    if t == "" then Some(0)
    else if (t[0] == '-' || t[0] == '+') && |t| > 1 && Decimals.AllDigits(t[1..])
    then Some(Signed(t[0] == '-', Decimals.Read(t[1..])))
    else if Decimals.AllDigits(t) then Some(Decimals.Read(t))
    else None
  }

  function Signed(negative: bool, n: int): int {
    if negative then -n else n
  }

  function Within(n: Option<int>, limit: nat): Option<nat> {
    if n.Some? && 0 <= n.value <= limit then Some(n.value) else None
  }

  function Octet(part: string): Option<nat> {
    Within(JsInteger(part), 255)
  }

  function FromOctets(a: nat, b: nat, c: nat, d: nat): (u: nat)
    ensures u < TWO_32
  {
    ToUint32(ToUint32(Shl(a, 24)) + ToUint32(Shl(b, 16)) + ToUint32(Shl(c, 8)) + ToUint32(d))
  }

  function Ipv4ToInt(value: string): Option<nat> {
    var parts := SplitOn(value, '.');
    if |parts| != 4 then None
    else
      var a, b, c, d := Octet(parts[0]), Octet(parts[1]), Octet(parts[2]), Octet(parts[3]);
      if a.None? || b.None? || c.None? || d.None? then None
      else Some(FromOctets(a.value, b.value, c.value, d.value))
  }

  function OctetAt(value: int, k: nat): nat
    requires k < 32
  {
    OctetRange(value, k);
    And(ShrU(value, k), 255)
  }

  function IntToIpv4(value: int): string {
    Dotted(OctetAt(value, 24), OctetAt(value, 16), OctetAt(value, 8), OctetAt(value, 0))
  }

  function Dotted(a: nat, b: nat, c: nat, d: nat): string {
    Decimals.Print(a) + "." + (Decimals.Print(b) + "." + (Decimals.Print(c) + "." + Decimals.Print(d)))
  }

  function MaskOf(cidr: nat): nat
    requires cidr <= 32
  {
    if cidr == 0 then 0 else ToUint32(Shl(0xffff_ffff, 32 - cidr))
  }

  function NetworkOf(server: nat, cidr: nat): Network
    requires cidr <= 32
  {
    var mask := MaskOf(cidr);
    var networkAddress := And(server, mask);
    Network(networkAddress, Or(networkAddress, ToUint32(Not(mask))), cidr, server)
  }

  function ParseWireguardNetwork(serverAddressCidr: string): Option<Network> {
    var parts := SplitOn(serverAddressCidr, '/');
    var cidr := if |parts| > 1 then Within(JsInteger(parts[1]), 32) else None;
    if parts[0] == "" || cidr.None? then None
    else
      match Ipv4ToInt(parts[0])
      case None => None
      case Some(server) => Some(NetworkOf(server, cidr.value))
  }

  // ----- allocation -----

  /** The addresses in use; blank entries do not count. */
  function Addresses(used: seq<string>): Option<set<int>> {
    if used == [] then Some({})
    else
      var rest := Addresses(used[..|used| - 1]);
      var value := Trim(used[|used| - 1]);
      if rest.None? || value == "" then rest
      else
        match Ipv4ToInt(value)
        case None => None
        case Some(address) => Some(rest.value + {address})
  }

  function FirstFree(from: int, to: int, taken: set<int>): Option<int>
    decreases Max(0, to - from)
  {
    if from >= to then None
    else if from in taken then FirstFree(from + 1, to, taken)
    else Some(from)
  }

  function Allocated(serverAddressCidr: string, usedAddresses: seq<string>): Allocation {
    match ParseWireguardNetwork(serverAddressCidr)
    case None => InvalidNetwork
    case Some(n) =>
      match Addresses(usedAddresses)
      case None => InvalidAddress
      case Some(used) =>
        match Candidate(n, used)
        case None => NoneLeft
        case Some(candidate) => Assigned(IntToIpv4(candidate))
  }

  function Candidate(n: Network, used: set<int>): Option<int> {
    FirstFree(n.networkAddress + 1, n.broadcastAddress, used + {n.serverAddress})
  }

  method AllocateWireguardPeerIpv4(serverAddressCidr: string, usedAddresses: seq<string>) returns (r: Allocation)
    ensures r == Allocated(serverAddressCidr, usedAddresses)
  {
    var parsed := ParseWireguardNetwork(serverAddressCidr);
    if parsed.None? {
      return InvalidNetwork;
    }
    var used := CollectAddresses(usedAddresses);
    if used.None? {
      return InvalidAddress;
    }
    var n := parsed.value;
    var candidate := LowestFree(n.networkAddress + 1, n.broadcastAddress, n.serverAddress, used.value);
    return if candidate.None? then NoneLeft else Assigned(IntToIpv4(candidate.value));
  }

  method LowestFree(from: int, to: int, serverAddress: int, used: set<int>) returns (r: Option<int>)
    ensures r == FirstFree(from, to, used + {serverAddress})
  {
    var candidate := from;
    while candidate < to
      invariant FirstFree(candidate, to, used + {serverAddress}) == FirstFree(from, to, used + {serverAddress})
    {
      if candidate != serverAddress && candidate !in used {
        return Some(candidate);
      }
      candidate := candidate + 1;
    }
    return None;
  }

  method CollectAddresses(usedAddresses: seq<string>) returns (used: Option<set<int>>)
    ensures used == Addresses(usedAddresses)
  {
    used := Some({});
    for i := 0 to |usedAddresses|
      invariant used == Addresses(usedAddresses[..i])
    {
      assert usedAddresses[..i + 1][..i] == usedAddresses[..i];
      var value := Trim(usedAddresses[i]);
      if used.Some? && value != "" {
        var address := Ipv4ToInt(value);
        used := if address.None? then None else Some(used.value + {address.value});
      }
    }
    assert usedAddresses[..|usedAddresses|] == usedAddresses;
  }

  // ----- the bits of an address -----

  lemma OctetRange(value: int, k: nat)
    requires k < 32
    ensures And(ShrU(value, k), 255) == Low(Halved(ToUint32(value), k), 8)
    ensures 0 <= And(ShrU(value, k), 255) < 256
  {
    Shifted(value, k);
    ByteMask(ShrU(value, k));
  }

  lemma ByteMask(x: nat)
    requires x < TWO_32
    ensures And(x, 255) == Low(x, 8) < 256
  {
    Powers();
    Masked(x, 8);
  }

  lemma {:induction false} LowOfOnes(n: nat, k: nat)
    requires k <= n
    ensures Times(1, n) > 0 && Times(1, k) > 0 && Low(Times(1, n) - 1, k) == Times(1, k) - 1
  {
    TimesPositive(k, n);
    if k > 0 {
      LowOfOnes(n - 1, k - 1);
      assert (Times(1, n) - 1) / 2 == Times(1, n - 1) - 1;
    }
  }

  lemma MaskValue(cidr: nat, k: nat)
    requires 1 <= cidr <= 32 && cidr + k == 32
    ensures 0 < Times(1, k) < TWO_32 && MaskOf(cidr) == TWO_32 - Times(1, k)
  {
    WholeWord();
    ShlUnsigned(0xffff_ffff, k);
    LowOfOnes(32, cidr);
    TimesPositive(k, 31);
    OnesShifted(cidr, k);
    HalfWord();
  }

  lemma HalfWord()
    ensures Times(1, 31) == TWO_31
  {
    Powers();
  }

  lemma OnesShifted(cidr: nat, k: nat)
    requires cidr + k == 32 && Times(1, cidr) > 0
    ensures Times(Times(1, cidr) - 1, k) + Times(1, k) == TWO_32
  {
    WholeWord();
    TimesAdd(Times(1, cidr) - 1, 1, k);
    TimesTimes(1, cidr, k);
  }

  /** The first address of a block of 2^k addresses. */
  function BlockStart(server: nat, k: nat): nat {
    Times(Halved(server, k), k)
  }

  lemma NetworkBits(server: nat, cidr: nat, k: nat)
    requires server < TWO_32 && 1 <= cidr <= 32 && cidr + k == 32
    ensures NetworkOf(server, cidr).networkAddress == ToInt32(BlockStart(server, k))
    ensures BlockStart(server, k) <= server
  {
    MaskValue(cidr, k);
    WholeWord();
    AndHigh(server, k, 32);
    LowHigh(server, k);
    ModSmall(server);
    ModSmall(MaskOf(cidr));
  }

  lemma ComplementBits(cidr: nat, k: nat)
    requires 1 <= cidr <= 32 && cidr + k == 32
    ensures Times(1, k) > 0 && ToUint32(Not(MaskOf(cidr))) == Times(1, k) - 1
  {
    MaskValue(cidr, k);
    NotIs(MaskOf(cidr));
  }

  lemma NotIs(m: nat)
    requires m < TWO_32
    ensures ToUint32(Not(m)) == TWO_32 - 1 - m
  {
  }

  lemma BroadcastBits(server: nat, cidr: nat, k: nat)
    requires server < TWO_32 && 1 <= cidr <= 32 && cidr + k == 32
    ensures 0 < Times(1, k) && BlockStart(server, k) + Times(1, k) - 1 < TWO_32
    ensures NetworkOf(server, cidr).broadcastAddress == ToInt32(BlockStart(server, k) + Times(1, k) - 1)
  {
    NetworkBits(server, cidr, k);
    ComplementBits(cidr, k);
    WholeWord();
    BlockFits(server, k, 32);
    FillBits(Halved(server, k), k);
  }

  lemma FillBits(h: nat, k: nat)
    requires 0 < Times(1, k) && Times(h, k) + Times(1, k) <= TWO_32
    ensures Or(ToInt32(Times(h, k)), Times(1, k) - 1) == ToInt32(Times(h, k) + Times(1, k) - 1)
  {
    SignIrrelevant(Times(h, k));
    ModSmall(Times(h, k));
    ModSmall(Times(1, k) - 1);
    OrDisjoint(h, k, Times(1, k) - 1);
  }

  lemma {:induction false} HalvedSmall(x: nat, n: nat, k: nat)
    requires x < Times(1, n) && k <= n
    ensures Halved(x, k) < Times(1, n - k)
  {
    if k > 0 {
      HalvedSmall(x / 2, n - 1, k - 1);
    }
  }

  lemma BlockFits(server: nat, k: nat, n: nat)
    requires server < Times(1, n) && k <= n
    ensures BlockStart(server, k) + Times(1, k) <= Times(1, n)
  {
    HalvedSmall(server, n, k);
    TimesBelow(Halved(server, k), n - k, k);
  }

  /** Below 128.0.0.0 the subnet is the block around the server, in plain numbers. */
  lemma LowNetwork(server: nat, cidr: nat, k: nat)
    requires server < TWO_31 && 1 <= cidr <= 32 && cidr + k == 32
    ensures 0 < Times(1, k)
    ensures NetworkOf(server, cidr) == Network(BlockStart(server, k), BlockStart(server, k) + Times(1, k) - 1, cidr, server)
    ensures BlockStart(server, k) <= server <= BlockStart(server, k) + Times(1, k) - 1 < TWO_31
  {
    NetworkBits(server, cidr, k);
    BroadcastBits(server, cidr, k);
    HalfWord();
    BlockFits(server, k, 31);
    LowHigh(server, k);
    ModSmall(BlockStart(server, k));
    ModSmall(BlockStart(server, k) + Times(1, k) - 1);
  }

  /** From 128.0.0.0 on both ends of the subnet come out negative. */
  lemma HighNetwork(server: nat, cidr: nat, k: nat)
    requires TWO_31 <= server < TWO_32 && 1 <= cidr <= 32 && cidr + k == 32
    ensures 0 < Times(1, k) && TWO_31 <= BlockStart(server, k)
    ensures NetworkOf(server, cidr) ==
      Network(BlockStart(server, k) - TWO_32, BlockStart(server, k) + Times(1, k) - 1 - TWO_32, cidr, server)
    ensures BlockStart(server, k) + Times(1, k) <= TWO_32
  {
    NetworkBits(server, cidr, k);
    BroadcastBits(server, cidr, k);
    HighBlock(server, k);
    WholeWord();
    BlockFits(server, k, 32);
    ModSmall(BlockStart(server, k));
    ModSmall(BlockStart(server, k) + Times(1, k) - 1);
  }

  lemma HighBlock(server: nat, k: nat)
    requires TWO_31 <= server && k <= 31
    ensures TWO_31 <= BlockStart(server, k)
  {
    HalfWord();
    HalvedLarge(server, 31, k);
    TimesMonotone(Times(1, 31 - k), Halved(server, k), k);
    TimesTimes(1, 31 - k, k);
  }

  lemma {:induction false} HalvedLarge(x: nat, n: nat, k: nat)
    requires Times(1, n) <= x && k <= n
    ensures Times(1, n - k) <= Halved(x, k)
  {
    if k > 0 {
      HalvedLarge(x / 2, n - 1, k - 1);
    }
  }

  lemma {:induction false} TimesMonotone(a: nat, b: nat, k: nat)
    requires a <= b
    ensures Times(a, k) <= Times(b, k)
  {
    if k > 0 {
      TimesMonotone(a, b, k - 1);
    }
  }
}
