/**
 What the peers rely on: printing an address and parsing it again changes nothing, the allocator
 hands out the lowest free host and, fed with its own results, every free host once. It does so
 exactly for subnets below 128.0.0.0.
 */
module WireguardIpProofs {

  import opened Basics
  import opened JsStrings
  import opened JsInt32
  import opened WireguardIp
  import Decimals

  // ----- printing, then parsing -----

  lemma PrintedOctet(n: nat)
    requires n < 256
    ensures Octet(Decimals.Print(n)) == Some(n)
  {
    var s := Decimals.Print(n);
    Decimals.ReadPrint(n);
    assert Decimals.IsDigit(s[0]);
  }

  lemma NoDot(n: nat)
    ensures '.' !in Decimals.Print(n)
  {
    Decimals.ReadPrint(n);
    forall i | 0 <= i < |Decimals.Print(n)| ensures Decimals.Print(n)[i] != '.' {
      assert Decimals.IsDigit(Decimals.Print(n)[i]);
    }
  }

  lemma SplitParts(a: string, b: string, c: string, d: string)
    requires '.' !in a && '.' !in b && '.' !in c && '.' !in d
    ensures SplitOn(a + "." + (b + "." + (c + "." + d)), '.') == [a, b, c, d]
  {
    SplitOnPart(a, '.', b + "." + (c + "." + d));
    SplitOnPart(b, '.', c + "." + d);
    SplitOnPart(c, '.', d);
    SplitOnLast(d, '.');
  }

  lemma ParseDotted(a: nat, b: nat, c: nat, d: nat)
    requires a < 256 && b < 256 && c < 256 && d < 256
    ensures Ipv4ToInt(Dotted(a, b, c, d)) == Some(FromOctets(a, b, c, d))
  {
    NoDot(a);
    NoDot(b);
    NoDot(c);
    NoDot(d);
    SplitParts(Decimals.Print(a), Decimals.Print(b), Decimals.Print(c), Decimals.Print(d));
    PrintedOctet(a);
    PrintedOctet(b);
    PrintedOctet(c);
    PrintedOctet(d);
  }

  lemma HalvedIs(x: nat, k: nat, p: nat)
    requires Place(k, p)
    ensures Halved(x, k) == x / p
  {
    LowHigh(x, k);
    PlaceValue(Halved(x, k), k, p);
    Quotient(x, Halved(x, k), Low(x, k), k, p);
  }

  lemma Quotient(x: nat, q: nat, r: nat, k: nat, p: nat)
    requires Place(k, p) && x == q * p + r && r < p
    ensures x / p == q && x % p == r
  {
    if k == 24 {
      assert x == q * 0x100_0000 + r;
    } else if k == 16 {
      assert x == q * 0x1_0000 + r;
    } else if k == 8 {
      assert x == q * 0x100 + r;
    }
  }

  lemma LowByte(x: nat)
    ensures Low(x, 8) == x % 256
  {
    LowHigh(x, 8);
    PlaceValue(Halved(x, 8), 8, 256);
    Quotient(x, Halved(x, 8), Low(x, 8), 8, 256);
  }

  lemma OctetIs(x: nat, k: nat, p: nat)
    requires x < TWO_32 && Place(k, p)
    ensures OctetAt(x, k) == x / p % 256
  {
    OctetRange(x, k);
    ModSmall(x);
    HalvedIs(x, k, p);
    LowByte(x / p);
  }

  lemma ShiftedOctet(a: nat, k: nat, p: nat)
    requires a < 256 && Place(k, p) && k > 0
    ensures ToUint32(Shl(a, k)) == a * p < TWO_32
  {
    ModSmall(a);
    PlaceValue(a, k, p);
    SignIrrelevant(Times(a, k));
    ModSmall(a * p);
  }

  lemma OctetSum(a: nat, b: nat, c: nat, d: nat)
    requires a < 256 && b < 256 && c < 256 && d < 256
    ensures FromOctets(a, b, c, d) == a * 0x100_0000 + b * 0x1_0000 + c * 0x100 + d
  {
    ShiftedOctet(a, 24, 0x100_0000);
    ShiftedOctet(b, 16, 0x1_0000);
    ShiftedOctet(c, 8, 0x100);
    ModSmall(d);
    ModSmall(a * 0x100_0000 + b * 0x1_0000 + c * 0x100 + d);
  }

  lemma FourOctets(x: nat)
    requires x < TWO_32
    ensures x == (x / 0x100_0000 % 256) * 0x100_0000 + (x / 0x1_0000 % 256) * 0x1_0000 + (x / 0x100 % 256) * 0x100 + x / 1 % 256
  {
    assert x / 0x1_0000 == x / 0x100 / 0x100;
    assert x / 0x100_0000 == x / 0x1_0000 / 0x100;
  }

  lemma OctetsRebuild(x: nat)
    requires x < TWO_32
    ensures OctetAt(x, 24) < 256 && OctetAt(x, 16) < 256 && OctetAt(x, 8) < 256 && OctetAt(x, 0) < 256
    ensures FromOctets(OctetAt(x, 24), OctetAt(x, 16), OctetAt(x, 8), OctetAt(x, 0)) == x
  {
    OctetIs(x, 24, 0x100_0000);
    OctetIs(x, 16, 0x1_0000);
    OctetIs(x, 8, 0x100);
    OctetIs(x, 0, 1);
    FourOctets(x);
    OctetSum(x / 0x100_0000 % 256, x / 0x1_0000 % 256, x / 0x100 % 256, x / 1 % 256);
  }

  lemma PrintParse(x: nat)
    requires x < TWO_32
    ensures Ipv4ToInt(IntToIpv4(x)) == Some(x)
  {
    OctetsRebuild(x);
    ParseDotted(OctetAt(x, 24), OctetAt(x, 16), OctetAt(x, 8), OctetAt(x, 0));
  }

  lemma PrintInjective(x: nat, y: nat)
    requires x < TWO_32 && y < TWO_32 && IntToIpv4(x) == IntToIpv4(y)
    ensures x == y
  {
    PrintParse(x);
    PrintParse(y);
  }

  /** An address printed by the allocator is read back by the next allocation. */
  lemma PrintedCounts(used: seq<string>, x: nat)
    requires x < TWO_32 && Addresses(used).Some?
    ensures Addresses(used + [IntToIpv4(x)]) == Some(Addresses(used).value + {x as int})
  {
    assert (used + [IntToIpv4(x)])[..|used|] == used;
    PrintParse(x);
    PrintedTrimmed(x);
  }

  lemma PrintedTrimmed(x: nat)
    requires x < TWO_32
    ensures IntToIpv4(x) != "" && Trim(IntToIpv4(x)) == IntToIpv4(x)
  {
    var first, last := Decimals.Print(OctetAt(x, 24)), Decimals.Print(OctetAt(x, 0));
    Decimals.ReadPrint(OctetAt(x, 24));
    Decimals.ReadPrint(OctetAt(x, 0));
    assert Decimals.IsDigit(first[0]) && Decimals.IsDigit(last[|last| - 1]);
    assert IntToIpv4(x)[0] == first[0];
    LastOfDotted(OctetAt(x, 24), OctetAt(x, 16), OctetAt(x, 8), OctetAt(x, 0));
    TrimKeeps(IntToIpv4(x));
  }

  lemma LastOfDotted(a: nat, b: nat, c: nat, d: nat)
    ensures Dotted(a, b, c, d) != ""
    ensures Dotted(a, b, c, d)[|Dotted(a, b, c, d)| - 1] == Decimals.Print(d)[|Decimals.Print(d)| - 1]
  {
  }

  lemma NoSlash(n: nat)
    ensures '/' !in Decimals.Print(n)
  {
    Decimals.ReadPrint(n);
    forall i | 0 <= i < |Decimals.Print(n)| ensures Decimals.Print(n)[i] != '/' {
      assert Decimals.IsDigit(Decimals.Print(n)[i]);
    }
  }

  lemma NoSlashInAddress(x: int)
    ensures '/' !in IntToIpv4(x)
  {
    NoSlash(OctetAt(x, 24));
    NoSlash(OctetAt(x, 16));
    NoSlash(OctetAt(x, 8));
    NoSlash(OctetAt(x, 0));
  }

  lemma PrintedPrefix(cidr: nat)
    requires cidr <= 32
    ensures Within(JsInteger(Decimals.Print(cidr)), 32) == Some(cidr)
  {
    Decimals.ReadPrint(cidr);
    assert Decimals.IsDigit(Decimals.Print(cidr)[0]);
  }

  /** Every server address and prefix has a configuration string that is read back. */
  lemma NetworkRoundTrip(server: nat, cidr: nat)
    requires server < TWO_32 && cidr <= 32
    ensures ParseWireguardNetwork(IntToIpv4(server) + "/" + Decimals.Print(cidr)) == Some(NetworkOf(server, cidr))
  {
    var address, prefix := IntToIpv4(server), Decimals.Print(cidr);
    NoSlashInAddress(server);
    NoSlash(cidr);
    SplitOnPart(address, '/', prefix);
    SplitOnLast(prefix, '/');
    PrintedPrefix(cidr);
    PrintParse(server);
    PrintedTrimmed(server);
  }

  // ----- the lowest free host -----

  lemma {:induction false} FirstFreeExactly(from: int, to: int, taken: set<int>)
    ensures var r := FirstFree(from, to, taken);
      if r.Some? then from <= r.value < to && r.value !in taken && forall x :: from <= x < r.value ==> x in taken
      else forall x :: from <= x < to ==> x in taken
    decreases Max(0, to - from)
  {
    if from < to && from in taken {
      FirstFreeExactly(from + 1, to, taken);
    }
  }

  /** The hosts of a block that nobody uses, in ascending order. */
  function FreeHosts(from: int, to: int, taken: set<int>): seq<int>
    decreases Max(0, to - from)
  {
    if from >= to then []
    else if from in taken then FreeHosts(from + 1, to, taken)
    else [from] + FreeHosts(from + 1, to, taken)
  }

  lemma {:induction false} FreeHostsExactly(from: int, to: int, taken: set<int>)
    ensures forall x :: x in FreeHosts(from, to, taken) <==> from <= x < to && x !in taken
    ensures forall i, j :: 0 <= i < j < |FreeHosts(from, to, taken)| ==> FreeHosts(from, to, taken)[i] < FreeHosts(from, to, taken)[j]
    decreases Max(0, to - from)
  {
    if from < to {
      FreeHostsExactly(from + 1, to, taken);
      var rest := FreeHosts(from + 1, to, taken);
      if from !in taken {
        assert FreeHosts(from, to, taken) == [from] + rest;
        forall j | 0 <= j < |rest| ensures from < rest[j] {
          assert rest[j] in rest;
        }
      }
    }
  }

  lemma {:induction false} FirstFreeIsHead(from: int, to: int, taken: set<int>)
    ensures FreeHosts(from, to, taken) == [] <==> FirstFree(from, to, taken).None?
    ensures FreeHosts(from, to, taken) != [] ==> FirstFree(from, to, taken) == Some(FreeHosts(from, to, taken)[0])
    decreases Max(0, to - from)
  {
    if from < to && from in taken {
      FirstFreeIsHead(from + 1, to, taken);
    }
  }

  lemma {:induction false} SameHosts(from: int, to: int, taken: set<int>, x: int)
    requires x < from
    ensures FreeHosts(from, to, taken + {x}) == FreeHosts(from, to, taken)
    decreases Max(0, to - from)
  {
    if from < to {
      SameHosts(from + 1, to, taken, x);
    }
  }

  lemma {:induction false} TakingTheHead(from: int, to: int, taken: set<int>)
    requires FreeHosts(from, to, taken) != []
    ensures FreeHosts(from, to, taken + {FreeHosts(from, to, taken)[0]}) == FreeHosts(from, to, taken)[1..]
    decreases Max(0, to - from)
  {
    if from in taken {
      TakingTheHead(from + 1, to, taken);
    } else {
      SameHosts(from + 1, to, taken, from);
    }
  }

  /** The hosts that the service means to hand out: inside the block, not its two ends, not the server. */
  predicate IsHost(server: nat, k: nat, x: nat) {
    BlockStart(server, k) < x < BlockStart(server, k) + Times(1, k) - 1 && x != server
  }

  ghost predicate LowestHost(server: nat, k: nat, used: set<int>, x: nat) {
    IsHost(server, k, x) && x as int !in used && forall y: nat :: IsHost(server, k, y) && y < x ==> y as int in used
  }

  lemma LowestInRange(n: Network, used: set<int>)
    ensures match Candidate(n, used)
            case Some(x) =>
              && n.networkAddress < x < n.broadcastAddress && x != n.serverAddress && x !in used
              && forall y :: n.networkAddress < y < x && y != n.serverAddress ==> y in used
            case None => forall y :: n.networkAddress < y < n.broadcastAddress && y != n.serverAddress ==> y in used
  {
    var taken := used + {n.serverAddress};
    FirstFreeExactly(n.networkAddress + 1, n.broadcastAddress, taken);
    var end := Candidate(n, used).GetOr(n.broadcastAddress);
    forall y | n.networkAddress < y < end && y != n.serverAddress ensures y in used {
      assert y in taken;
    }
  }

  /** Below 128.0.0.0: the smallest host nobody uses, and none exactly when all are in use. */
  lemma AllocatesLowest(server: nat, cidr: nat, k: nat, used: set<int>, n: Network)
    requires server < TWO_31 && 1 <= cidr <= 32 && cidr + k == 32 && n == NetworkOf(server, cidr)
    ensures match Candidate(n, used)
            case Some(x) => 0 <= x < TWO_31 && LowestHost(server, k, used, x)
            case None => forall y: nat :: IsHost(server, k, y) ==> y as int in used
  {
    LowNetwork(server, cidr, k);
    LowestInRange(n, used);
  }

  /** The free hosts of a network. */
  function FreeIn(n: Network, used: set<int>): seq<int> {
    FreeHosts(n.networkAddress + 1, n.broadcastAddress, used + {n.serverAddress})
  }

  lemma NextCandidate(n: Network, used: set<int>)
    ensures FreeIn(n, used) == [] ==> Candidate(n, used) == None
    ensures FreeIn(n, used) != [] ==>
      && Candidate(n, used) == Some(FreeIn(n, used)[0])
      && n.networkAddress < FreeIn(n, used)[0] < n.broadcastAddress
      && FreeIn(n, used + {FreeIn(n, used)[0]}) == FreeIn(n, used)[1..]
  {
    var from, to, taken := n.networkAddress + 1, n.broadcastAddress, used + {n.serverAddress};
    FirstFreeIsHead(from, to, taken);
    if FreeIn(n, used) != [] {
      FirstFreeExactly(from, to, taken);
      TakingTheHead(from, to, taken);
      var x := FreeIn(n, used)[0];
      assert used + {x} + {n.serverAddress} == taken + {x};
    }
  }

  /** What an allocator hands out when each printed result is fed back `times` times. */
  ghost function Handed(next: set<int> -> Option<int>, used: seq<string>, printer: int -> string,
                        reader: seq<string> -> Option<set<int>>, times: nat): seq<int>
    decreases times
  {
    if times == 0 || reader(used).None? then []
    else
      match next(reader(used).value)
      case None => []
      case Some(x) => [x] + Handed(next, used + [printer(x)], printer, reader, times - 1)
  }

  /** An address below the limit, once handed out and printed, counts as in use. */
  ghost predicate CountsBack(printer: int -> string, reader: seq<string> -> Option<set<int>>, used: seq<string>, x: int) {
    0 <= x < TWO_31 && reader(used).Some? ==> reader(used + [printer(x)]) == Some(reader(used).value + {x})
  }

  /** The allocator hands out the head of the free addresses, which then is free no more. */
  ghost predicate TakesHead(next: set<int> -> Option<int>, free: set<int> -> seq<int>, used: set<int>) {
    if free(used) == [] then next(used) == None
    else
      && next(used) == Some(free(used)[0])
      && 0 <= free(used)[0] < TWO_31
      && free(used + {free(used)[0]}) == free(used)[1..]
  }

  lemma {:induction false} HandsOutAll(next: set<int> -> Option<int>, free: set<int> -> seq<int>, used: seq<string>,
                                       printer: int -> string, reader: seq<string> -> Option<set<int>>, times: nat)
    requires forall us, x :: CountsBack(printer, reader, us, x)
    requires forall us :: TakesHead(next, free, us)
    requires reader(used).Some? && times >= |free(reader(used).value)|
    ensures Handed(next, used, printer, reader, times) == free(reader(used).value)
    decreases times
  {
    var u := reader(used).value;
    assert TakesHead(next, free, u);
    if free(u) != [] {
      var x := free(u)[0];
      assert CountsBack(printer, reader, used, x);
      HandsOutAll(next, free, used + [printer(x)], printer, reader, times - 1);
    }
  }

  lemma PrintingCountsBack()
    ensures forall used, x :: CountsBack(IntToIpv4, Addresses, used, x)
  {
    forall used: seq<string>, x: int ensures CountsBack(IntToIpv4, Addresses, used, x) {
      if 0 <= x < TWO_31 && Addresses(used).Some? {
        PrintedCounts(used, x);
      }
    }
  }

  lemma CandidateTakesHead(n: Network, next: set<int> -> Option<int>, free: set<int> -> seq<int>)
    requires 0 <= n.networkAddress && n.broadcastAddress < TWO_31
    requires forall u :: next(u) == Candidate(n, u) && free(u) == FreeIn(n, u)
    ensures forall used :: TakesHead(next, free, used)
  {
    forall used: set<int> ensures TakesHead(next, free, used) {
      NextCandidate(n, used);
    }
  }

  /** The free hosts of the block, each once and in ascending order. */
  ghost predicate Enumerates(given: seq<int>, server: nat, k: nat, used: set<int>) {
    && (forall x: nat :: x as int in given <==> IsHost(server, k, x) && x as int !in used)
    && (forall i, j :: 0 <= i < j < |given| ==> given[i] < given[j])
  }

  /** Below 128.0.0.0 the allocator, fed with its own printed results, hands out every free host once and then fails. */
  lemma EveryFreeHostOnce(server: nat, cidr: nat, k: nat, n: Network, used: seq<string>, times: nat)
    requires server < TWO_31 && 1 <= cidr <= 32 && cidr + k == 32 && n == NetworkOf(server, cidr)
    requires Addresses(used).Some? && times >= |FreeIn(n, Addresses(used).value)|
    ensures Enumerates(Handed(u => Candidate(n, u), used, IntToIpv4, Addresses, times), server, k, Addresses(used).value)
  {
    LowNetwork(server, cidr, k);
    PrintingCountsBack();
    var next, free := u => Candidate(n, u), u => FreeIn(n, u);
    CandidateTakesHead(n, next, free);
    HandsOutAll(next, free, used, IntToIpv4, Addresses, times);
    FreeInExactly(n, server, k, Addresses(used).value);
  }

  lemma FreeInExactly(n: Network, server: nat, k: nat, used: set<int>)
    requires n.networkAddress == BlockStart(server, k) && n.serverAddress == server
    requires n.broadcastAddress == BlockStart(server, k) + Times(1, k) - 1
    ensures Enumerates(FreeIn(n, used), server, k, used)
  {
    FreeHostsExactly(n.networkAddress + 1, n.broadcastAddress, used + {n.serverAddress});
  }

  // ----- where it fails -----

  /** A subnet that holds the whole address space has an empty range of candidates. */
  lemma WholeSpaceNeverAllocates(server: nat, used: set<int>)
    ensures Candidate(NetworkOf(server, 0), used) == None
  {
    AndZero(server);
    OrAllOnes();
  }

  lemma AndZero(x: nat)
    ensures And(x, 0) == 0
  {
  }

  lemma OrAllOnes()
    ensures Or(0, ToUint32(Not(0))) == -1
  {
  }

  /** A negative candidate prints as the unsigned address with the same bits. */
  lemma PrintsUnsigned(x: int)
    ensures IntToIpv4(x) == IntToIpv4(ToUint32(x)) && Ipv4ToInt(IntToIpv4(x)) == Some(ToUint32(x))
  {
    ModSmall(ToUint32(x));
    SameOctets(x, ToUint32(x));
    PrintParse(ToUint32(x));
  }

  lemma SameOctets(x: int, y: int)
    requires ToUint32(x) == ToUint32(y)
    ensures OctetAt(x, 24) == OctetAt(y, 24) && OctetAt(x, 16) == OctetAt(y, 16)
    ensures OctetAt(x, 8) == OctetAt(y, 8) && OctetAt(x, 0) == OctetAt(y, 0)
  {
    OctetRange(x, 24);
    OctetRange(x, 16);
    OctetRange(x, 8);
    OctetRange(x, 0);
    OctetRange(y, 24);
    OctetRange(y, 16);
    OctetRange(y, 8);
    OctetRange(y, 0);
  }

  /** From 128.0.0.0 on the same address is handed out whatever is in use. */
  lemma HighSubnetIgnoresUsed(server: nat, cidr: nat, k: nat, n: Network, used: set<int>)
    requires TWO_31 <= server < TWO_32 && 1 <= cidr <= 30 && cidr + k == 32 && n == NetworkOf(server, cidr)
    requires NoNegatives(used)
    ensures BlockStart(server, k) + 1 < TWO_32
    ensures Candidate(n, used) == Some(BlockStart(server, k) + 1 - TWO_32)
  {
    HighNetwork(server, cidr, k);
    FourAddresses(k);
    FirstCandidate(n, used);
  }

  lemma FirstCandidate(n: Network, used: set<int>)
    requires n.networkAddress + 1 < 0 && n.networkAddress + 1 < n.broadcastAddress
    requires NoNegatives(used)
    ensures Candidate(n, used) == Some(n.networkAddress + 1)
  {
  }

  lemma FourAddresses(k: nat)
    requires k >= 2
    ensures Times(1, k) >= 4
  {
    TimesPositive(2, k);
    Doubles(1);
  }

  ghost predicate NoNegatives(used: set<int>) {
    forall u :: u in used ==> 0 <= u
  }

  /** What is handed out, read back as an address, is neither in use nor the server's own. */
  ghost predicate HandsOutFresh(n: Network, used: set<int>) {
    match Candidate(n, used)
    case None => true
    case Some(c) => (ToUint32(c) as int) !in used && ToUint32(c) != n.serverAddress
  }

  ghost predicate AvoidsUsed(n: Network) {
    forall used: set<int> :: NoNegatives(used) ==> HandsOutFresh(n, used)
  }

  /** In a subnet that has hosts at all the allocator keeps off used addresses exactly below 128.0.0.0. */
  lemma AvoidsUsedExactly(server: nat, cidr: nat, k: nat, n: Network)
    requires server < TWO_32 && 1 <= cidr <= 30 && cidr + k == 32 && n == NetworkOf(server, cidr)
    ensures AvoidsUsed(n) <==> server < TWO_31
  {
    if server < TWO_31 {
      LowNetwork(server, cidr, k);
      LowAvoidsUsed(n);
    } else {
      HighNetwork(server, cidr, k);
      FourAddresses(k);
      HighReuses(n);
    }
  }

  lemma LowAvoidsUsed(n: Network)
    requires 0 <= n.networkAddress && n.broadcastAddress < TWO_31
    ensures AvoidsUsed(n)
  {
    forall used: set<int> | NoNegatives(used) ensures HandsOutFresh(n, used) {
      LowestInRange(n, used);
    }
  }

  lemma HighReuses(n: Network)
    requires -TWO_32 <= n.networkAddress && n.networkAddress + 1 < 0 && n.networkAddress + 1 < n.broadcastAddress
    ensures !AvoidsUsed(n)
  {
    var x := n.networkAddress + 1 + TWO_32;
    var used := {x};
    FirstCandidate(n, used);
    HighAddress(x);
    assert NoNegatives(used) && !HandsOutFresh(n, used);
  }

  lemma HighAddress(x: int)
    ensures 0 <= x < TWO_32 ==> ToUint32(x - TWO_32) == x
  {
  }
}
