/**
 The base32 codec of the two-factor secrets: section 6 of RFC 4648 without padding. The
 specification works on the stream of bits; the methods keep a few of them in a number that
 wraps at 32 bits.
 */
module Base32 {

  import opened Basics
  import opened JsStrings
  import opened JsInt32

  newtype byte = n: int | 0 <= n < 256

  // ----- bit strings -----

  /** The number written by a bit string, most significant bit first. */
  function ToNat(bits: seq<bool>): nat {
    if bits == [] then 0
    else 2 * ToNat(bits[..|bits| - 1]) + if bits[|bits| - 1] then 1 else 0
  }

  /** The k lowest bits of a number. */
  function FromNat(x: nat, k: nat): (bits: seq<bool>)
    ensures |bits| == k
  {
    if k == 0 then [] else FromNat(x / 2, k - 1) + [x % 2 == 1]
  }

  function Zeros(k: nat): (bits: seq<bool>)
    ensures |bits| == k
  {
    FromNat(0, k)
  }

  lemma {:induction false} ToNatFromNat(x: nat, k: nat)
    ensures ToNat(FromNat(x, k)) == Low(x, k)
  {
    if k > 0 {
      ToNatFromNat(x / 2, k - 1);
      assert FromNat(x, k)[..k - 1] == FromNat(x / 2, k - 1);
    }
  }

  lemma {:induction false} FromNatToNat(bits: seq<bool>)
    ensures FromNat(ToNat(bits), |bits|) == bits
    ensures ToNat(bits) < Times(1, |bits|)
  {
    if bits != [] {
      var n := |bits| - 1;
      FromNatToNat(bits[..n]);
      assert ToNat(bits) / 2 == ToNat(bits[..n]);
      assert bits == bits[..n] + [bits[n]];
    }
  }

  lemma {:induction false} HeadBits(bits: seq<bool>, k: nat)
    requires k <= |bits|
    ensures ToNat(bits[..|bits| - k]) == Halved(ToNat(bits), k)
    ensures ToNat(bits[|bits| - k..]) == Low(ToNat(bits), k)
  {
    var n := |bits| - 1;
    if k > 0 {
      HeadBits(bits[..n], k - 1);
      assert ToNat(bits) / 2 == ToNat(bits[..n]);
      assert bits[..n][..n - (k - 1)] == bits[..|bits| - k];
      assert bits[|bits| - k..][..k - 1] == bits[..n][n - (k - 1)..];
    } else {
      assert bits[..|bits|] == bits;
    }
  }

  lemma {:induction false} ToNatConcat(a: seq<bool>, b: seq<bool>)
    ensures ToNat(a + b) == Times(ToNat(a), |b|) + ToNat(b)
  {
    if b == [] {
      assert a + b == a;
    } else {
      var n := |b| - 1;
      ToNatConcat(a, b[..n]);
      assert (a + b)[..|a| + n] == a + b[..n];
    }
  }

  lemma {:induction false} ZerosAreZero(k: nat)
    ensures ToNat(Zeros(k)) == 0
  {
    ToNatFromNat(0, k);
    LowOfSmallZero(k);
  }

  lemma {:induction false} LowOfSmallZero(k: nat)
    ensures Low(0, k) == 0
  {
    if k > 0 {
      LowOfSmallZero(k - 1);
    }
  }

  // ----- the specification -----

  /** The stream of bits of a byte string. */
  function BitsOf(bytes: seq<byte>): (bits: seq<bool>)
    ensures |bits| == 8 * |bytes|
  {
    if bytes == [] then [] else BitsOf(bytes[..|bytes| - 1]) + FromNat(bytes[|bytes| - 1] as nat, 8)
  }

  /** What f makes of each n bits; an incomplete rest is dropped. */
  function Groups<T>(bits: seq<bool>, n: nat, f: seq<bool> -> T): seq<T>
    requires n > 0
    decreases |bits|
  {
    if |bits| < n then [] else [f(bits[..n])] + Groups(bits[n..], n, f)
  }

  /** The alphabet by position: letters, then the digits from 2. */
  function CharAt(index: nat): char
    requires index < 32
  {
    if index < 26 then (('A' as nat) + index) as char else (('2' as nat) + index - 26) as char
  }

  lemma TheAlphabet(index: nat)
    requires index < 32
    ensures CharAt(index) == "ABCDEFGHIJKLMNOPQRSTUVWXYZ234567"[index]
  {
  }

  function CharOf(bits: seq<bool>): char {
    CharAt(ToNat(bits) % 32)
  }

  function ByteOf(bits: seq<bool>): byte {
    (ToNat(bits) % 256) as byte
  }

  predicate InAlphabet(c: char) {
    'A' <= c <= 'Z' || '2' <= c <= '7'
  }

  function IndexOf(c: char): nat
    requires InAlphabet(c)
  {
    if 'A' <= c <= 'Z' then (c as nat) - ('A' as nat) else (c as nat) - ('2' as nat) + 26
  }

  predicate AllInAlphabet(s: string) {
    forall i :: 0 <= i < |s| ==> InAlphabet(s[i])
  }

  function CharBits(s: string): (bits: seq<bool>)
    requires AllInAlphabet(s)
    ensures |bits| == 5 * |s|
  {
    if s == "" then [] else CharBits(s[..|s| - 1]) + FromNat(IndexOf(s[|s| - 1]), 5)
  }

  /** Zeros fill the last group of five. */
  function Padded(bits: seq<bool>): (padded: seq<bool>)
    ensures |padded| % 5 == 0 && |bits| <= |padded| < |bits| + 5
  {
    bits + Zeros(4 - (|bits| + 4) % 5)
  }

  /** Five bits a character. */
  function Encode(bytes: seq<byte>): string {
    Groups(Padded(BitsOf(bytes)), 5, CharOf)
  }

  /** JavaScript's upper case, which may be longer, as far as it lies in the alphabet: no other character has an
      upper case made of the alphabet's letters alone, and none has one with white space or a hyphen. */
  function ToUpper(c: char): string {
    if 'a' <= c <= 'z' then [((c as int) - ('a' as int) + ('A' as int)) as char]
    else match c
      case '\U{00DF}' => "SS"
      case '\U{0131}' => "I"
      case '\U{017F}' => "S"
      case '\U{FB00}' => "FF"
      case '\U{FB01}' => "FI"
      case '\U{FB02}' => "FL"
      case '\U{FB03}' => "FFI"
      case '\U{FB04}' => "FFL"
      case '\U{FB05}' => "ST"
      case '\U{FB06}' => "ST"
      case _ => [c]
  }

  /** Upper case, without white space and hyphens. */
  function Normalize(s: string): string {
    if s == "" then "" else Normalized(s[0]) + Normalize(s[1..])
  }

  function Normalized(c: char): string {
    if IsSpace(c) || c == '-' then "" else ToUpper(c)
  }

  /** Eight bits a byte. */
  function Decode(s: string): Option<seq<byte>> {
    var n := Normalize(s);
    if AllInAlphabet(n) then Some(Groups(CharBits(n), 8, ByteOf)) else None
  }

  // ----- the methods -----

  /** The accumulator holds the pending bits in its low end. */
  ghost predicate Holds(value: int, pending: seq<bool>) {
    Low(ToUint32(value), |pending|) == ToNat(pending)
  }

  /** The encoder's inner loop: every complete group of five pending bits becomes a character. */
  method EmitGroups(value: int, count: nat, soFar: string, ghost before: seq<bool>, ghost carried: seq<bool>)
    returns (bits: nat, output: string, ghost done: seq<bool>, ghost pending: seq<bool>)
    requires count == |carried| <= 12 && Holds(value, carried)
    requires |before| == 5 * |soFar| && soFar == Groups(before, 5, CharOf)
    ensures bits == |pending| < 5 && Holds(value, pending) && done + pending == before + carried
    ensures |done| == 5 * |output| && output == Groups(done, 5, CharOf)
  {
    bits, output := count, soFar;
    done, pending := before, carried;
    while bits >= 5
      invariant bits == |pending| <= 12 && Holds(value, pending) && done + pending == before + carried
      invariant |done| == 5 * |output| && output == Groups(done, 5, CharOf)
    {
      TakeFive(value, bits - 5, done, pending, output);
      output := output + [CharAt(And(ShrU(value, bits - 5), 31))];
      done, pending := done + pending[..5], pending[5..];
      bits := bits - 5;
    }
  }

  method EncodeBase32(buffer: seq<byte>) returns (output: string)
    ensures output == Encode(buffer)
  {
    var bits, value := 0, 0;
    output := "";
    ghost var done, pending: seq<bool> := [], [];
    for i := 0 to |buffer|
      invariant bits == |pending| < 5 && Holds(value, pending)
      invariant done + pending == BitsOf(buffer[..i])
      invariant |done| == 5 * |output| && output == Groups(done, 5, CharOf)
    {
      NextByte(value, done, pending, buffer, i);
      pending := pending + FromNat(buffer[i] as nat, 8);
      value := Or(Shl(value, 8), buffer[i] as int);
      bits := bits + 8;
      bits, output, done, pending := EmitGroups(value, bits, output, done, pending);
    }
    EncodeDone(buffer, done, pending, 5 - bits, output);
    if bits > 0 {
      LastChar(value, bits, 5 - bits, ToNat(pending));
      output := output + [CharAt(And(Shl(value, 5 - bits), 31))];
    }
  }

  /** `None` where the service throws. */
  method DecodeBase32(value: string) returns (bytes: Option<seq<byte>>)
    ensures bytes == Decode(value)
  {
    var normalized := Normalize(value);
    var bits, current := 0, 0;
    var out: seq<byte> := [];
    ghost var done, pending: seq<bool> := [], [];
    for i := 0 to |normalized|
      invariant AllInAlphabet(normalized[..i])
      invariant bits == |pending| < 8 && Holds(current, pending)
      invariant done + pending == CharBits(normalized[..i])
      invariant |done| == 8 * |out| && out == Groups(done, 8, ByteOf)
    {
      var c := normalized[i];
      if !InAlphabet(c) {
        return None;
      }
      var index := IndexOf(c);
      NextChar(current, done, pending, normalized, i);
      pending := pending + FromNat(index, 5);
      current := Or(Shl(current, 5), index);
      bits := bits + 5;
      if bits >= 8 {
        TakeEight(current, bits - 8, done, pending, out);
        out := out + [And(ShrU(current, bits - 8), 0xff) as byte];
        done, pending := done + pending[..8], pending[8..];
        bits := bits - 8;
      }
    }
    DecodeDone(value, done, pending, out);
    return Some(out);
  }

  lemma BitsOfNext(bytes: seq<byte>, i: nat, done: seq<bool>, pending: seq<bool>)
    requires i < |bytes| && done + pending == BitsOf(bytes[..i])
    ensures done + (pending + FromNat(bytes[i] as nat, 8)) == BitsOf(bytes[..i + 1])
  {
    assert bytes[..i + 1][..i] == bytes[..i];
    Associative(done, pending, FromNat(bytes[i] as nat, 8));
  }

  lemma CharBitsNext(s: string, i: nat, done: seq<bool>, pending: seq<bool>)
    requires i < |s| && AllInAlphabet(s[..i]) && InAlphabet(s[i])
    requires done + pending == CharBits(s[..i])
    ensures AllInAlphabet(s[..i + 1])
    ensures done + (pending + FromNat(IndexOf(s[i]), 5)) == CharBits(s[..i + 1])
  {
    assert s[..i + 1][..i] == s[..i];
    Associative(done, pending, FromNat(IndexOf(s[i]), 5));
  }

  lemma NextByte(value: int, done: seq<bool>, pending: seq<bool>, bytes: seq<byte>, i: nat)
    requires i < |bytes| && |pending| < 5 && Holds(value, pending) && done + pending == BitsOf(bytes[..i])
    ensures Holds(Or(Shl(value, 8), bytes[i] as int), pending + FromNat(bytes[i] as nat, 8))
    ensures done + (pending + FromNat(bytes[i] as nat, 8)) == BitsOf(bytes[..i + 1])
  {
    AppendByte(value, bytes[i] as nat, pending);
    BitsOfNext(bytes, i, done, pending);
  }

  lemma NextChar(value: int, done: seq<bool>, pending: seq<bool>, s: string, i: nat)
    requires i < |s| && AllInAlphabet(s[..i]) && InAlphabet(s[i])
    requires |pending| < 8 && Holds(value, pending) && done + pending == CharBits(s[..i])
    ensures AllInAlphabet(s[..i + 1])
    ensures Holds(Or(Shl(value, 5), IndexOf(s[i])), pending + FromNat(IndexOf(s[i]), 5))
    ensures done + (pending + FromNat(IndexOf(s[i]), 5)) == CharBits(s[..i + 1])
  {
    AppendChar(value, IndexOf(s[i]), pending);
    CharBitsNext(s, i, done, pending);
  }

  lemma Associative<T>(a: seq<T>, b: seq<T>, c: seq<T>)
    ensures a + (b + c) == a + b + c
  {
  }

  lemma {:induction false} GroupsConcat<T>(a: seq<bool>, b: seq<bool>, n: nat, k: nat, f: seq<bool> -> T)
    requires n > 0 && |a| == n * k
    ensures Groups(a + b, n, f) == Groups(a, n, f) + Groups(b, n, f)
    ensures |Groups(a, n, f)| == k
    decreases k
  {
    if k == 0 {
      assert a + b == b;
    } else {
      Product(n, k);
      GroupsConcat(a[n..], b, n, k - 1, f);
      assert (a + b)[..n] == a[..n] && (a + b)[n..] == a[n..] + b;
    }
  }

  lemma Product(n: nat, k: nat)
    ensures k > 0 ==> n * (k - 1) == n * k - n >= 0
  {
  }

  lemma MoveGroup<T>(done: seq<bool>, pending: seq<bool>, n: nat, k: nat, f: seq<bool> -> T)
    requires 0 < n <= |pending| && |done| == n * k
    ensures done + pending[..n] + pending[n..] == done + pending
    ensures Groups(done + pending[..n], n, f) == Groups(done, n, f) + [f(pending[..n])]
  {
    GroupsConcat(done, pending[..n], n, k, f);
    assert pending[..n][..n] == pending[..n] && Groups(pending[..n][n..], n, f) == [];
  }

  lemma LastGroup(done: seq<bool>, pending: seq<bool>, z: nat, k: nat)
    requires |pending| + z == 5 && z > 0 && |done| == 5 * k
    ensures pending == [] ==> Groups(Padded(done + pending), 5, CharOf) == Groups(done, 5, CharOf)
    ensures pending != [] ==>
      Groups(Padded(done + pending), 5, CharOf) == Groups(done, 5, CharOf) + [CharOf(pending + Zeros(z))]
  {
    if pending == [] {
      NoPadding(done, k);
      assert done + pending == done;
    } else {
      SomePadding(done, pending, z, k);
      OneGroup(done, pending + Zeros(z), 5, k, CharOf);
    }
  }

  lemma NoPadding(done: seq<bool>, k: nat)
    requires |done| == 5 * k
    ensures Padded(done) == done
  {
  }

  lemma SomePadding(done: seq<bool>, pending: seq<bool>, z: nat, k: nat)
    requires |pending| + z == 5 && 0 < z < 5 && |done| == 5 * k
    ensures Padded(done + pending) == done + (pending + Zeros(z))
  {
  }

  lemma OneGroup<T>(done: seq<bool>, last: seq<bool>, n: nat, k: nat, f: seq<bool> -> T)
    requires 0 < n == |last| && |done| == n * k
    ensures Groups(done + last, n, f) == Groups(done, n, f) + [f(last)]
  {
    MoveGroup(done, last, n, k, f);
    assert last[..n] == last;
  }

  lemma TakeFive(value: int, k: nat, done: seq<bool>, pending: seq<bool>, output: string)
    requires |pending| == k + 5 <= 12 && Holds(value, pending)
    requires |done| == 5 * |output| && output == Groups(done, 5, CharOf)
    ensures 0 <= And(ShrU(value, k), 31) < 32
    ensures Holds(value, pending[5..]) && done + pending[..5] + pending[5..] == done + pending
    ensures output + [CharAt(And(ShrU(value, k), 31))] == Groups(done + pending[..5], 5, CharOf)
  {
    WindowFive(value, k, pending);
    CharIs(And(ShrU(value, k), 31), ToNat(pending[..5]));
    StillHolds(value, pending, 5, k);
    MoveGroup(done, pending, 5, |output|, CharOf);
  }

  lemma TakeEight(value: int, k: nat, done: seq<bool>, pending: seq<bool>, out: seq<byte>)
    requires |pending| == k + 8 <= 12 && Holds(value, pending)
    requires |done| == 8 * |out| && out == Groups(done, 8, ByteOf)
    ensures 0 <= And(ShrU(value, k), 0xff) < 256
    ensures Holds(value, pending[8..]) && done + pending[..8] + pending[8..] == done + pending
    ensures out + [And(ShrU(value, k), 0xff) as byte] == Groups(done + pending[..8], 8, ByteOf)
  {
    WindowEight(value, k, pending);
    ByteIs(And(ShrU(value, k), 0xff), ToNat(pending[..8]));
    StillHolds(value, pending, 8, k);
    MoveGroup(done, pending, 8, |out|, ByteOf);
  }

  ghost function PadChar(n: nat, z: nat): char {
    CharAt(Times(n, z) % 32)
  }

  lemma EncodeDone(bytes: seq<byte>, done: seq<bool>, pending: seq<bool>, z: nat, output: string)
    requires |pending| + z == 5 && z > 0 && |done| == 5 * |output| && output == Groups(done, 5, CharOf)
    requires done + pending == BitsOf(bytes[..|bytes|])
    ensures pending == [] ==> Encode(bytes) == output
    ensures pending != [] ==> Encode(bytes) == output + [PadChar(ToNat(pending), z)]
  {
    assert bytes[..|bytes|] == bytes;
    LastGroup(done, pending, z, |output|);
    PadBits(pending, z);
  }

  lemma DecodeDone(s: string, done: seq<bool>, pending: seq<bool>, out: seq<byte>)
    requires AllInAlphabet(Normalize(s)[..|Normalize(s)|]) && done + pending == CharBits(Normalize(s)[..|Normalize(s)|])
    requires |pending| < 8 && |done| == 8 * |out| && out == Groups(done, 8, ByteOf)
    ensures Decode(s) == Some(out)
  {
    assert Normalize(s)[..|Normalize(s)|] == Normalize(s);
    NoGroup(done, pending, 8, |out|, ByteOf);
  }

  lemma NoGroup<T>(done: seq<bool>, rest: seq<bool>, n: nat, k: nat, f: seq<bool> -> T)
    requires |rest| < n && |done| == n * k
    ensures Groups(done + rest, n, f) == Groups(done, n, f)
  {
    GroupsConcat(done, rest, n, k, f);
    assert Groups(rest, n, f) == [];
  }

  // ----- the accumulator -----

  lemma AppendByte(value: int, chunk: nat, pending: seq<bool>)
    requires chunk < 256 && |pending| < 5 && Holds(value, pending)
    ensures Holds(Or(Shl(value, 8), chunk), pending + FromNat(chunk, 8))
  {
    Powers();
    Append(value, chunk, 8, pending);
  }

  lemma AppendChar(value: int, chunk: nat, pending: seq<bool>)
    requires chunk < 32 && |pending| < 8 && Holds(value, pending)
    ensures Holds(Or(Shl(value, 5), chunk), pending + FromNat(chunk, 5))
  {
    Powers();
    Append(value, chunk, 5, pending);
  }

  lemma WindowFive(value: int, k: nat, pending: seq<bool>)
    requires |pending| == k + 5 <= 12 && Holds(value, pending)
    ensures And(ShrU(value, k), 31) == ToNat(pending[..5]) < 32
  {
    SplitBits(pending, 5, k);
    ReadFive(value, k, ToNat(pending));
  }

  lemma WindowEight(value: int, k: nat, pending: seq<bool>)
    requires |pending| == k + 8 <= 12 && Holds(value, pending)
    ensures And(ShrU(value, k), 0xff) == ToNat(pending[..8]) < 256
  {
    SplitBits(pending, 8, k);
    ReadEight(value, k, ToNat(pending));
  }

  lemma CharIs(c: int, n: nat)
    requires c == n < 32
    ensures CharAt(c) == CharAt(n % 32)
  {
  }

  lemma ByteIs(c: int, n: nat)
    requires c == n < 256
    ensures c as byte == (n % 256) as byte
  {
  }

  lemma SplitBits(bits: seq<bool>, s: nat, k: nat)
    requires |bits| == s + k
    ensures ToNat(bits[..s]) == Halved(ToNat(bits), k)
    ensures ToNat(bits[s..]) == Low(ToNat(bits), k)
  {
    HeadBits(bits, k);
  }

  lemma StillHolds(value: int, pending: seq<bool>, s: nat, k: nat)
    requires |pending| == s + k && Holds(value, pending)
    ensures Holds(value, pending[s..])
  {
    SplitBits(pending, s, k);
    LowLow(ToUint32(value), k, |pending|);
  }

  lemma ReadFive(value: int, k: nat, n: nat)
    requires k <= 7 && Low(ToUint32(value), k + 5) == n
    ensures And(ShrU(value, k), 31) == Halved(n, k) < 32
  {
    LowOfHalved(ToUint32(value), k, 5);
    Shifted(value, k);
    MaskFive(ShrU(value, k));
  }

  lemma ReadEight(value: int, k: nat, n: nat)
    requires k <= 4 && Low(ToUint32(value), k + 8) == n
    ensures And(ShrU(value, k), 0xff) == Halved(n, k) < 256
  {
    LowOfHalved(ToUint32(value), k, 8);
    Shifted(value, k);
    MaskEight(ShrU(value, k));
  }

  /** Appending s bits to the accumulator: only the pending ones matter, whatever wraps away above. */
  lemma Append(value: int, chunk: nat, s: nat, pending: seq<bool>)
    requires chunk < Times(1, s) && |pending| + s <= 32 && s < 32 && Holds(value, pending)
    ensures Holds(Or(Shl(value, s), chunk), pending + FromNat(chunk, s))
  {
    ShiftOr(value, s, chunk);
    AppendLow(ToUint32(value), chunk, s, |pending|);
    AppendBits(pending, chunk, s);
  }

  lemma AppendLow(u: nat, chunk: nat, s: nat, bits: nat)
    requires chunk < Times(1, s) && bits + s <= 32
    ensures Low(Times(Low(u, 32 - s), s) + chunk, bits + s) == Times(Low(u, bits), s) + chunk
  {
    LowOfShifted(Low(u, 32 - s), s, chunk, bits);
    LowLow(u, bits, 32 - s);
  }

  lemma AppendBits(pending: seq<bool>, chunk: nat, s: nat)
    requires chunk < Times(1, s)
    ensures ToNat(pending + FromNat(chunk, s)) == Times(ToNat(pending), s) + chunk
  {
    ToNatConcat(pending, FromNat(chunk, s));
    ToNatFromNat(chunk, s);
    LowOfSmall(chunk, s);
  }

  /** The last, incomplete group. */
  lemma LastChar(value: int, bits: nat, z: nat, n: nat)
    requires bits + z == 5 && 0 < z < 5 && Low(ToUint32(value), bits) == n
    ensures 0 <= And(Shl(value, z), 31) < 32
    ensures CharAt(And(Shl(value, z), 31)) == PadChar(n, z)
  {
    PadLow(value, bits, z, n);
    CharIs(And(Shl(value, z), 31), Times(n, z));
  }

  lemma PadLow(value: int, bits: nat, z: nat, n: nat)
    requires bits + z == 5 && 0 < z < 5 && Low(ToUint32(value), bits) == n
    ensures And(Shl(value, z), 31) == Times(n, z) < 32
  {
    ShlUnsigned(value, z);
    ShiftedIn(ToUint32(value), bits, z, 32 - z);
    MaskSigned(Shl(value, z));
  }

  lemma MaskSigned(x: int)
    ensures And(x, 31) == Low(ToUint32(x), 5) < 32
  {
    AndUnsigned(x, 31);
    MaskFive(ToUint32(x));
  }

  lemma PadBits(pending: seq<bool>, k: nat)
    ensures ToNat(pending + Zeros(k)) == Times(ToNat(pending), k)
  {
    ToNatConcat(pending, Zeros(k));
    ZerosAreZero(k);
  }

  lemma ShiftedIn(u: nat, bits: nat, z: nat, kept: nat)
    requires bits + z == 5 && bits <= kept
    ensures Low(Times(Low(u, kept), z), 5) == Times(Low(u, bits), z)
  {
    TimesPositive(0, z);
    LowOfShifted(Low(u, kept), z, 0, bits);
    LowLow(u, bits, kept);
  }

  lemma MaskFive(x: nat)
    requires x < TWO_32
    ensures And(x, 31) == Low(x, 5) < 32
  {
    Powers();
    Masked(x, 5);
  }

  lemma MaskEight(x: nat)
    requires x < TWO_32
    ensures And(x, 0xff) == Low(x, 8) < 256
  {
    Powers();
    Masked(x, 8);
  }
}
