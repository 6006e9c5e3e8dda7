/**
 One-time passwords: the truncation of section 5.3 of RFC 4226 and the time steps of section 5.2
 of RFC 6238. The keyed hash is any function of key and message.
 */
module Totp {

  import opened Basics
  import opened JsStrings
  import opened JsInt32
  import opened Base32
  import Base32Proofs
  import Decimals

  type Hmac = (seq<byte>, seq<byte>) -> seq<byte>

  const STEP_MS := 30_000
  const DIGITS := 6
  const MODULUS := 1_000_000
  const COUNTER_LIMIT := 0x1_0000_0000_0000_0000

  // ----- the counter -----

  /** The k bytes of a number, most significant first; the counter takes eight. */
  function BigEndian(x: nat, k: nat): (bytes: seq<byte>)
    ensures |bytes| == k
  {
    if k == 0 then [] else BigEndian(x / 256, k - 1) + [(x % 256) as byte]
  }

  function NumberOf(bytes: seq<byte>): nat {
    if bytes == [] then 0 else 256 * NumberOf(bytes[..|bytes| - 1]) + bytes[|bytes| - 1] as nat
  }

  function Bytes(k: nat): nat {
    if k == 0 then 1 else 256 * Bytes(k - 1)
  }

  lemma {:induction false} CounterRoundTrip(x: nat, k: nat)
    requires x < Bytes(k)
    ensures NumberOf(BigEndian(x, k)) == x
  {
    if k > 0 {
      CounterRoundTrip(x / 256, k - 1);
      assert BigEndian(x, k)[..k - 1] == BigEndian(x / 256, k - 1);
    }
  }

  // ----- one code -----

  function ByteAt(digest: seq<byte>, i: int): (b: nat)
    ensures b < 256
  {
    if 0 <= i < |digest| then digest[i] as nat else 0
  }

  /** Section 5.3 of RFC 4226: 31 bits from the position that the last four bits name. */
  function Truncated(digest: seq<byte>): nat {
    var offset := ByteAt(digest, |digest| - 1) % 16;
    (ByteAt(digest, offset) * 0x100_0000 + ByteAt(digest, offset + 1) * 0x1_0000
     + ByteAt(digest, offset + 2) * 0x100 + ByteAt(digest, offset + 3)) % TWO_31
  }

  function CodeOf(digest: seq<byte>): string {
    Decimals.PadStart(Decimals.Print(Truncated(digest) % MODULUS), DIGITS)
  }

  /** `None` where the service throws: the counter does not fit, or the secret does not decode. */
  function Hotp(hmac: Hmac, secret: string, counter: nat): Option<string> {
    if counter >= COUNTER_LIMIT then None
    else
      match Decode(secret)
      case None => None
      case Some(key) => Some(CodeOf(hmac(key, BigEndian(counter, 8))))
  }

  method GenerateHotp(hmac: Hmac, secret: string, counter: nat) returns (code: Option<string>)
    ensures code == Hotp(hmac, secret, counter)
  {
    if counter >= COUNTER_LIMIT {
      return None;
    }
    var key := DecodeBase32(secret);
    if key.None? {
      return None;
    }
    var digest := hmac(key.value, BigEndian(counter, 8));
    var binaryCode := Truncate(digest);
    return Some(Decimals.PadStart(Decimals.Print(binaryCode % MODULUS), DIGITS));
  }

  method Truncate(digest: seq<byte>) returns (binaryCode: int)
    ensures binaryCode == Truncated(digest)
  {
    var lastByte := ByteAt(digest, |digest| - 1);
    var offset := LowBits(lastByte, 4, 16);
    var byte0, byte1 := ByteAt(digest, offset), ByteAt(digest, offset + 1);
    var byte2, byte3 := ByteAt(digest, offset + 2), ByteAt(digest, offset + 3);
    var field0 := LowBits(byte0, 7, 128);
    var field1 := LowBits(byte1, 8, 256);
    var field2 := LowBits(byte2, 8, 256);
    var field3 := LowBits(byte3, 8, 256);
    var part0 := ShiftLeft(field0, 24, 0x100_0000);
    var part1 := ShiftLeft(field1, 16, 0x1_0000);
    var part2 := ShiftLeft(field2, 8, 0x100);
    binaryCode := Union(part0, part1, field0, 24, 0x100_0000);
    binaryCode := Union(binaryCode, part2, field0 * 0x100 + field1, 16, 0x1_0000);
    binaryCode := Union(binaryCode, field3, field0 * 0x1_0000 + field1 * 0x100 + field2, 8, 0x100);
    SignBitGone(byte0, byte1 * 0x1_0000 + byte2 * 0x100 + byte3);
  }

  /** `b & (m - 1)` */
  method LowBits(b: nat, ghost k: nat, m: nat) returns (x: nat)
    requires b < 256 && MaskSize(k, m)
    ensures x == b % m
  {
    MaskIs(b, k, m);
    x := And(b, m - 1);
  }

  /** `x << k`, where nothing is lost. */
  method ShiftLeft(x: nat, k: nat, ghost p: nat) returns (r: nat)
    requires Place(k, p) && x < TWO_31 && x * p < TWO_31
    ensures r == x * p
  {
    ShlIs(x, k, p);
    r := Shl(x, k);
  }

  /** `left | right`, where no bit is set in both. */
  method Union(left: nat, right: nat, ghost x: nat, ghost k: nat, ghost p: nat) returns (r: nat)
    requires Place(k, p) && left == x * p && right < p && left + right < TWO_31
    ensures r == left + right
  {
    OrIs(x, k, p, right);
    r := Or(left, right);
  }

  predicate MaskSize(k: nat, m: nat) {
    (k == 4 && m == 16) || (k == 7 && m == 128) || (k == 8 && m == 256)
  }

  lemma MaskIs(b: nat, k: nat, m: nat)
    requires b < 256 && MaskSize(k, m)
    ensures And(b, m - 1) == b % m
  {
    SmallPowers();
    Masked(b, k);
    LowHigh(b, k);
    TimesLinear(Halved(b, k), k);
    Remainder(b, Halved(b, k), Low(b, k), k, m);
  }

  lemma SmallPowers()
    ensures Times(1, 4) == 16 && Times(1, 7) == 128 && Times(1, 8) == 256
  {
    Doubles(1);
    Doubles(16);
    TimesTimes(1, 4, 3);
    TimesTimes(1, 4, 4);
  }

  lemma Remainder(b: nat, q: nat, r: nat, k: nat, m: nat)
    requires MaskSize(k, m)
    requires b == q * m + r && r < m
    ensures b % m == r
  {
    if k == 4 {
      assert b == q * 16 + r;
    } else if k == 7 {
      assert b == q * 128 + r;
    } else {
      assert b == q * 256 + r;
    }
  }

  /** The mask on the first byte is what drops the sign bit. */
  lemma SignBitGone(b0: nat, rest: nat)
    requires b0 < 256 && rest < 0x100_0000
    ensures (b0 % 128) * 0x100_0000 + rest == (b0 * 0x100_0000 + rest) % TWO_31
  {
    assert b0 == b0 / 128 * 128 + b0 % 128;
  }

  lemma ShlIs(x: nat, k: nat, p: nat)
    requires Place(k, p)
    requires x * p < TWO_31 && x < TWO_31
    ensures Shl(x, k) == x * p
  {
    PlaceValue(x, k, p);
    ModSmall(x);
    ModSmall(Times(x, k));
  }

  lemma OrIs(x: nat, k: nat, p: nat, y: nat)
    requires Place(k, p)
    requires x * p + y < TWO_31 && y < p
    ensures Or(x * p, y) == x * p + y
  {
    PlaceValue(x, k, p);
    OrDisjoint(x, k, y);
    ModSmall(x * p);
    ModSmall(y);
    ModSmall(x * p + y);
  }

  /** Every code has six digits and reads back as the truncated number. */
  lemma CodeShape(digest: seq<byte>)
    ensures SixDigits(CodeOf(digest)) && Decimals.Read(CodeOf(digest)) == Truncated(digest) % MODULUS
  {
    var n := Truncated(digest) % MODULUS;
    Decimals.ReadPrint(n);
    MillionDigits();
    Decimals.PrintLength(n, DIGITS);
    Decimals.ReadPadStart(Decimals.Print(n), DIGITS);
  }

  /** The example of section 5.4 of RFC 4226. */
  lemma Rfc4226Example(digest: seq<byte>)
    requires digest == [0x1F, 0x86, 0x98, 0x69, 0x0E, 0x02, 0xCA, 0x16, 0x61, 0x85,
                        0x50, 0xEF, 0x7F, 0x19, 0xDA, 0x8E, 0x94, 0x5B, 0x55, 0x5A]
    ensures Truncated(digest) == 0x50EF_7F19 && CodeOf(digest) == "872921"
  {
    assert Decimals.Print(87) == "87";
    assert Decimals.Print(8_729) == "8729";
    assert Decimals.Print(872_921) == "872921";
  }

  lemma MillionDigits()
    ensures Decimals.TenTo(DIGITS) == MODULUS
  {
    assert Decimals.TenTo(2) == 100;
    assert Decimals.TenTo(4) == 10_000;
  }

  // ----- verification -----

  predicate SixDigits(code: string) {
    |code| == DIGITS && Decimals.AllDigits(code)
  }

  function WithoutSpaces(s: string): string {
    if s == "" then "" else if IsSpace(s[0]) then WithoutSpaces(s[1..]) else [s[0]] + WithoutSpaces(s[1..])
  }

  function StepOf(timestamp: int): int {
    timestamp / STEP_MS
  }

  /** Times of the table in appendix B of RFC 6238, in milliseconds. */
  lemma Rfc6238Steps()
    ensures StepOf(59_000) == 1 && StepOf(1_111_111_109_000) == 0x23523EC && StepOf(20_000_000_000_000) == 0x27BC86AA
  {
  }

  /** The answer of a search through the counters from one on to another. */
  function Search(hmac: Hmac, secret: string, code: string, from: int, to: int): Option<bool>
    decreases Max(0, to - from + 1)
  {
    if from > to then Some(false)
    else if from < 0 then Search(hmac, secret, code, from + 1, to)
    else
      match Hotp(hmac, secret, from)
      case None => None
      case Some(candidate) =>
        if candidate == code then Some(true) else Search(hmac, secret, code, from + 1, to)
  }

  function Verified(hmac: Hmac, secret: string, code: string, timestamp: int, window: int): Option<bool> {
    var normalized := WithoutSpaces(code);
    if SixDigits(normalized)
    then Search(hmac, secret, normalized, StepOf(timestamp) - window, StepOf(timestamp) + window)
    else Some(false)
  }

  method VerifyTotpCode(hmac: Hmac, secret: string, code: string, timestamp: int, window: int)
    returns (r: Option<bool>)
    ensures r == Verified(hmac, secret, code, timestamp, window)
  {
    var normalizedCode := WithoutSpaces(code);
    if !SixDigits(normalizedCode) {
      return Some(false);
    }
    var currentCounter := StepOf(timestamp);
    var offset := -window;
    while offset <= window
      invariant Search(hmac, secret, normalizedCode, currentCounter + offset, currentCounter + window)
             == Verified(hmac, secret, code, timestamp, window)
      decreases window - offset
    {
      var candidateCounter := currentCounter + offset;
      if candidateCounter >= 0 {
        var candidate := GenerateHotp(hmac, secret, candidateCounter);
        if candidate.None? {
          return None;
        }
        if candidate.value == normalizedCode {
          return Some(true);
        }
      }
      offset := offset + 1;
    }
    return Some(false);
  }

  ghost predicate Matches(hmac: Hmac, secret: string, code: string, from: int, to: int) {
    exists c: nat :: from <= c <= to && Hotp(hmac, secret, c) == Some(code)
  }

  lemma {:induction false} SearchFinds(hmac: Hmac, secret: string, code: string, from: int, to: int)
    requires Decode(secret).Some? && to < COUNTER_LIMIT
    ensures Search(hmac, secret, code, from, to).Some?
    ensures Search(hmac, secret, code, from, to).value <==> Matches(hmac, secret, code, from, to)
    decreases Max(0, to - from + 1)
  {
    if from <= to {
      SearchFinds(hmac, secret, code, from + 1, to);
      MatchesHere(hmac, secret, code, from, to);
    }
  }

  lemma MatchesHere(hmac: Hmac, secret: string, code: string, from: int, to: int)
    requires from <= to
    ensures Matches(hmac, secret, code, from, to) <==>
      (from >= 0 && Hotp(hmac, secret, from) == Some(code)) || Matches(hmac, secret, code, from + 1, to)
  {
    if Matches(hmac, secret, code, from, to) {
      var c: nat :| from <= c <= to && Hotp(hmac, secret, c) == Some(code);
      assert c == from || from + 1 <= c;
    }
  }

  lemma CodesHaveSixDigits(hmac: Hmac, secret: string, counter: nat, code: string)
    requires Hotp(hmac, secret, counter) == Some(code)
    ensures SixDigits(code)
  {
    CodeShape(hmac(Decode(secret).value, BigEndian(counter, 8)));
  }

  lemma NothingElseMatches(hmac: Hmac, secret: string, code: string, from: int, to: int)
    requires !SixDigits(code)
    ensures !Matches(hmac, secret, code, from, to)
  {
    forall c: nat | from <= c <= to && Hotp(hmac, secret, c) == Some(code) ensures false {
      CodesHaveSixDigits(hmac, secret, c, code);
    }
  }

  /** A usable secret: the answer is yes exactly for a code of some counter in the window. */
  lemma VerifiedExactly(hmac: Hmac, secret: string, code: string, timestamp: int, window: int)
    requires Decode(secret).Some? && StepOf(timestamp) + window < COUNTER_LIMIT
    ensures Verified(hmac, secret, code, timestamp, window).Some?
    ensures Verified(hmac, secret, code, timestamp, window).value <==>
      Matches(hmac, secret, WithoutSpaces(code), StepOf(timestamp) - window, StepOf(timestamp) + window)
  {
    var normalized := WithoutSpaces(code);
    if SixDigits(normalized) {
      SearchFinds(hmac, secret, normalized, StepOf(timestamp) - window, StepOf(timestamp) + window);
    } else {
      NothingElseMatches(hmac, secret, normalized, StepOf(timestamp) - window, StepOf(timestamp) + window);
    }
  }

  /** A secret that does not decode: the failure shows only when a code is well formed and a counter is tried. */
  lemma BrokenSecretExactly(hmac: Hmac, secret: string, code: string, timestamp: int, window: int)
    requires Decode(secret).None?
    ensures Verified(hmac, secret, code, timestamp, window)
         == if SixDigits(WithoutSpaces(code)) && window >= 0 && StepOf(timestamp) + window >= 0 then None else Some(false)
  {
    if SixDigits(WithoutSpaces(code)) {
      BrokenSearch(hmac, secret, WithoutSpaces(code), StepOf(timestamp) - window, StepOf(timestamp) + window);
    }
  }

  lemma {:induction false} BrokenSearch(hmac: Hmac, secret: string, code: string, from: int, to: int)
    requires Decode(secret).None?
    ensures Search(hmac, secret, code, from, to) == (if from <= to && to >= 0 then None else Some(false))
    decreases Max(0, to - from + 1)
  {
    if from <= to {
      BrokenSearch(hmac, secret, code, from + 1, to);
    }
  }

  lemma {:induction false} NoSpaces(s: string)
    requires Decimals.AllDigits(s)
    ensures WithoutSpaces(s) == s
  {
    if s != "" {
      NoSpaces(s[1..]);
    }
  }

  /** A code made when the clocks differ by no more than the window is accepted, also with a secret shown in groups. */
  lemma FreshCodeAccepted(hmac: Hmac, key: seq<byte>, secret: string, made: nat, used: nat, window: nat)
    requires secret == Encode(key) || secret == Base32Proofs.Grouped(Encode(key))
    requires used - window * STEP_MS <= made <= used + window * STEP_MS
    requires StepOf(used) + window < COUNTER_LIMIT
    ensures Hotp(hmac, secret, StepOf(made)) == Some(CodeOf(hmac(key, BigEndian(StepOf(made), 8))))
    ensures Verified(hmac, secret, CodeOf(hmac(key, BigEndian(StepOf(made), 8))), used, window) == Some(true)
  {
    Base32Proofs.RoundTrip(key);
    Base32Proofs.GroupedRoundTrip(key);
    var c: nat := StepOf(made);
    var code := CodeOf(hmac(key, BigEndian(c, 8)));
    CodeShape(hmac(key, BigEndian(c, 8)));
    NoSpaces(code);
    StepsApart(made, used, window);
    assert Hotp(hmac, secret, c) == Some(code);
    VerifiedExactly(hmac, secret, code, used, window);
  }

  lemma StepsApart(made: nat, used: nat, window: nat)
    requires used - window * STEP_MS <= made <= used + window * STEP_MS
    ensures StepOf(used) - window <= StepOf(made) <= StepOf(used) + window
  {
    assert (used + window * STEP_MS) / STEP_MS == used / STEP_MS + window;
    assert (made + window * STEP_MS) / STEP_MS == made / STEP_MS + window;
  }
}
