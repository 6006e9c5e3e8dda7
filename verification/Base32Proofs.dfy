/**
 What the two-factor secrets rely on: decoding undoes encoding, also after the panel has
 grouped the secret for display, and exactly which texts are encodings.
 */
module Base32Proofs {

  import opened Basics
  import opened JsStrings
  import opened JsInt32
  import opened Base32

  // ----- bits and characters -----

  lemma IndexOfChar(bits: seq<bool>)
    requires |bits| == 5
    ensures InAlphabet(CharOf(bits)) && FromNat(IndexOf(CharOf(bits)), 5) == bits
  {
    FromNatToNat(bits);
    WordSizes();
    IndexOfAt(ToNat(bits));
  }

  lemma IndexOfAt(n: nat)
    requires n < 32
    ensures InAlphabet(CharAt(n)) && IndexOf(CharAt(n)) == n && CharAt(n % 32) == CharAt(n)
  {
  }

  lemma CharOfIndex(c: char)
    requires InAlphabet(c)
    ensures CharOf(FromNat(IndexOf(c), 5)) == c
  {
    LowIndex(IndexOf(c));
    CharAtIndex(c);
  }

  lemma LowIndex(n: nat)
    requires n < 32
    ensures ToNat(FromNat(n, 5)) == n && n % 32 == n
  {
    WordSizes();
    ToNatFromNat(n, 5);
    LowOfSmall(n, 5);
  }

  lemma CharAtIndex(c: char)
    requires InAlphabet(c)
    ensures IndexOf(c) < 32 && CharAt(IndexOf(c)) == c
  {
  }

  lemma WordSizes()
    ensures Times(1, 5) == 32 && Times(1, 8) == 256
  {
    Powers();
  }

  lemma ByteOfBits(b: byte)
    ensures ByteOf(FromNat(b as nat, 8)) == b
  {
    WordSizes();
    ToNatFromNat(b as nat, 8);
    LowOfSmall(b as nat, 8);
  }

  lemma BitsOfByte(bits: seq<bool>)
    requires |bits| == 8
    ensures FromNat(ByteOf(bits) as nat, 8) == bits
  {
    ByteRange(bits);
    ByteMod(ToNat(bits));
  }

  lemma ByteRange(bits: seq<bool>)
    requires |bits| == 8
    ensures ToNat(bits) < 256 && FromNat(ToNat(bits), 8) == bits
  {
    WordSizes();
    FromNatToNat(bits);
  }

  lemma ByteMod(n: nat)
    requires n < 256
    ensures (n % 256) as byte as nat == n
  {
  }

  // ----- groups -----

  lemma {:induction false} CharsOfGroups(bits: seq<bool>, k: nat)
    requires |bits| == 5 * k
    ensures |Groups(bits, 5, CharOf)| == k && AllInAlphabet(Groups(bits, 5, CharOf))
    ensures CharBits(Groups(bits, 5, CharOf)) == bits
  {
    if k > 0 {
      var init, last := bits[..5 * (k - 1)], bits[5 * (k - 1)..];
      CharsOfGroups(init, k - 1);
      OneGroup(init, last, 5, k - 1, CharOf);
      IndexOfChar(last);
      assert init + last == bits;
      CharBitsSnoc(Groups(init, 5, CharOf), CharOf(last));
    }
  }

  lemma CharBitsSnoc(s: string, c: char)
    requires AllInAlphabet(s) && InAlphabet(c)
    ensures AllInAlphabet(s + [c]) && CharBits(s + [c]) == CharBits(s) + FromNat(IndexOf(c), 5)
  {
    assert (s + [c])[..|s|] == s;
  }

  lemma {:induction false} GroupsOfChars(s: string)
    requires AllInAlphabet(s)
    ensures Groups(CharBits(s), 5, CharOf) == s
  {
    if s != "" {
      var n := |s| - 1;
      GroupsOfChars(s[..n]);
      CharOfIndex(s[n]);
      OneGroup(CharBits(s[..n]), FromNat(IndexOf(s[n]), 5), 5, n, CharOf);
      assert s == s[..n] + [s[n]];
    }
  }

  lemma {:induction false} GroupsOfBytes(bytes: seq<byte>)
    ensures Groups(BitsOf(bytes), 8, ByteOf) == bytes
  {
    if bytes != [] {
      var n := |bytes| - 1;
      GroupsOfBytes(bytes[..n]);
      ByteOfBits(bytes[n]);
      OneGroup(BitsOf(bytes[..n]), FromNat(bytes[n] as nat, 8), 8, n, ByteOf);
      assert bytes == bytes[..n] + [bytes[n]];
    }
  }

  lemma {:induction false} BytesOfGroups(bits: seq<bool>, k: nat)
    requires |bits| == 8 * k
    ensures BitsOf(Groups(bits, 8, ByteOf)) == bits
  {
    if k > 0 {
      var init, last := bits[..8 * (k - 1)], bits[8 * (k - 1)..];
      BytesOfGroups(init, k - 1);
      OneGroup(init, last, 8, k - 1, ByteOf);
      BitsOfByte(last);
      assert init + last == bits;
      BitsOfSnoc(Groups(init, 8, ByteOf), ByteOf(last));
    }
  }

  lemma BitsOfSnoc(bytes: seq<byte>, b: byte)
    ensures BitsOf(bytes + [b]) == BitsOf(bytes) + FromNat(b as nat, 8)
  {
    assert (bytes + [b])[..|bytes|] == bytes;
  }

  // ----- encoding, then decoding -----

  /** An encoding has one character for each five bits begun, all of them from the alphabet. */
  lemma EncodeShape(bytes: seq<byte>)
    ensures |Encode(bytes)| == (8 * |bytes| + 4) / 5
    ensures AllInAlphabet(Encode(bytes)) && CharBits(Encode(bytes)) == Padded(BitsOf(bytes))
  {
    var padded := Padded(BitsOf(bytes));
    CharsOfGroups(padded, |padded| / 5);
  }

  lemma DecodeBits(bytes: seq<byte>, z: seq<bool>)
    requires |z| < 8
    ensures Groups(BitsOf(bytes) + z, 8, ByteOf) == bytes
  {
    NoGroup(BitsOf(bytes), z, 8, |bytes|, ByteOf);
    GroupsOfBytes(bytes);
  }

  lemma {:induction false} NormalizePlain(s: string)
    requires AllInAlphabet(s)
    ensures Normalize(s) == s
  {
    if s != "" {
      NormalizePlain(s[1..]);
      PlainChar(s[0]);
    }
  }

  lemma PlainChar(c: char)
    requires InAlphabet(c)
    ensures !IsSpace(c) && c != '-' && ToUpper(c) == [c]
  {
  }

  /** Whatever text normalizes to an encoding decodes to what was encoded. */
  lemma DecodesWhatNormalizes(bytes: seq<byte>, text: string)
    requires Normalize(text) == Encode(bytes)
    ensures Decode(text) == Some(bytes)
  {
    EncodeShape(bytes);
    var bits := BitsOf(bytes);
    DecodeBits(bytes, Padded(bits)[|bits|..]);
    assert Padded(bits) == bits + Padded(bits)[|bits|..];
  }

  lemma RoundTrip(bytes: seq<byte>)
    ensures Decode(Encode(bytes)) == Some(bytes)
  {
    EncodeShape(bytes);
    NormalizePlain(Encode(bytes));
    DecodesWhatNormalizes(bytes, Encode(bytes));
  }

  lemma EncodeInjective(a: seq<byte>, b: seq<byte>)
    requires Encode(a) == Encode(b)
    ensures a == b
  {
    RoundTrip(a);
    RoundTrip(b);
  }

  // ----- what a person may type -----

  /** The panel shows the secret in groups of four. */
  function Grouped(secret: string): string {
    if |secret| <= 4 then secret else secret[..4] + " " + Grouped(secret[4..])
  }

  function ToLower(c: char): char {
    if 'A' <= c <= 'Z' then ((c as int) - ('A' as int) + ('a' as int)) as char else c
  }

  function Lowered(s: string): (r: string)
    ensures |r| == |s|
  {
    if s == "" then "" else [ToLower(s[0])] + Lowered(s[1..])
  }

  lemma {:induction false} NormalizeConcat(a: string, b: string)
    ensures Normalize(a + b) == Normalize(a) + Normalize(b)
  {
    if a == "" {
      assert a + b == b;
    } else {
      NormalizeConcat(a[1..], b);
      assert (a + b)[1..] == a[1..] + b;
      Associative(Normalized(a[0]), Normalize(a[1..]), Normalize(b));
    }
  }

  lemma {:induction false} NormalizeGrouped(s: string)
    ensures Normalize(Grouped(s)) == Normalize(s)
  {
    if |s| > 4 {
      NormalizeGrouped(s[4..]);
      NormalizeConcat(s[..4] + " ", Grouped(s[4..]));
      NormalizeConcat(s[..4], " ");
      NormalizeConcat(s[..4], s[4..]);
      OneSpace();
      assert s == s[..4] + s[4..];
    }
  }

  lemma OneSpace()
    ensures Normalize(" ") == ""
  {
    assert " "[1..] == "";
  }

  lemma LowerChar(c: char)
    ensures IsSpace(ToLower(c)) == IsSpace(c) && (ToLower(c) == '-') == (c == '-')
    ensures ToUpper(ToLower(c)) == ToUpper(c)
  {
  }

  lemma {:induction false} NormalizeLowered(s: string)
    ensures Normalize(Lowered(s)) == Normalize(s)
  {
    if s != "" {
      NormalizeLowered(s[1..]);
      LowerChar(s[0]);
      assert Lowered(s)[1..] == Lowered(s[1..]);
    }
  }

  /** The secret as the panel shows it, typed in lower case, still decodes to the key. */
  lemma GroupedRoundTrip(bytes: seq<byte>)
    ensures Decode(Grouped(Encode(bytes))) == Some(bytes)
    ensures Decode(Lowered(Grouped(Encode(bytes)))) == Some(bytes)
  {
    EncodeShape(bytes);
    NormalizePlain(Encode(bytes));
    NormalizeGrouped(Encode(bytes));
    NormalizeLowered(Grouped(Encode(bytes)));
    DecodesWhatNormalizes(bytes, Grouped(Encode(bytes)));
    DecodesWhatNormalizes(bytes, Lowered(Grouped(Encode(bytes))));
  }

  /** A character the decoder neither drops nor knows. */
  predicate Unknown(c: char) {
    !IsSpace(c) && c != '-' && !AllInAlphabet(ToUpper(c))
  }

  /** Outside ASCII the decoder knows exactly these ten characters: the sharp s, the dotless i, the long s, and seven ligatures. */
  lemma KnownBeyondAscii(c: char)
    requires c as int >= 128 && !IsSpace(c)
    ensures !Unknown(c) <==>
      c in ['\U{00DF}', '\U{0131}', '\U{017F}', '\U{FB00}', '\U{FB01}', '\U{FB02}', '\U{FB03}', '\U{FB04}', '\U{FB05}', '\U{FB06}']
  {
    assert forall i :: 0 <= i < |ToUpper(c)| && ToUpper(c) != [c] ==> ToUpper(c)[i] in "SIFLT";
    if ToUpper(c) == [c] {
      assert ToUpper(c)[0] == c && !InAlphabet(c);
    }
  }

  /** Decoding fails exactly on texts with such a character. */
  lemma {:induction false} DecodeFailsExactly(s: string)
    ensures Decode(s).None? <==> exists i :: 0 <= i < |s| && Unknown(s[i])
  {
    NormalizedUnknown(s);
  }

  lemma {:induction false} NormalizedUnknown(s: string)
    ensures AllInAlphabet(Normalize(s)) <==> forall i :: 0 <= i < |s| ==> !Unknown(s[i])
  {
    if s != "" {
      NormalizedUnknown(s[1..]);
      forall i | 0 < i < |s| ensures s[i] == s[1..][i - 1] {}
      ConsKnown(s);
      BothInAlphabet(Normalized(s[0]), Normalize(s[1..]));
    }
  }

  lemma ConsKnown(s: string)
    requires s != ""
    ensures (forall i :: 0 <= i < |s| ==> !Unknown(s[i])) <==>
      (!Unknown(s[0]) && forall i :: 0 <= i < |s[1..]| ==> !Unknown(s[1..][i]))
  {
    if forall i :: 0 <= i < |s| ==> !Unknown(s[i]) {
      forall i | 0 <= i < |s[1..]| ensures !Unknown(s[1..][i]) {
        assert s[1..][i] == s[i + 1];
      }
    } else {
      var i :| 0 <= i < |s| && Unknown(s[i]);
      assert i > 0 ==> s[1..][i - 1] == s[i];
    }
  }

  lemma BothInAlphabet(a: string, b: string)
    ensures AllInAlphabet(a + b) <==> AllInAlphabet(a) && AllInAlphabet(b)
  {
    if AllInAlphabet(a + b) {
      forall i | 0 <= i < |a| ensures InAlphabet(a[i]) {
        assert (a + b)[i] == a[i];
      }
      forall i | 0 <= i < |b| ensures InAlphabet(b[i]) {
        assert (a + b)[|a| + i] == b[i];
      }
    }
  }

  // ----- decoding, then encoding -----

  /** The bits after the last whole byte. */
  function Leftover(s: string): seq<bool>
    requires AllInAlphabet(s)
  {
    var bits := CharBits(s);
    bits[8 * (|bits| / 8)..]
  }

  /** A text without spaces is the encoding of what it decodes to exactly when fewer than five bits are left over, all zero. */
  lemma CanonicalExactly(s: string, bytes: seq<byte>)
    requires AllInAlphabet(s) && Decode(s) == Some(bytes)
    ensures Encode(bytes) == s <==> |Leftover(s)| < 5 && Leftover(s) == Zeros(|Leftover(s)|)
  {
    NormalizePlain(s);
    var bits := CharBits(s);
    var k := |bits| / 8;
    SplitBytes(bits, k, bytes);
    if Encode(bytes) == s {
      EncodeShape(bytes);
      PaddingIs(bits[..8 * k], bits);
    }
    if |Leftover(s)| < 5 && Leftover(s) == Zeros(|Leftover(s)|) {
      Repadded(bits[..8 * k], Leftover(s), bits, |s|);
      GroupsOfChars(s);
    }
  }

  lemma SplitBytes(bits: seq<bool>, k: nat, bytes: seq<byte>)
    requires k == |bits| / 8 && bytes == Groups(bits, 8, ByteOf)
    ensures BitsOf(bytes) == bits[..8 * k]
  {
    NoGroup(bits[..8 * k], bits[8 * k..], 8, k, ByteOf);
    assert bits == bits[..8 * k] + bits[8 * k..];
    BytesOfGroups(bits[..8 * k], k);
  }

  lemma PaddingIs(bits: seq<bool>, padded: seq<bool>)
    requires padded == Padded(bits)
    ensures |padded[|bits|..]| < 5 && padded[|bits|..] == Zeros(|padded[|bits|..]|)
  {
    var z := 4 - (|bits| + 4) % 5;
    assert padded[|bits|..] == Zeros(z);
  }

  lemma Repadded(bits: seq<bool>, rest: seq<bool>, all: seq<bool>, k: nat)
    requires all == bits + rest && |all| == 5 * k && |rest| < 5 && rest == Zeros(|rest|)
    ensures Padded(bits) == all
  {
    var n := |rest|;
    assert 4 - (|bits| + 4) % 5 == n;
  }
}
