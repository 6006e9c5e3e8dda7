/**
 JavaScript's bit operators on numbers. `<<`, `&` and `|` take their operands modulo 2^32 and
 return a signed 32-bit result; `>>>` returns an unsigned one.
 */
module JsInt32 {

  const TWO_32 := 0x1_0000_0000
  const TWO_31 := 0x8000_0000

  function ToUint32(x: int): (u: nat)
    ensures u < TWO_32
  {
    x % TWO_32
  }

  function ToInt32(x: int): int {
    if ToUint32(x) < TWO_31 then ToUint32(x) else ToUint32(x) - TWO_32
  }

  /** Doubled k times. */
  function Times(x: nat, k: nat): nat {
    if k == 0 then x else 2 * Times(x, k - 1)
  }

  /** Halved k times. */
  function Halved(x: nat, k: nat): nat {
    if k == 0 then x else Halved(x / 2, k - 1)
  }

  /** The k lowest bits. */
  function Low(x: nat, k: nat): nat {
    if k == 0 then 0 else 2 * Low(x / 2, k - 1) + x % 2
  }

  function AndBits(a: nat, b: nat): nat {
    if a == 0 || b == 0 then 0
    else 2 * AndBits(a / 2, b / 2) + if a % 2 == 1 && b % 2 == 1 then 1 else 0
  }

  function OrBits(a: nat, b: nat): nat {
    if a == 0 then b
    else if b == 0 then a
    else 2 * OrBits(a / 2, b / 2) + if a % 2 == 1 || b % 2 == 1 then 1 else 0
  }

  function Shl(x: int, k: nat): int {
    ToInt32(Times(ToUint32(x), k % 32))
  }

  function ShrU(x: int, k: nat): nat {
    Halved(ToUint32(x), k % 32)
  }

  function And(x: int, y: int): int {
    ToInt32(AndBits(ToUint32(x), ToUint32(y)))
  }

  function Or(x: int, y: int): int {
    ToInt32(OrBits(ToUint32(x), ToUint32(y)))
  }

  function Not(x: int): int {
    -ToInt32(x) - 1
  }

  // ----- laws -----

  lemma SignIrrelevant(x: int)
    ensures ToUint32(ToInt32(x)) == ToUint32(x)
  {
  }

  lemma {:induction false} LowHigh(x: nat, k: nat)
    ensures x == Times(Halved(x, k), k) + Low(x, k)
    ensures Low(x, k) < Times(1, k)
  {
    if k > 0 {
      LowHigh(x / 2, k - 1);
    }
  }

  lemma {:induction false} LowOfSmall(x: nat, k: nat)
    requires x < Times(1, k)
    ensures Low(x, k) == x && Halved(x, k) == 0
  {
    if k > 0 {
      LowOfSmall(x / 2, k - 1);
    }
  }

  lemma {:induction false} LowLow(x: nat, j: nat, k: nat)
    requires j <= k
    ensures Low(Low(x, k), j) == Low(x, j)
  {
    if j > 0 {
      assert Low(x, k) / 2 == Low(x / 2, k - 1) && Low(x, k) % 2 == x % 2;
      LowLow(x / 2, j - 1, k - 1);
    }
  }

  /** A window of bits may be cut from below or from above first. */
  lemma {:induction false} LowOfHalved(x: nat, k: nat, j: nat)
    ensures Low(Halved(x, k), j) == Halved(Low(x, k + j), k)
  {
    if k > 0 {
      LowOfHalved(x / 2, k - 1, j);
      assert Low(x, k + j) / 2 == Low(x / 2, k - 1 + j);
    }
  }

  lemma {:induction false} LowOfShifted(x: nat, s: nat, b: nat, k: nat)
    requires b < Times(1, s)
    ensures Low(Times(x, s) + b, k + s) == Times(Low(x, k), s) + b
  {
    if s > 0 {
      LowOfShifted(x, s - 1, b / 2, k);
      assert (Times(x, s) + b) / 2 == Times(x, s - 1) + b / 2 && (Times(x, s) + b) % 2 == b % 2;
    }
  }

  lemma {:induction false} AndLow(a: nat, k: nat)
    ensures Times(1, k) > 0 && AndBits(a, Times(1, k) - 1) == Low(a, k)
  {
    if k > 0 {
      AndLow(a / 2, k - 1);
      assert (Times(1, k) - 1) / 2 == Times(1, k - 1) - 1 && (Times(1, k) - 1) % 2 == 1;
      if a == 0 {
        LowOfSmall(0, k);
      }
    }
  }

  lemma {:induction false} TimesPositive(k: nat, n: nat)
    requires k <= n
    ensures 0 < Times(1, k) <= Times(1, n)
  {
    if k < n {
      TimesPositive(k, n - 1);
    } else if k > 0 {
      TimesPositive(k - 1, k - 1);
    }
  }

  /** Clearing the k lowest of n bits. */
  lemma {:induction false} AndHigh(a: nat, k: nat, n: nat)
    requires k <= n && a < Times(1, n)
    ensures Times(1, k) <= Times(1, n) && AndBits(a, Times(1, n) - Times(1, k)) == a - Low(a, k)
  {
    TimesPositive(k, n);
    if k == 0 {
      AndLow(a, n);
      LowOfSmall(a, n);
    } else {
      AndHigh(a / 2, k - 1, n - 1);
      var m := Times(1, n) - Times(1, k);
      assert m / 2 == Times(1, n - 1) - Times(1, k - 1) && m % 2 == 0;
      LowHigh(a, k);
      LowHigh(a / 2, k - 1);
      if a == 0 {
        LowOfSmall(0, k);
      } else if m == 0 {
        assert AndBits(a / 2, m / 2) == 0;
        AndAllMasked(a, k, n);
      }
    }
  }

  lemma {:induction false} AndAllMasked(a: nat, k: nat, n: nat)
    requires k <= n && a < Times(1, n) && Times(1, n) == Times(1, k)
    ensures Low(a, k) == a
  {
    LowOfSmall(a, k);
  }

  /** Filling bits that are zero. */
  lemma {:induction false} OrDisjoint(a: nat, k: nat, b: nat)
    requires b < Times(1, k)
    ensures OrBits(Times(a, k), b) == Times(a, k) + b
  {
    if k > 0 {
      OrDisjoint(a, k - 1, b / 2);
      assert Times(a, k) / 2 == Times(a, k - 1) && Times(a, k) % 2 == 0;
    }
  }

  lemma {:induction false} TimesAdd(a: nat, b: nat, k: nat)
    ensures Times(a + b, k) == Times(a, k) + Times(b, k)
  {
    if k > 0 {
      TimesAdd(a, b, k - 1);
    }
  }

  lemma {:induction false} TimesTimes(a: nat, j: nat, k: nat)
    ensures Times(Times(a, j), k) == Times(a, j + k)
  {
    if k > 0 {
      TimesTimes(a, j, k - 1);
    }
  }

  lemma Powers()
    ensures Times(1, 0) == 1 && Times(1, 5) == 32 && Times(1, 8) == 256 && Times(1, 16) == 0x1_0000
    ensures Times(1, 24) == 0x100_0000 && Times(1, 31) == TWO_31 && Times(1, 32) == TWO_32
  {
    Doubles(1);
    Doubles(32);
    Doubles(0x400);
    Doubles(0x8000);
    Doubles(0x10_0000);
    Doubles(0x200_0000);
    TimesTimes(1, 5, 5);
    TimesTimes(1, 10, 5);
    TimesTimes(1, 15, 5);
    TimesTimes(1, 20, 5);
    TimesTimes(1, 25, 5);
  }

  lemma Doubles(x: nat)
    ensures Times(x, 1) == 2 * x && Times(x, 2) == 4 * x && Times(x, 3) == 8 * x && Times(x, 4) == 16 * x && Times(x, 5) == 32 * x
  {
    assert Times(x, 2) == 2 * Times(x, 1);
    assert Times(x, 3) == 2 * Times(x, 2);
    assert Times(x, 4) == 2 * Times(x, 3);
    assert Times(x, 5) == 2 * Times(x, 4);
  }

  lemma ShiftOr(value: int, s: nat, chunk: nat)
    requires s < 32 && chunk < Times(1, s)
    ensures ToUint32(Or(Shl(value, s), chunk)) == Times(Low(ToUint32(value), 32 - s), s) + chunk
  {
    var w := Low(ToUint32(value), 32 - s);
    ShlUnsigned(value, s);
    WrappedSum(ToUint32(value), s, chunk);
    ModSmall(chunk);
    OrUnsigned(Shl(value, s), chunk);
    OrDisjoint(w, s, chunk);
    ModSmall(Times(w, s) + chunk);
  }

  lemma ShlUnsigned(value: int, s: nat)
    requires s < 32
    ensures ToUint32(Shl(value, s)) == Times(Low(ToUint32(value), 32 - s), s)
  {
    ShiftWraps(ToUint32(value), s);
    SignIrrelevant(Times(ToUint32(value), s));
  }

  lemma OrUnsigned(x: int, y: int)
    ensures ToUint32(Or(x, y)) == ToUint32(OrBits(ToUint32(x), ToUint32(y)))
  {
    SignIrrelevant(OrBits(ToUint32(x), ToUint32(y)));
  }

  lemma ModSmall(x: nat)
    ensures x < TWO_32 ==> ToUint32(x) == x
  {
  }

  lemma ModSum(h: nat, r: nat)
    requires r < TWO_32
    ensures ToUint32(h * TWO_32 + r) == r
  {
  }

  lemma ShiftWraps(u: nat, s: nat)
    requires s <= 32 && u < TWO_32
    ensures ToUint32(Times(u, s)) == Times(Low(u, 32 - s), s)
  {
    ShiftSplits(u, s);
    WrappedSum(u, s, 0);
    ModSum(Halved(u, 32 - s), Times(Low(u, 32 - s), s));
  }

  /** What leaves the word on the left is a multiple of 2^32. */
  lemma ShiftSplits(u: nat, s: nat)
    requires s <= 32
    ensures Times(u, s) == Halved(u, 32 - s) * TWO_32 + Times(Low(u, 32 - s), s)
  {
    var w, h := Low(u, 32 - s), Halved(u, 32 - s);
    LowHigh(u, 32 - s);
    TimesAdd(Times(h, 32 - s), w, s);
    TimesTimes(h, 32 - s, s);
    TimesLinear(h, 32);
    WholeWord();
  }

  lemma WholeWord()
    ensures Times(1, 32) == TWO_32
  {
    Powers();
  }

  lemma WrappedSum(u: nat, s: nat, chunk: nat)
    requires s <= 32
    ensures Times(Low(u, 32 - s), s) < TWO_32
    ensures chunk < Times(1, s) ==> Times(Low(u, 32 - s), s) + chunk < TWO_32
  {
    WholeWord();
    TimesPositive(0, s);
    LowHigh(u, 32 - s);
    TimesBelow(Low(u, 32 - s), 32 - s, s);
  }

  lemma {:induction false} TimesLinear(h: nat, k: nat)
    ensures Times(h, k) == h * Times(1, k)
  {
    if k > 0 {
      TimesLinear(h, k - 1);
    }
  }

  lemma {:induction false} TimesBelow(w: nat, j: nat, s: nat)
    requires w < Times(1, j)
    ensures Times(w, s) + Times(1, s) <= Times(1, j + s)
  {
    if s > 0 {
      TimesBelow(w, j, s - 1);
    }
  }

  /** Masking s low bits, s < 32, gives them as they are. */
  lemma Masked(x: nat, s: nat)
    requires s < 32 && x < TWO_32
    ensures 0 < Times(1, s) && And(x, Times(1, s) - 1) == Low(x, s) < Times(1, s)
  {
    Powers();
    TimesPositive(s, 31);
    AndLow(x, s);
    LowHigh(x, s);
    ModSmall(x);
    ModSmall(Times(1, s) - 1);
    ModSmall(Low(x, s));
  }

  lemma {:induction false} HalvedBelow(u: nat, k: nat)
    ensures Halved(u, k) <= u
  {
    if k > 0 {
      HalvedBelow(u / 2, k - 1);
    }
  }

  lemma AndUnsigned(x: int, y: int)
    ensures And(ToUint32(x), y) == And(x, y)
  {
    ModSmall(ToUint32(x));
  }

  lemma Shifted(value: int, k: nat)
    requires k < 32
    ensures ShrU(value, k) == Halved(ToUint32(value), k) < TWO_32
  {
    HalvedBelow(ToUint32(value), k);
  }

  /** The places of the four bytes of a word. */
  predicate Place(k: nat, p: nat) {
    (k == 24 && p == 0x100_0000) || (k == 16 && p == 0x1_0000) || (k == 8 && p == 0x100) || (k == 0 && p == 1)
  }

  lemma PlaceValue(x: nat, k: nat, p: nat)
    requires Place(k, p)
    ensures Times(1, k) == p && Times(x, k) == x * p
  {
    Powers();
    TimesLinear(x, k);
  }
}
