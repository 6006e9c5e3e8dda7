/** Decimal notation, as `String(n)` prints a number and `Number(s)` reads a run of digits. */
module Decimals {

  predicate IsDigit(c: char) {
    '0' <= c <= '9'
  }

  function DigitOf(d: nat): char
    requires d < 10
  {
    (('0' as nat) + d) as char
  }

  function ValueOf(c: char): nat
    requires IsDigit(c)
  {
    (c as nat) - ('0' as nat)
  }

  predicate AllDigits(s: string) {
    forall i :: 0 <= i < |s| ==> IsDigit(s[i])
  }

  function Print(n: nat): (s: string)
    ensures s != ""
  {
    if n < 10 then [DigitOf(n)] else Print(n / 10) + [DigitOf(n % 10)]
  }

  function Read(s: string): nat
    requires AllDigits(s)
  {
    if s == "" then 0 else 10 * Read(s[..|s| - 1]) + ValueOf(s[|s| - 1])
  }

  function PadStart(s: string, width: nat): (r: string)
    ensures |r| == if |s| < width then width else |s|
    decreases width - |s|
  {
    if |s| >= width then s else PadStart("0" + s, width)
  }

  lemma DigitValue(d: nat)
    requires d < 10
    ensures IsDigit(DigitOf(d)) && ValueOf(DigitOf(d)) == d
  {
  }

  lemma ReadSnoc(s: string, c: char)
    requires AllDigits(s) && IsDigit(c)
    ensures AllDigits(s + [c]) && Read(s + [c]) == 10 * Read(s) + ValueOf(c)
  {
    assert (s + [c])[..|s|] == s;
  }

  lemma {:induction false} ReadPrint(n: nat)
    ensures AllDigits(Print(n)) && Read(Print(n)) == n
  {
    DigitValue(n % 10);
    if n >= 10 {
      ReadPrint(n / 10);
      ReadSnoc(Print(n / 10), DigitOf(n % 10));
    } else {
      ReadSnoc("", DigitOf(n));
      assert "" + [DigitOf(n)] == [DigitOf(n)];
    }
  }

  lemma PrintInjective(m: nat, n: nat)
    requires Print(m) == Print(n)
    ensures m == n
  {
    ReadPrint(m);
    ReadPrint(n);
  }

  lemma {:induction false} ReadLeadingZero(s: string)
    requires AllDigits(s)
    ensures AllDigits("0" + s) && Read("0" + s) == Read(s)
  {
    if s == "" {
      assert "0" + s == "0" && "0"[..0] == "";
    } else {
      var n := |s| - 1;
      ReadLeadingZero(s[..n]);
      assert ("0" + s)[..n + 1] == "0" + s[..n];
    }
  }

  lemma {:induction false} ReadPadStart(s: string, width: nat)
    requires AllDigits(s)
    ensures AllDigits(PadStart(s, width)) && Read(PadStart(s, width)) == Read(s)
    decreases width - |s|
  {
    if |s| < width {
      ReadLeadingZero(s);
      ReadPadStart("0" + s, width);
    }
  }

  /** A number below 10^k has at most k digits. */
  function TenTo(k: nat): nat {
    if k == 0 then 1 else 10 * TenTo(k - 1)
  }

  lemma {:induction false} PrintLength(n: nat, k: nat)
    requires n < TenTo(k) && k > 0
    ensures |Print(n)| <= k
  {
    if n >= 10 {
      assert k > 1;
      PrintLength(n / 10, k - 1);
    }
  }
}
