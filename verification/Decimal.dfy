/** Decimal numerals as BigInt prints and reads them, and the string edits the agent applies to them. */
module Decimal {
  import opened Prelude

  predicate IsDigit(c: char) { '0' <= c <= '9' }

  predicate AllDigits(s: string) {
    forall i :: 0 <= i < |s| ==> IsDigit(s[i])
  }

  function Digit(n: nat): char
    requires n < 10
  {
    '0' + n as char
  }

  function DigitValue(c: char): nat
    requires IsDigit(c)
  {
    (c - '0') as nat
  }

  /** BigInt.toString: no leading zeros except for zero itself. */
  function Digits(n: nat): (s: string)
    ensures AllDigits(s) && |s| >= 1
  {
    (if n < 10 then "" else Digits(n / 10)) + [Digit(n % 10)]
  }

  function Value(s: string): nat
    requires AllDigits(s)
  {
    if s == "" then 0 else Value(s[..|s| - 1]) * 10 + DigitValue(s[|s| - 1])
  }

  /** BigInt(text) on an unsigned decimal; the empty string reads as zero and anything else throws. */
  function ParseNat(s: string): Option<nat> {
    if AllDigits(s) then Some(Value(s)) else None
  }

  function Pow10(n: nat): (p: nat)
    ensures p >= 1
  {
    if n == 0 then 1 else 10 * Pow10(n - 1)
  }

  /** n followed by k zeros. */
  function Shift(n: nat, k: nat): nat {
    if k == 0 then n else 10 * Shift(n, k - 1)
  }

  function Zeros(n: nat): (s: string)
    ensures |s| == n && AllDigits(s)
  {
    seq(n, _ => '0')
  }

  function PadStart(s: string, width: nat): string {
    if |s| >= width then s else Zeros(width - |s|) + s
  }

  function StripTrailingZeros(s: string): (t: string)
    ensures t <= s
  {
    if s != "" && s[|s| - 1] == '0' then StripTrailingZeros(s[..|s| - 1]) else s
  }

  function StripLeadingZeros(s: string): string {
    if s != "" && s[0] == '0' then StripLeadingZeros(s[1..]) else s
  }

  lemma {:induction false} PrintThenRead(n: nat)
    ensures Value(Digits(n)) == n && ParseNat(Digits(n)) == Some(n)
  {
    var s := Digits(n);
    if n >= 10 {
      PrintThenRead(n / 10);
      assert s[..|s| - 1] == Digits(n / 10);
    } else {
      assert s[..|s| - 1] == "";
    }
  }

  /** A text is a number iff it has nothing but digits; the empty one is zero, and a further digit shifts by ten. */
  lemma ParseNatReads(s: string, c: char)
    ensures ParseNat(s).Some? <==> forall i :: 0 <= i < |s| ==> '0' <= s[i] <= '9'
    ensures ParseNat("") == Some(0)
    ensures ParseNat(s).Some? && '0' <= c <= '9' ==>
              ParseNat(s + [c]) == Some(ParseNat(s).value * 10 + (c as int - '0' as int))
  {
    assert (s + [c])[..|s|] == s;
  }

  /** BigInt prints no leading zero. */
  lemma {:induction false} NoLeadingZero(n: nat)
    ensures n > 0 ==> Digits(n)[0] != '0'
    ensures n == 0 ==> Digits(n) == "0"
  {
    if n >= 10 {
      NoLeadingZero(n / 10);
      assert Digits(n)[0] == Digits(n / 10)[0];
    }
  }

  lemma {:induction false} DigitsFit(n: nat, width: nat)
    requires n < Pow10(width) && width >= 1
    ensures |Digits(n)| <= width
  {
    if n >= 10 {
      DigitsFit(n / 10, width - 1);
    }
  }

  lemma {:induction false} ShiftIsProduct(n: nat, k: nat)
    ensures Shift(n, k) == n * Pow10(k)
  {
    if k > 0 {
      ShiftIsProduct(n, k - 1);
      assert n * Pow10(k) == 10 * (n * Pow10(k - 1));
    }
  }

  lemma {:induction false} ShiftAdd(a: nat, b: nat, k: nat)
    ensures Shift(a + b, k) == Shift(a, k) + Shift(b, k)
  {
    if k > 0 {
      ShiftAdd(a, b, k - 1);
    }
  }

  lemma {:induction false} ShiftTwice(n: nat, j: nat, k: nat)
    ensures Shift(Shift(n, j), k) == Shift(n, j + k)
  {
    if k > 0 {
      ShiftTwice(n, j, k - 1);
    }
  }

  lemma {:induction false} ValueConcat(a: string, b: string)
    requires AllDigits(a) && AllDigits(b)
    ensures AllDigits(a + b) && Value(a + b) == Shift(Value(a), |b|) + Value(b)
  {
    if b == "" {
      assert a + b == a;
    } else {
      var b' := b[..|b| - 1];
      ValueConcat(a, b');
      assert (a + b)[..|a + b| - 1] == a + b';
    }
  }

  lemma {:induction false} ValueZeros(n: nat)
    ensures Value(Zeros(n)) == 0
  {
    if n > 0 {
      assert Zeros(n)[..n - 1] == Zeros(n - 1);
      ValueZeros(n - 1);
    }
  }

  lemma PadKeepsValue(s: string, width: nat)
    requires AllDigits(s)
    ensures AllDigits(PadStart(s, width)) && Value(PadStart(s, width)) == Value(s)
    ensures |PadStart(s, width)| == Max(|s|, width)
  {
    if |s| < width {
      ValueConcat(Zeros(width - |s|), s);
      ValueZeros(width - |s|);
      ShiftIsProduct(0, |s|);
    }
  }

  lemma {:induction false} StripScales(s: string)
    requires AllDigits(s)
    ensures var t := StripTrailingZeros(s);
            && AllDigits(t) && Value(s) == Shift(Value(t), |s| - |t|)
            && (t == "" || t[|t| - 1] != '0')
  {
    if s != "" && s[|s| - 1] == '0' {
      var s' := s[..|s| - 1];
      StripScales(s');
    }
  }
}
