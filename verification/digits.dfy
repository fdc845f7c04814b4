/** Decimal digit strings and the natural numbers they denote. */
module Digits {

  /** The ASCII digits, which is what JavaScript's `\d` and `parseFloat` accept. */
  predicate IsDigit(c: char) {
    '0' <= c <= '9'
  }

  function DigitValue(c: char): (d: nat)
    requires IsDigit(c)
    ensures d < 10
  {
    c as int - '0' as int
  }

  function DigitChar(d: nat): (c: char)
    requires d < 10
    ensures IsDigit(c) && DigitValue(c) == d
  {
    ('0' as int + d) as char
  }

  predicate AllDigits(s: string) {
    forall i :: 0 <= i < |s| ==> IsDigit(s[i])
  }

  /** Every position in [i, j) of `s` holds a digit. */
  predicate DigitsBetween(s: string, i: nat, j: nat)
    requires i <= j <= |s|
  {
    forall k :: i <= k < j ==> IsDigit(s[k])
  }

  /** The end of the run of digits that starts at position `i` of `s`. */
  function RunEnd(s: string, i: nat): (j: nat)
    requires i <= |s|
    ensures i <= j <= |s| && DigitsBetween(s, i, j)
    ensures j == |s| || !IsDigit(s[j])
    decreases |s| - i
  {
    if i < |s| && IsDigit(s[i]) then RunEnd(s, i + 1) else i
  }

  /** A digit run ends at the first non-digit. */
  lemma RunEndUnique(s: string, i: nat, j: nat)
    requires i <= j <= |s| && DigitsBetween(s, i, j)
    requires j == |s| || !IsDigit(s[j])
    ensures RunEnd(s, i) == j
  {
  }

  /** A digit string between a prefix and a non-digit is read as one run. */
  lemma RunOf(pre: string, d: string, post: string)
    requires AllDigits(d)
    requires post == [] || !IsDigit(post[0])
    ensures RunEnd(pre + d + post, |pre|) == |pre| + |d|
    ensures (pre + d + post)[|pre|..|pre| + |d|] == d
  {
    var s := pre + d + post;
    assert forall k :: |pre| <= k < |pre| + |d| ==> s[k] == d[k - |pre|];
    assert |pre| + |d| < |s| ==> s[|pre| + |d|] == post[0];
    RunEndUnique(s, |pre|, |pre| + |d|);
  }

  function Pow10(k: nat): (p: nat)
    ensures p >= 1
  {
    if k == 0 then 1 else 10 * Pow10(k - 1)
  }

  /** The number a digit string denotes, most significant digit first; "" denotes 0. */
  function NatOf(s: string): nat
    requires AllDigits(s)
  {
    if s == [] then 0 else NatOf(s[..|s| - 1]) * 10 + DigitValue(s[|s| - 1])
  }

  /** The decimal rendering of `n` without leading zeros; zero is "0". */
  function ShowNat(n: nat): (s: string)
    ensures |s| > 0 && AllDigits(s)
  {
    if n < 10 then [DigitChar(n)] else ShowNat(n / 10) + [DigitChar(n % 10)]
  }

  /** `k` zero digits. */
  function Zeros(k: nat): (s: string)
    ensures |s| == k && AllDigits(s)
  {
    if k == 0 then [] else Zeros(k - 1) + "0"
  }

  /** Reading back a rendered number gives the number. */
  lemma {:induction false} ShowNatRoundTrip(n: nat)
    ensures NatOf(ShowNat(n)) == n
  {
    if n >= 10 {
      ShowNatRoundTrip(n / 10);
      var s := ShowNat(n);
      assert s[..|s| - 1] == ShowNat(n / 10);
    }
  }

  /** Only zero is rendered with a leading '0'. */
  lemma {:induction false} ShowNatNoLeadingZero(n: nat)
    ensures ShowNat(n)[0] == '0' <==> n == 0
  {
    if n >= 10 {
      ShowNatNoLeadingZero(n / 10);
    }
  }

  /** A number below 10^k needs at most k digits (zero needs one). */
  lemma {:induction false} ShowNatLength(n: nat, k: nat)
    requires n < Pow10(k)
    requires k > 0
    ensures |ShowNat(n)| <= k
  {
    if n >= 10 {
      assert k > 1;
      ShowNatLength(n / 10, k - 1);
    }
  }

  lemma AllDigitsAppend(a: string, b: string)
    requires AllDigits(a) && AllDigits(b)
    ensures AllDigits(a + b)
  {
    forall i | 0 <= i < |a + b| ensures IsDigit((a + b)[i]) {
      if i < |a| { assert (a + b)[i] == a[i]; } else { assert (a + b)[i] == b[i - |a|]; }
    }
  }

  /** The arithmetic of appending one digit: (x * p + y) * 10 + v == x * (p * 10) + (y * 10 + v). */
  lemma ShiftOneDigit(x: nat, p: nat, y: nat, v: nat)
    ensures (x * p + y) * 10 + v == x * (p * 10) + (y * 10 + v)
  {
  }

  /** Splitting a digit string: the left part is shifted by the length of the right part. */
  lemma {:induction false} NatOfAppend(a: string, b: string)
    requires AllDigits(a) && AllDigits(b)
    ensures AllDigits(a + b)
    ensures NatOf(a + b) == NatOf(a) * Pow10(|b|) + NatOf(b)
  {
    AllDigitsAppend(a, b);
    if b == [] {
      assert a + b == a;
    } else {
      var b' := b[..|b| - 1];
      var v := DigitValue(b[|b| - 1]);
      assert (a + b)[..|a + b| - 1] == a + b';
      assert (a + b)[|a + b| - 1] == b[|b| - 1];
      NatOfAppend(a, b');
      assert NatOf(a + b) == NatOf(a + b') * 10 + v;
      assert NatOf(b) == NatOf(b') * 10 + v;
      assert Pow10(|b|) == Pow10(|b'|) * 10;
      ShiftOneDigit(NatOf(a), Pow10(|b'|), NatOf(b'), v);
    }
  }

  /** A run of zeros denotes zero. */
  lemma {:induction false} NatOfZeros(k: nat)
    ensures NatOf(Zeros(k)) == 0
  {
    if k > 0 {
      NatOfZeros(k - 1);
      assert Zeros(k)[..k - 1] == Zeros(k - 1);
    }
  }

  /** Leading zeros do not change the number. */
  lemma NatOfPadded(k: nat, d: string)
    requires AllDigits(d)
    ensures AllDigits(Zeros(k) + d) && NatOf(Zeros(k) + d) == NatOf(d)
  {
    NatOfAppend(Zeros(k), d);
    NatOfZeros(k);
    var p := Pow10(|d|);
    assert NatOf(Zeros(k)) * p == 0;
  }
}
