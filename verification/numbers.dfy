/** Number text: how `parseFloat` reads an operand string and how a computed number
    becomes operand text again (`Number#toString`), over exact rationals. */
module Numbers {
  import opened Wrappers
  import opened Digits

  /** A decimal numeral: optional minus sign, whole digits, optional point, fraction digits. */
  datatype Numeral = Numeral(negative: bool, whole: string, point: bool, fraction: string)

  /** A numeral `parseFloat` accepts: at least one digit, and fraction digits only after a point. */
  predicate WellFormed(n: Numeral) {
    && AllDigits(n.whole)
    && AllDigits(n.fraction)
    && |n.whole| + |n.fraction| > 0
    && (n.point || n.fraction == [])
  }

  function Text(n: Numeral): string {
    (if n.negative then "-" else "") + n.whole + (if n.point then "." + n.fraction else "")
  }

  /** The value of fraction digits read after a point. */
  function FractionValue(d: string): real
    requires AllDigits(d)
  {
    NatOf(d) as real / Pow10(|d|) as real
  }

  function Value(n: Numeral): real
    requires AllDigits(n.whole) && AllDigits(n.fraction)
  {
    var magnitude := NatOf(n.whole) as real + FractionValue(n.fraction);
    if n.negative then -magnitude else magnitude
  }

  /** Where a numeral read from the front of `s` could be extended by the next character. */
  predicate Continues(n: Numeral, s: string) {
    var k := |Text(n)|;
    k < |s| && (IsDigit(s[k]) || (s[k] == '.' && !n.point))
  }

  /** The numeral `parseFloat` reads from the front of `s`, or None when it yields NaN. */
  function Scan(s: string): (r: Option<Numeral>)
    ensures r.Some? ==> WellFormed(r.value)
  {
    var start := if |s| > 0 && s[0] == '-' then 1 else 0;
    var j := RunEnd(s, start);
    var point := j < |s| && s[j] == '.';
    var e := if point then RunEnd(s, j + 1) else j;
    var fraction := if point then s[j + 1..e] else [];
    if j == start && fraction == [] then None
    else Some(Numeral(start == 1, s[start..j], point, fraction))
  }

  /** `parseFloat(s)`: the value of the numeral at the front of `s`, None for NaN. */
  function Parse(s: string): (r: Option<real>)
    ensures r.None? <==> Scan(s).None?
    ensures r.Some? ==> Text(Scan(s).value) <= s && r.value == Value(Scan(s).value)
  {
    match Scan(s)
    case None => None
    case Some(n) => ScanReadsPrefix(s); Some(Value(n))
  }

  /** The numeral read is a prefix of the text that the next character cannot extend:
      `parseFloat` reads the longest numeral at the front. */
  lemma ScanReadsPrefix(s: string)
    requires Scan(s).Some?
    ensures Text(Scan(s).value) <= s && !Continues(Scan(s).value, s)
  {
    var n := Scan(s).value;
    var start := if n.negative then 1 else 0;
    var j := start + |n.whole|;
    var e := if n.point then j + 1 + |n.fraction| else j;
    assert s[..start] == (if n.negative then "-" else "");
    assert s[start..j] == n.whole;
    assert n.point ==> s[j..e] == "." + n.fraction;
    assert s[..e] == s[..start] + s[start..j] + s[j..e];
    assert Text(n) == s[..e];
  }

  /** `parseFloat` yields a number whenever some prefix of the text is a numeral. */
  lemma NumeralPrefixScans(s: string, n: Numeral)
    requires WellFormed(n) && Text(n) <= s
    ensures Scan(s).Some?
  {
    var t := Text(n);
    var start := if n.negative then 1 else 0;
    var j := start + |n.whole|;
    assert t[..start] == (if n.negative then "-" else "");
    assert t[start..j] == n.whole;
    assert forall k :: start <= k < j ==> s[k] == n.whole[k - start];
    if n.negative {
      assert s[0] == '-';
    } else if |n.whole| > 0 {
      assert s[0] == n.whole[0];
    } else {
      assert s[0] == '.';
    }
    if |n.whole| > 0 {
      assert IsDigit(s[start]);
    } else {
      assert s[start] == '.';
      assert RunEnd(s, start) == start;
      assert s[start + 1] == n.fraction[0];
    }
  }

  /** Reading a well-formed numeral's text gives back the numeral. */
  lemma ScanText(n: Numeral)
    requires WellFormed(n)
    ensures Scan(Text(n)) == Some(n)
  {
    var s := Text(n);
    var sign := if n.negative then "-" else "";
    var tail := if n.point then "." + n.fraction else "";
    assert s == sign + n.whole + tail;
    RunOf(sign, n.whole, tail);
    var j := |sign| + |n.whole|;
    SignOfText(n);
    if n.point {
      FractionRun(sign, n.whole, n.fraction);
    }
    ScanAt(s, n, |sign|, j);
  }

  /** A numeral's text starts with '-' exactly when the numeral is negative. */
  lemma SignOfText(n: Numeral)
    requires WellFormed(n)
    ensures (|Text(n)| > 0 && Text(n)[0] == '-') <==> n.negative
  {
    var sign := if n.negative then "-" else "";
    var tail := if n.point then "." + n.fraction else "";
    var s := sign + n.whole + tail;
    assert Text(n) == s;
    if !n.negative {
      if |n.whole| > 0 {
        assert s[0] == n.whole[0];
      } else {
        assert s[0] == '.';
      }
    }
  }

  /** The fraction digits after the point run to the end of the text. */
  lemma FractionRun(sign: string, whole: string, f: string)
    requires AllDigits(f)
    ensures var s := sign + whole + ("." + f);
      RunEnd(s, |sign| + |whole| + 1) == |s| && s[|sign| + |whole| + 1..|s|] == f
  {
    var s := sign + whole + ("." + f);
    assert s == (sign + whole + ".") + f + [];
    RunOf(sign + whole + ".", f, []);
  }

  /** Scan's result, given where the sign, the whole digits and the point sit. */
  lemma ScanAt(s: string, n: Numeral, start: nat, j: nat)
    requires WellFormed(n)
    requires start == (if |s| > 0 && s[0] == '-' then 1 else 0) && n.negative == (start == 1)
    requires start <= j <= |s| && RunEnd(s, start) == j && s[start..j] == n.whole
    requires n.point == (j < |s| && s[j] == '.')
    requires n.point ==> s[j + 1..RunEnd(s, j + 1)] == n.fraction
    ensures Scan(s) == Some(n)
  {
  }

  /** The empty operand is NaN. */
  lemma ParseEmpty()
    ensures Parse("").None?
  {
    assert RunEnd("", 0) == 0;
  }

  lemma ParseText(n: Numeral)
    requires WellFormed(n)
    ensures Parse(Text(n)) == Some(Value(n))
  {
    ScanText(n);
  }

  lemma FractionValueEmpty()
    ensures FractionValue([]) == 0.0
  {
    assert NatOf([]) == 0 && Pow10(0) == 1;
  }

  /** A non-empty digit run parses as the natural number it denotes. */
  lemma ParseDigits(d: string)
    requires AllDigits(d) && d != []
    ensures Parse(d) == Some(NatOf(d) as real)
  {
    var n := Numeral(false, d, false, []);
    assert Text(n) == "" + d + "";
    assert "" + d + "" == d;
    ScanText(n);
    FractionValueEmpty();
    assert Value(n) == NatOf(d) as real + 0.0;
  }

  // ---------------------------------------------------------------------------
  // Number#toString, over exact values

  /** Fraction digits kept when a computed value becomes operand text. */
  const FractionDigits: nat := 20

  /** 10^FractionDigits, written out. */
  function Scale(): (x: nat)
    ensures x >= 1
  {
    100_000_000_000_000_000_000
  }

  lemma Pow10Five()
    ensures Pow10(5) == 100_000
  {
    assert Pow10(2) == 100;
  }

  lemma ScaleIsPow10()
    ensures Scale() == Pow10(FractionDigits)
  {
    Pow10Five();
    Pow10Add(5, 5);
    Pow10Add(10, 10);
  }

  function Abs(r: real): real {
    if r < 0.0 then -r else r
  }

  /** `d` without its trailing zeros. */
  function TrimZeros(d: string): (t: string)
    ensures t <= d
  {
    if d != [] && d[|d| - 1] == '0' then TrimZeros(d[..|d| - 1]) else d
  }

  /** The digits of `m` / Scale() after the point, without trailing zeros. */
  function FractionText(m: nat): (t: string)
    requires m < Scale()
    ensures AllDigits(t) && |t| <= FractionDigits
  {
    if m == 0 then []
    else
      ScaleIsPow10();
      ShowNatLength(m, FractionDigits);
      var d := ShowNat(m);
      NatOfAppend(Zeros(FractionDigits - |d|), d);
      TrimZeros(Zeros(FractionDigits - |d|) + d)
  }

  /** The whole part of |r|. */
  function WholePart(r: real): nat {
    Abs(r).Floor
  }

  /** The fraction part of |r|, scaled by Scale() and truncated. */
  function ScaledFraction(r: real): (m: nat)
    ensures m < Scale()
  {
    var a := Abs(r);
    ScaledFloorBelow(a - a.Floor as real, Scale());
    ((a - a.Floor as real) * Scale() as real).Floor
  }

  /** The numeral a computed value is written as: the whole part, then the first
      FractionDigits decimals (truncated) without trailing zeros. */
  function ToNumeral(r: real): (n: Numeral)
    ensures WellFormed(n) && n.whole != []
    ensures n.negative <==> r < 0.0
  {
    var f := FractionText(ScaledFraction(r));
    Numeral(r < 0.0, ShowNat(WholePart(r)), f != [], f)
  }

  /** `String(r)`: the operand text a computed value is stored as. */
  function Show(r: real): (t: string)
    ensures Scan(t) == Some(ToNumeral(r))
    ensures t != [] && (t[0] == '-' <==> r < 0.0)
  {
    ScanText(ToNumeral(r));
    SignOfText(ToNumeral(r));
    Text(ToNumeral(r))
  }

  /** `r` has at most FractionDigits decimals, so Show writes it exactly. */
  predicate ShortDecimal(r: real) {
    var x := Abs(r) * Scale() as real;
    x.Floor as real == x
  }

  // Arithmetic facts, each stated over plain variables so that the solver sees them in isolation.

  /** For `f` in [0, 1) the scaled integer part is below the scale. */
  lemma ScaledFloorBelow(f: real, x: nat)
    requires 0.0 <= f < 1.0 && x >= 1
    ensures 0 <= (f * x as real).Floor < x
  {
    assert f * x as real < 1.0 * x as real;
  }

  lemma RatioOfScaled(n: nat, p: nat, c: nat)
    requires p >= 1 && c >= 1
    ensures (n * c) as real / (p * c) as real == n as real / p as real
  {
    MulInt(n, c);
    MulInt(p, c);
    DivCancel(n as real, p as real, c as real);
  }

  lemma DivCancel(a: real, p: real, c: real)
    requires p > 0.0 && c > 0.0
    ensures (a * c) / (p * c) == a / p
  {
  }

  lemma DivBy(x: real, p: real, f: real)
    requires p > 0.0 && x == f * p
    ensures x / p == f
  {
  }

  lemma FloorOfInt(x: real, k: int)
    requires x == k as real
    ensures x.Floor == k
  {
  }

  lemma MulInt(a: int, b: int)
    ensures (a as real) * (b as real) == (a * b) as real
  {
  }

  lemma Distribute(a: real, b: real, p: real)
    ensures (a - b) * p == a * p - b * p
  {
  }

  lemma {:induction false} Pow10Add(i: nat, j: nat)
    ensures Pow10(i + j) == Pow10(i) * Pow10(j)
  {
    if i > 0 {
      Pow10Add(i - 1, j);
    }
  }

  /** Trimming trailing zeros divides the digits' number by a power of ten. */
  lemma {:induction false} TrimZerosValue(d: string)
    requires AllDigits(d)
    ensures AllDigits(TrimZeros(d))
    ensures NatOf(TrimZeros(d)) * Pow10(|d| - |TrimZeros(d)|) == NatOf(d)
  {
    if d != [] && d[|d| - 1] == '0' {
      var d' := d[..|d| - 1];
      TrimZerosValue(d');
      var t := TrimZeros(d');
      assert NatOf(d) == NatOf(d') * 10;
      assert Pow10(|d| - |t|) == Pow10(|d'| - |t|) * 10;
      assert NatOf(t) * Pow10(|d| - |t|) == (NatOf(t) * Pow10(|d'| - |t|)) * 10;
    }
  }

  /** `m` written with leading zeros to FractionDigits places. */
  lemma PaddedValue(m: nat) returns (padded: string)
    requires 0 < m < Scale()
    ensures |ShowNat(m)| <= FractionDigits
    ensures padded == Zeros(FractionDigits - |ShowNat(m)|) + ShowNat(m)
    ensures |padded| == FractionDigits && AllDigits(padded) && NatOf(padded) == m
  {
    var d := ShowNat(m);
    ScaleIsPow10();
    ShowNatLength(m, FractionDigits);
    var z := Zeros(FractionDigits - |d|);
    padded := z + d;
    NatOfPadded(FractionDigits - |d|, d);
    ShowNatRoundTrip(m);
  }

  /** The fraction digits, padded back to FractionDigits places, denote `m`. */
  lemma FractionTextValue(m: nat)
    requires m < Scale()
    ensures NatOf(FractionText(m)) * Pow10(FractionDigits - |FractionText(m)|) == m
  {
    if m == 0 {
      var p := Pow10(FractionDigits);
      assert NatOf(FractionText(m)) * p == 0 * p == 0;
      assert NatOf(FractionText(m)) * Pow10(FractionDigits - |FractionText(m)|) == m;
    } else {
      var padded := PaddedValue(m);
      TrimZerosValue(padded);
      var t := TrimZeros(padded);
      assert FractionText(m) == t;
      assert |padded| - |t| == FractionDigits - |FractionText(m)|;
      assert NatOf(t) * Pow10(|padded| - |t|) == m;
      assert NatOf(FractionText(m)) * Pow10(FractionDigits - |FractionText(m)|) == m;
    }
  }

  /** The fraction digits denote `m` over the scale. */
  lemma FractionTextRatio(m: nat)
    requires m < Scale()
    ensures FractionValue(FractionText(m)) == m as real / Scale() as real
  {
    var t := FractionText(m);
    ScaleIsPow10();
    FractionTextValue(m);
    Pow10Add(|t|, FractionDigits - |t|);
    RatioOfScaled(NatOf(t), Pow10(|t|), Pow10(FractionDigits - |t|));
  }

  lemma SubtractScaled(a: real, w: int, x: nat, big: int)
    requires a * x as real == big as real
    ensures (a - w as real) * x as real == (big - w * x) as real
  {
    Distribute(a, w as real, x as real);
    MulInt(w, x);
  }

  /** The scaled fraction part of a short decimal is an integer. */
  lemma ScaledFractionIsInteger(r: real) returns (k: int)
    requires ShortDecimal(r)
    ensures (Abs(r) - WholePart(r) as real) * Scale() as real == k as real
  {
    var big := (Abs(r) * Scale() as real).Floor;
    SubtractScaled(Abs(r), WholePart(r), Scale(), big);
    k := big - WholePart(r) * Scale();
  }

  /** The scaled fraction part of a short decimal, over the scale, is the fraction part. */
  lemma ScaledFractionExact(r: real)
    requires ShortDecimal(r)
    ensures ScaledFraction(r) as real / Scale() as real == Abs(r) - WholePart(r) as real
  {
    var f := Abs(r) - WholePart(r) as real;
    var i := ScaledFractionIsInteger(r);
    FloorOfInt(f * Scale() as real, i);
    assert ScaledFraction(r) == i;
    DivBy(i as real, Scale() as real, f);
  }

  /** Writing a short decimal and reading it back gives the same value. */
  lemma ShowRoundTrip(r: real)
    requires ShortDecimal(r)
    ensures Parse(Show(r)) == Some(r)
  {
    var n := ToNumeral(r);
    ParseText(n);
    ShowNatRoundTrip(WholePart(r));
    ScaledFractionExact(r);
    FractionTextRatio(ScaledFraction(r));
    assert NatOf(n.whole) as real + FractionValue(n.fraction) == Abs(r);
  }

  /** Every integer is a short decimal. */
  lemma IntegerShortDecimal(i: int)
    ensures ShortDecimal(i as real)
  {
    var a: nat := if i < 0 then -i else i;
    assert Abs(i as real) == a as real;
    MulInt(a, Scale());
    FloorOfInt(Abs(i as real) * Scale() as real, a * Scale());
  }

  /** An integer is written as its digits, with a minus sign when negative. */
  lemma ShowInteger(i: int)
    ensures Show(i as real) == (if i < 0 then "-" else "") + ShowNat(if i < 0 then -i else i)
  {
    var a: nat := if i < 0 then -i else i;
    assert Abs(i as real) == a as real;
    FloorOfInt(a as real, a);
    FloorOfInt(0.0 * Scale() as real, 0);
    assert WholePart(i as real) == a;
    assert ScaledFraction(i as real) == 0;
  }
}
