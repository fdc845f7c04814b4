/** `getDisplayNumber`: the text shown for a number or an operand. The text is split
    at its decimal points; the integer part is read back with `parseFloat` and
    grouped in thousands ("en" locale), the fraction part is kept verbatim. */
module Display {
  import opened Wrappers
  import opened Digits
  import opened Numbers

  // ---------------------------------------------------------------------------
  // String#split('.')

  /** `s.split('.')`: the pieces between decimal points, in order. */
  function Split(s: string): (parts: seq<string>)
    ensures |parts| >= 1
    ensures forall i :: 0 <= i < |parts| ==> '.' !in parts[i]
  {
    if s == [] then [[]]
    else
      var rest := Split(s[1..]);
      if s[0] == '.' then [[]] + rest else [[s[0]] + rest[0]] + rest[1..]
  }

  /** `parts.join('.')`. */
  function Join(parts: seq<string>): string
    requires |parts| >= 1
  {
    if |parts| == 1 then parts[0] else parts[0] + "." + Join(parts[1..])
  }

  /** Splitting loses nothing: joining the pieces gives the text back. */
  lemma {:induction false} JoinSplit(s: string)
    ensures Join(Split(s)) == s
  {
    if s != [] {
      var rest := Split(s[1..]);
      JoinSplit(s[1..]);
      if s[0] == '.' {
        assert Split(s)[1..] == rest;
      } else if |rest| == 1 {
        assert Split(s) == [[s[0]] + rest[0]];
      } else {
        assert Split(s)[1..] == rest[1..];
        assert Join(rest) == rest[0] + "." + Join(rest[1..]);
      }
    }
  }

  /** Text without a point is one piece. */
  lemma {:induction false} SplitNoPoint(s: string)
    requires '.' !in s
    ensures Split(s) == [s]
  {
    if s != [] {
      assert s[0] != '.' by { assert s[0] in s; }
      SplitNoPoint(s[1..]);
      assert [s[0]] + s[1..] == s;
    }
  }

  /** A first point separates the first piece from the rest. */
  lemma {:induction false} SplitAtPoint(a: string, b: string)
    requires '.' !in a
    ensures Split(a + "." + b) == [a] + Split(b)
  {
    if a != [] {
      assert (a + "." + b)[0] == a[0] && a[0] != '.' by { assert a[0] in a; }
      assert (a + "." + b)[1..] == a[1..] + "." + b;
      SplitAtPoint(a[1..], b);
      assert [a[0]] + a[1..] == a;
    } else {
      assert (a + "." + b) == "." + b;
      assert ("." + b)[1..] == b;
    }
  }

  // ---------------------------------------------------------------------------
  // Number#toLocaleString('en', { maximumFractionDigits: 0 }) for whole numbers

  /** The last three digits of `n`, with leading zeros. */
  function ThreeDigits(n: nat): (s: string)
    ensures |s| == 3 && AllDigits(s)
  {
    [DigitChar(n / 100 % 10), DigitChar(n / 10 % 10), DigitChar(n % 10)]
  }

  /** `n` written with a comma between each group of three digits. */
  function GroupThousands(n: nat): (s: string)
    ensures |s| > 0
  {
    if n < 1000 then ShowNat(n) else GroupThousands(n / 1000) + "," + ThreeDigits(n)
  }

  /** `s.replace(/,/g, '')`, used when a history result is loaded back. */
  function StripCommas(s: string): (r: string)
    ensures ',' !in r
  {
    if s == [] then [] else (if s[0] == ',' then [] else [s[0]]) + StripCommas(s[1..])
  }

  lemma {:induction false} StripCommasAppend(a: string, b: string)
    ensures StripCommas(a + b) == StripCommas(a) + StripCommas(b)
  {
    if a != [] {
      assert (a + b)[1..] == a[1..] + b;
      StripCommasAppend(a[1..], b);
    } else {
      assert a + b == b;
    }
  }

  lemma {:induction false} StripCommasNone(s: string)
    requires ',' !in s
    ensures StripCommas(s) == s
  {
    if s != [] {
      StripCommasNone(s[1..]);
    }
  }

  lemma ThousandsQuotient(n: nat)
    ensures n / 10 / 10 == n / 100 && n / 100 / 10 == n / 1000
  {
  }

  /** The last three digits of a number of four or more digits. */
  lemma ShowNatLastThree(n: nat)
    requires n >= 1000
    ensures ShowNat(n) == ShowNat(n / 1000) + ThreeDigits(n)
  {
    ThousandsQuotient(n);
    assert ShowNat(n / 10) == ShowNat(n / 100) + [DigitChar(n / 10 % 10)];
    assert ShowNat(n / 100) == ShowNat(n / 1000) + [DigitChar(n / 100 % 10)];
  }

  /** Removing the group separators gives the plain digits back. */
  lemma {:induction false} StripGroupThousands(n: nat)
    ensures StripCommas(GroupThousands(n)) == ShowNat(n)
  {
    if n < 1000 {
      StripCommasNone(ShowNat(n));
    } else {
      StripGroupThousands(n / 1000);
      StripCommasAppend(GroupThousands(n / 1000) + ",", ThreeDigits(n));
      StripCommasAppend(GroupThousands(n / 1000), ",");
      StripCommasNone(ThreeDigits(n));
      ShowNatLastThree(n);
    }
  }

  // ---------------------------------------------------------------------------
  // getDisplayNumber

  /** The integer part as script.js shows it: NaN becomes "0", a number is grouped,
      and a minus sign (also that of negative zero) is kept. */
  function IntegerDisplayAsWritten(integerPart: string): string {
    match Scan(integerPart)
    case None => "0"
    case Some(n) => (if n.negative then "-" else "") + GroupThousands(NatOf(n.whole))
  }

  /** The integer part as evidently intended: a bare minus sign before the point
      keeps its sign, so "-.5" is shown as "-0.5". */
  function IntegerDisplay(integerPart: string): string {
    match Scan(integerPart)
    case None => if integerPart == "-" then "-0" else "0"
    case Some(n) => (if n.negative then "-" else "") + GroupThousands(NatOf(n.whole))
  }

  /** Reattaches the fraction part, the second piece of the split, when there is one. */
  function WithFraction(integerText: string, parts: seq<string>): string {
    if |parts| >= 2 then integerText + "." + parts[1] else integerText
  }

  /** `r` ends with a point followed by `f`. */
  predicate EndsWithFraction(r: string, f: string) {
    |r| > |f| && r[|r| - |f| - 1..] == "." + f
  }

  lemma FractionAfter(integerText: string, parts: seq<string>)
    ensures |parts| >= 2 ==> EndsWithFraction(WithFraction(integerText, parts), parts[1])
  {
    if |parts| >= 2 {
      var r := integerText + "." + parts[1];
      assert r[|r| - |parts[1]| - 1..] == "." + parts[1];
    }
  }

  /** `getDisplayNumber` as script.js writes it. */
  function DisplayAsWritten(s: string): (r: string)
    // the digits after the first point are shown as they are, after a point
    ensures |Split(s)| >= 2 ==> EndsWithFraction(r, Split(s)[1])
    // an integer part that is not a number is shown as "0"
    ensures Scan(Split(s)[0]).None? ==> r == if |Split(s)| >= 2 then "0." + Split(s)[1] else "0"
  {
    var parts := Split(s);
    FractionAfter(IntegerDisplayAsWritten(parts[0]), parts);
    WithFraction(IntegerDisplayAsWritten(parts[0]), parts)
  }

  /** `getDisplayNumber` with the sign of a bare "-" integer part kept. */
  function DisplayNumber(s: string): (r: string)
    // it differs from the display as written only on a bare "-" before the point
    ensures Split(s)[0] != "-" ==> r == DisplayAsWritten(s)
    ensures |Split(s)| >= 2 ==> EndsWithFraction(r, Split(s)[1])
  {
    var parts := Split(s);
    FractionAfter(IntegerDisplay(parts[0]), parts);
    WithFraction(IntegerDisplay(parts[0]), parts)
  }

  /** The pieces of a numeral's text. */
  lemma SplitText(n: Numeral)
    requires WellFormed(n)
    ensures var sign := if n.negative then "-" else "";
      Split(Text(n)) == if n.point then [sign + n.whole, n.fraction] else [sign + n.whole]
  {
    var sign := if n.negative then "-" else "";
    assert '.' !in n.whole by { assert forall i :: 0 <= i < |n.whole| ==> IsDigit(n.whole[i]); }
    assert '.' !in n.fraction by { assert forall i :: 0 <= i < |n.fraction| ==> IsDigit(n.fraction[i]); }
    assert '.' !in sign + n.whole;
    if n.point {
      assert Text(n) == (sign + n.whole) + "." + n.fraction;
      SplitAtPoint(sign + n.whole, n.fraction);
      SplitNoPoint(n.fraction);
    } else {
      assert Text(n) == sign + n.whole;
      SplitNoPoint(sign + n.whole);
    }
  }

  /** A sign with no digits is not a number. */
  lemma ScanSignOnly(negative: bool)
    ensures Scan(if negative then "-" else "").None?
  {
    var sign := if negative then "-" else "";
    assert RunEnd(sign, |sign|) == |sign|;
  }

  /** The integer part of a numeral with whole digits is shown as its sign and grouped value. */
  lemma IntegerPartScans(n: Numeral)
    requires WellFormed(n) && n.whole != []
    ensures var sign := if n.negative then "-" else "";
      Scan(sign + n.whole) == Some(Numeral(n.negative, n.whole, false, []))
  {
    var m := Numeral(n.negative, n.whole, false, []);
    assert Text(m) == (if n.negative then "-" else "") + n.whole;
    ScanText(m);
  }

  /** Both versions agree on every numeral with whole digits, which includes every
      computed value (Numbers.Show always writes whole digits). */
  lemma DisplayVersionsAgree(n: Numeral)
    requires WellFormed(n) && n.whole != []
    ensures DisplayAsWritten(Text(n)) == DisplayNumber(Text(n))
  {
    SplitText(n);
    IntegerPartScans(n);
  }

  lemma DisplayVersionsAgreeOnShow(r: real)
    ensures DisplayAsWritten(Show(r)) == DisplayNumber(Show(r))
  {
    DisplayVersionsAgree(ToNumeral(r));
  }

  /** The whole digits the display writes for a numeral: "0" when it has none. */
  function ShownWhole(n: Numeral): (w: string)
    requires WellFormed(n)
    ensures AllDigits(w) && w != [] && NatOf(w) == NatOf(n.whole)
  {
    if n.whole == [] then "0"
    else ShowNatRoundTrip(NatOf(n.whole)); ShowNat(NatOf(n.whole))
  }

  /** The integer part shown, without its separators, is the sign and `ShownWhole`. */
  lemma IntegerDisplayStripped(n: Numeral)
    requires WellFormed(n)
    ensures var sign := if n.negative then "-" else "";
      StripCommas(IntegerDisplay(sign + n.whole)) == sign + ShownWhole(n)
  {
    var sign := if n.negative then "-" else "";
    StripCommasNone(sign);
    if n.whole != [] {
      IntegerPartScans(n);
      StripCommasAppend(sign, GroupThousands(NatOf(n.whole)));
      StripGroupThousands(NatOf(n.whole));
    } else {
      assert sign + n.whole == sign;
      ScanSignOnly(n.negative);
      assert IntegerDisplay(sign) == sign + "0";
      StripCommasNone(sign + "0");
    }
  }

  /** The numeral the display writes for `n`, once its separators are removed. */
  function Shown(n: Numeral): (m: Numeral)
    requires WellFormed(n)
    ensures WellFormed(m) && Value(m) == Value(n)
  {
    Numeral(n.negative, ShownWhole(n), n.point, n.fraction)
  }

  lemma StrippedDisplay(n: Numeral)
    requires WellFormed(n)
    ensures StripCommas(DisplayNumber(Text(n))) == Text(Shown(n))
  {
    var sign := if n.negative then "-" else "";
    SplitText(n);
    IntegerDisplayStripped(n);
    var intShown := IntegerDisplay(sign + n.whole);
    assert DisplayNumber(Text(n)) == WithFraction(intShown, Split(Text(n)));
    var m := Shown(n);
    if n.point {
      assert DisplayNumber(Text(n)) == intShown + "." + n.fraction;
      StrippedFraction(intShown, n.fraction);
      assert m == Numeral(n.negative, m.whole, true, n.fraction);
      TextWithPoint(n.negative, m.whole, n.fraction);
    } else {
      assert DisplayNumber(Text(n)) == intShown;
      assert Text(m) == sign + m.whole;
    }
  }

  lemma TextWithPoint(negative: bool, whole: string, fraction: string)
    ensures Text(Numeral(negative, whole, true, fraction))
      == (if negative then "-" else "") + whole + "." + fraction
  {
    var sign := if negative then "-" else "";
    assert sign + whole + ("." + fraction) == sign + whole + "." + fraction;
  }

  lemma StrippedFraction(intShown: string, fraction: string)
    requires AllDigits(fraction)
    ensures StripCommas(intShown + "." + fraction) == StripCommas(intShown) + "." + fraction
  {
    StripCommasAppend(intShown + ".", fraction);
    StripCommasAppend(intShown, ".");
    assert ',' !in fraction by { assert forall i :: 0 <= i < |fraction| ==> IsDigit(fraction[i]); }
    StripCommasNone(fraction);
    StripCommasNone(".");
  }

  /** The shown text, with its group separators removed, is a numeral of the same value. */
  lemma DisplayRoundTrip(n: Numeral)
    requires WellFormed(n)
    ensures Parse(StripCommas(DisplayNumber(Text(n)))) == Some(Value(n))
  {
    StrippedDisplay(n);
    ParseText(Shown(n));
  }

  /** A whole number is shown as its sign and its digits grouped in thousands. */
  lemma DisplayInteger(i: int)
    ensures DisplayNumber(Show(i as real)) == (if i < 0 then "-" else "") + GroupThousands(if i < 0 then -i else i)
  {
    var a: nat := if i < 0 then -i else i;
    ShowInteger(i);
    var n := Numeral(i < 0, ShowNat(a), false, []);
    assert Text(n) == Show(i as real);
    SplitText(n);
    IntegerPartScans(n);
    ShowNatRoundTrip(a);
  }

  /** A numeral with a sign, a point and fraction digits but no whole digits ("-.5"):
      script.js shows it without its sign, the corrected display keeps the sign. */
  lemma SignedFractionDisplays(f: string)
    requires AllDigits(f) && f != []
    ensures DisplayAsWritten("-." + f) == "0." + f
    ensures DisplayNumber("-." + f) == "-0." + f
  {
    var n := Numeral(true, [], true, f);
    assert Text(n) == "-." + f;
    SplitText(n);
    assert "-" + [] == "-";
    ScanSignOnly(true);
    assert "0" + "." + f == "0." + f;
    assert "-0" + "." + f == "-0." + f;
  }

  /** `parseFloat` reads "-.f" as minus the fraction. */
  lemma ParseSignedFraction(f: string)
    requires AllDigits(f) && f != []
    ensures Parse("-." + f) == Some(-FractionValue(f))
  {
    var n := Numeral(true, [], true, f);
    assert Text(n) == "-." + f;
    ParseText(n);
    assert NatOf([]) == 0;
  }

  /** `parseFloat` reads the shown "0.f" or "-0.f" back as the signed fraction. */
  lemma ParseShownFraction(negative: bool, f: string)
    requires AllDigits(f) && f != []
    ensures var sign := if negative then "-" else "";
      Parse(StripCommas(sign + "0." + f)) == Some(if negative then -FractionValue(f) else FractionValue(f))
  {
    var sign := if negative then "-" else "";
    var m := Numeral(negative, "0", true, f);
    var t := sign + "0." + f;
    assert Text(m) == t;
    ParseText(m);
    assert NatOf("0") == 0;
    assert Value(m) == if negative then -FractionValue(f) else FractionValue(f);
    StripCommasAppend(sign + "0.", f);
    StripCommasNone(sign + "0.");
    DigitsHaveNoComma(f);
    assert StripCommas(t) == t;
  }

  lemma DigitsHaveNoComma(d: string)
    requires AllDigits(d)
    ensures StripCommas(d) == d
  {
    assert ',' !in d by { assert forall i :: 0 <= i < |d| ==> IsDigit(d[i]); }
    StripCommasNone(d);
  }

  /** script.js shows "-.5" (which `parseFloat` reads as -0.5) as "0.5". */
  lemma DisplayAsWrittenDropsSign()
    ensures Parse("-.5") == Some(-0.5)
    ensures DisplayAsWritten("-.5") == "0.5"
    ensures Parse(StripCommas(DisplayAsWritten("-.5"))) == Some(0.5)
  {
    SignedFractionDisplays("5");
    ParseSignedFraction("5");
    ParseShownFraction(false, "5");
    assert "-." + "5" == "-.5" && "" + "0." + "5" == "0.5";
    FiveTenths();
  }

  lemma FiveTenths()
    ensures FractionValue("5") == 0.5
  {
    assert NatOf("5") == 5 && Pow10(1) == 10;
  }
}
