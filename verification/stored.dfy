/** What `currentOperand` holds once `compute` has run: script.js stores the result
    as a JavaScript number, not as text, and the edit rules then act on that number.
    The rest of the model stores the result's text (`Calculator.Compute`); this module
    keeps the number as written and shows where the two part ways. */
module StoredNumber {
  import opened Wrappers
  import opened Digits
  import opened Numbers
  import Operand
  import Calculator

  /** The JavaScript value in `currentOperand`: a string, or the number `compute` stored. */
  datatype Held = StringValue(text: string) | NumberValue(value: real)

  /** The exception a method call on a number that lacks the method raises. */
  const TypeError: string := "TypeError"

  /** `toString()` of the held value. */
  function ToText(v: Held): string {
    match v
    case StringValue(s) => s
    case NumberValue(n) => Show(n)
  }

  /** `appendNumber` as written on a held value: a number has no `includes`, so a point
      throws; and no number is `=== '0'`, so a digit is appended to the number's text. */
  function AppendAsWritten(v: Held, input: string): (r: Result<Held, string>)
    ensures v.StringValue? ==> r == Success(StringValue(Operand.Append(v.text, input)))
    ensures v.NumberValue? && input == "." ==> r == Failure(TypeError)
    ensures v.NumberValue? && input != "." ==> r == Success(StringValue(Show(v.value) + input))
  {
    match v
    case StringValue(s) => Success(StringValue(Operand.Append(s, input)))
    case NumberValue(n) => if input == "." then Failure(TypeError) else Success(StringValue(Show(n) + input))
  }

  /** `delete` as written on a held value: a number's `length` is undefined, so the last
      character of its text is always dropped, even when it is the only one. */
  function DeleteAsWritten(v: Held): (r: Held)
    ensures v.StringValue? ==> r == StringValue(Operand.Delete(v.text))
    ensures v.NumberValue? ==> r.StringValue? && r.text + [Show(v.value)[|Show(v.value)| - 1]] == Show(v.value)
  {
    match v
    case StringValue(s) => StringValue(Operand.Delete(s))
    case NumberValue(n) => StringValue(DropLast(Show(n)))
  }

  /** `slice(0, -1)` of a non-empty text. */
  function DropLast(t: string): (u: string)
    requires t != []
    ensures u + [t[|t| - 1]] == t
  {
    t[..|t| - 1]
  }

  /** A whole number of one digit is written as that digit. */
  lemma OneDigit(k: nat)
    requires k < 10
    ensures Show(k as real) == ShowNat(k) && |ShowNat(k)| == 1
  {
    ShowInteger(k);
    ShowNatLength(k, 1);
  }

  /** After a result, the point key throws in script.js, where the stored text would
      take the point. */
  lemma PointAfterResult(n: real)
    ensures AppendAsWritten(NumberValue(n), ".").Failure?
    ensures ('.' !in Show(n)) ==> Operand.Append(Show(n), ".") == Show(n) + "."
  {
  }

  /** After a one-digit whole result, delete leaves the empty operand in script.js
      (on which every operator key is then ignored), where the stored text falls back to "0". */
  lemma DeleteAfterOneDigitResult(k: nat)
    requires k < 10
    ensures DeleteAsWritten(NumberValue(k as real)) == StringValue("")
    ensures Operand.Delete(Show(k as real)) == "0"
  {
    OneDigit(k);
  }

  /** After a zero result, a digit is appended to the "0" in script.js instead of replacing it. */
  lemma DigitAfterZeroResult(d: char)
    requires IsDigit(d)
    ensures AppendAsWritten(NumberValue(0.0), [d]) == Success(StringValue("0" + [d]))
    ensures Operand.Append(Show(0.0), [d]) == [d]
  {
    OneDigit(0);
    assert ShowNat(0) == "0";
  }

  /** A point typed on a numeral's text is taken, and the text still reads as the numeral's value. */
  lemma PointTaken(n: Numeral)
    requires WellFormed(n)
    ensures var t := Operand.Append(Text(n), ".");
      '.' in t && Parse(t) == Some(Value(n))
  {
    if n.point {
      PointKept(n);
      ParseText(n);
    } else {
      PointAdded(n);
    }
  }

  lemma PointKept(n: Numeral)
    requires WellFormed(n) && n.point
    ensures Operand.Append(Text(n), ".") == Text(n) && '.' in Text(n)
  {
    var sign := if n.negative then "-" else "";
    assert Text(n) == sign + n.whole + ("." + n.fraction);
    assert Text(n)[|sign| + |n.whole|] == '.';
  }

  lemma PointAdded(n: Numeral)
    requires WellFormed(n) && !n.point
    ensures var t := Operand.Append(Text(n), ".");
      '.' in t && Parse(t) == Some(Value(n))
  {
    var m := n.(point := true);
    assert Text(m) == Text(n) + ".";
    assert Text(m)[|Text(n)|] == '.';
    ParseText(m);
    FractionValueEmpty();
    assert Value(m) == Value(n);
  }

  /** A point typed on a stored result's text is taken, and the text still reads as
      before: as the result itself when it has at most 20 decimals. */
  lemma PointAfterShow(r: real)
    ensures var t := Operand.Append(Show(r), ".");
      '.' in t && Parse(t) == Parse(Show(r))
    ensures ShortDecimal(r) ==> Parse(Operand.Append(Show(r), ".")) == Some(r)
  {
    var n := ToNumeral(r);
    ParseText(n);
    PointTaken(n);
    if ShortDecimal(r) {
      ShowRoundTrip(r);
    }
  }

  /** With the result's text stored, a point typed after a result is taken, and the
      operand still reads as the stored result: as the computed value when it has at
      most 20 decimals. */
  lemma PointAfterStoredResult(c: Calculator.Calc)
    requires Calculator.Computes(c)
    ensures var t := Calculator.AppendNumber(Calculator.Compute(c).state, ".").current;
      '.' in t && Parse(t) == Parse(Calculator.Compute(c).state.current)
    ensures ShortDecimal(Calculator.ComputedValue(c)) ==>
      Parse(Calculator.AppendNumber(Calculator.Compute(c).state, ".").current) == Some(Calculator.ComputedValue(c))
  {
    PointAfterShow(Calculator.ComputedValue(c));
  }

  /** Away from those three cases the number and its text are edited alike. */
  lemma StoredAgrees(n: real, input: string)
    requires input != "." && Show(n) != "0"
    ensures AppendAsWritten(NumberValue(n), input) == Success(StringValue(Operand.Append(Show(n), input)))
    ensures |Show(n)| > 1 ==> DeleteAsWritten(NumberValue(n)) == StringValue(Operand.Delete(Show(n)))
  {
  }

  /** A held text is edited exactly as the model's operand. */
  lemma TextAgrees(s: string, input: string)
    ensures AppendAsWritten(StringValue(s), input) == Success(StringValue(Operand.Append(s, input)))
    ensures ToText(DeleteAsWritten(StringValue(s))) == Operand.Delete(s)
  {
  }
}
