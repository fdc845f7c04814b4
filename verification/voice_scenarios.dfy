/** Voice commands worked out in full. */
module VoiceScenarios {
  import opened Wrappers
  import opened Digits
  import Numbers
  import Calculator
  import History
  import Scenarios
  import opened Voice

  /** The replay is the same as pressing AC, the first number, the operator and the second number. */
  lemma ReplayIsKeys(c: Calculator.Calc, cmd: Command)
    ensures Replay(c, cmd) == Calculator.Run(c, [Calculator.AllClear, Calculator.Key(cmd.left),
      Calculator.Operator([cmd.operator]), Calculator.Key(cmd.right)])
  {
    var c1 := Calculator.Clear(c);
    var c2 := Calculator.AppendNumber(c1, cmd.left);
    var c3 := Calculator.ChooseOperation(c2, [cmd.operator]).state;
    Scenarios.RunThrough(c, Calculator.AllClear, c1,
      [Calculator.Key(cmd.left), Calculator.Operator([cmd.operator]), Calculator.Key(cmd.right)]);
    Scenarios.RunThrough(c1, Calculator.Key(cmd.left), c2,
      [Calculator.Operator([cmd.operator]), Calculator.Key(cmd.right)]);
    Scenarios.RunThrough(c2, Calculator.Operator([cmd.operator]), c3, [Calculator.Key(cmd.right)]);
    Scenarios.RunThrough(c3, Calculator.Key(cmd.right), Calculator.AppendNumber(c3, cmd.right), []);
  }

  /** Two whole numbers said with an operator word between them, nothing after. */
  lemma SaidBetween(a: nat, m: string, o: char, b: nat)
    requires Normalize(m) == [o] && IsOperator(o)
    ensures ParseVoice(ShowNat(a) + m + ShowNat(b)) == Success(Command(ShowNat(a), o, ShowNat(b)))
    ensures NatOf(ShowNat(a)) == a && NatOf(ShowNat(b)) == b
  {
    NormalizeDigits([]);
    SpokenCommand(ShowNat(a), m, o, ShowNat(b), []);
    assert ShowNat(a) + m + ShowNat(b) + [] == ShowNat(a) + m + ShowNat(b);
    ShowNatRoundTrip(a);
    ShowNatRoundTrip(b);
  }

  /** A command of two whole numbers with a whole result: the result is shown and
      one history line is added. */
  lemma VoiceWhole(c: Calculator.Calc, text: string, a: nat, o: char, b: nat, ar: Calculator.Arith, result: nat,
                   line: string)
    requires ParseVoice(text) == Success(Command(ShowNat(a), o, ShowNat(b)))
    requires Calculator.Symbol(ar) == [o] && ar != Calculator.Divide
    requires Calculator.Apply(ar, a as real, b as real) == result as real
    requires line == Scenarios.Grouped(a) + " " + Calculator.Symbol(ar) + " " + Scenarios.Grouped(b)
    ensures ProcessVoiceCommand(c, text)
      == Calculator.Step(Calculator.Calc(ShowNat(result), "", None,
           [History.Entry(line, Scenarios.Grouped(result))] + c.history), None)
  {
    ShowNatRoundTrip(a);
    ShowNatRoundTrip(b);
    assert ArithOfChar(o) == ar;
    Scenarios.Whole(a);
    Scenarios.Whole(b);
    Scenarios.Whole(result);
  }

  /** How the history writes a sum. */
  lemma PlusLine(x: string, y: string)
    ensures x + " " + Calculator.Symbol(Calculator.Add) + " " + y == x + " + " + y
  {
    Scenarios.Infix(x, "+", y);
  }

  lemma SaidSum(a: nat, b: nat)
    ensures ParseVoice(ShowNat(a) + " 더하기 " + ShowNat(b)) == Success(Command(ShowNat(a), '+', ShowNat(b)))
  {
    SaidPlus();
    SaidBetween(a, " 더하기 ", '+', b);
  }

  /** A recognised sum of two whole numbers is computed and written to the history. */
  lemma SumCommand(c: Calculator.Calc, a: nat, b: nat, sum: nat, text: string)
    requires ParseVoice(text) == Success(Command(ShowNat(a), '+', ShowNat(b)))
    requires sum == a + b
    ensures ProcessVoiceCommand(c, text)
      == Calculator.Step(Calculator.Calc(ShowNat(sum), "", None,
           [History.Entry(Scenarios.Grouped(a) + " + " + Scenarios.Grouped(b), Scenarios.Grouped(sum))]
           + c.history), None)
  {
    PlusLine(Scenarios.Grouped(a), Scenarios.Grouped(b));
    VoiceWhole(c, text, a, '+', b, Calculator.Add, sum, Scenarios.Grouped(a) + " + " + Scenarios.Grouped(b));
  }

  /** "a 더하기 b" adds, and the history shows the sum. */
  lemma SpokenSum(c: Calculator.Calc, a: nat, b: nat, sum: nat)
    requires sum == a + b
    ensures ProcessVoiceCommand(c, ShowNat(a) + " 더하기 " + ShowNat(b))
      == Calculator.Step(Calculator.Calc(ShowNat(sum), "", None,
           [History.Entry(Scenarios.Grouped(a) + " + " + Scenarios.Grouped(b), Scenarios.Grouped(sum))]
           + c.history), None)
  {
    SaidSum(a, b);
    SumCommand(c, a, b, sum, ShowNat(a) + " 더하기 " + ShowNat(b));
  }

  lemma SmallNumbers()
    ensures ShowNat(0) == "0" && ShowNat(1) == "1" && ShowNat(2) == "2" && ShowNat(3) == "3"
    ensures Scenarios.Grouped(1) == "1" && Scenarios.Grouped(2) == "2" && Scenarios.Grouped(3) == "3"
    ensures Scenarios.Grouped(1) + " + " + Scenarios.Grouped(2) == "1 + 2"
  {
  }

  lemma OnePlusTwoText()
    ensures "1 더하기 2" == ShowNat(1) + " 더하기 " + ShowNat(2)
  {
    SmallNumbers();
  }

  /** The example in `processVoiceCommand`'s comment: "1 더하기 2" is read as 1 + 2 and gives 3. */
  lemma OnePlusTwo(c: Calculator.Calc)
    ensures ParseVoice("1 더하기 2") == Success(Command("1", '+', "2"))
    ensures ProcessVoiceCommand(c, "1 더하기 2")
      == Calculator.Step(Calculator.Calc("3", "", None, [History.Entry("1 + 2", "3")] + c.history), None)
  {
    SmallNumbers();
    OnePlusTwoText();
    SaidSum(1, 2);
    SumCommand(c, 1, 2, 3, "1 더하기 2");
    assert ShowNat(1 + 2) == "3" && Scenarios.Grouped(1 + 2) == "3";
  }

  /** The letter x between two numbers is a multiplication. */
  lemma TwoTimesThree()
    ensures ParseVoice("2x3") == Success(Command("2", '*', "3"))
  {
    SmallNumbers();
    assert "2x3" == ShowNat(2) + "x" + ShowNat(3);
    SaidX();
    SaidBetween(2, "x", '*', 3);
  }

  /** "a 나누기 0" raises the division-by-zero alert and clears the calculator. */
  lemma SpokenDivisionByZero(c: Calculator.Calc, a: nat)
    ensures ProcessVoiceCommand(c, ShowNat(a) + " 나누기 0")
      == Calculator.Step(Calculator.Clear(c), Some(Calculator.DivisionByZeroAlert))
  {
    Scenarios.ZeroShown();
    assert ShowNat(a) + " 나누기 0" == ShowNat(a) + " 나누기 " + ShowNat(0);
    SaidDivide();
    SaidBetween(a, " 나누기 ", '/', 0);
    DivideByZeroCommand(c, ShowNat(a) + " 나누기 0", ShowNat(a));
  }

  /** A recognised division by zero clears the calculator and raises the alert. */
  lemma DivideByZeroCommand(c: Calculator.Calc, text: string, left: string)
    requires ParseVoice(text) == Success(Command(left, '/', "0"))
    ensures ProcessVoiceCommand(c, text) == Calculator.Step(Calculator.Clear(c), Some(Calculator.DivisionByZeroAlert))
  {
    Scenarios.ZeroShown();
    ShowNatRoundTrip(0);
    assert ArithOfChar('/') == Calculator.Divide;
  }

  /** Only the first command in the text is carried out. */
  lemma FirstCommandWins(a: nat, b: nat, d: nat, m1: string, o1: char, m2: string, o2: char)
    requires Normalize(m1) == [o1] && IsOperator(o1) && Normalize(m2) == [o2] && IsOperator(o2)
    ensures ParseVoice(ShowNat(a) + m1 + ShowNat(b) + (m2 + ShowNat(d)))
      == Success(Command(ShowNat(a), o1, ShowNat(b)))
  {
    NormalizeTrailing(m2, ShowNat(d));
    SpokenCommand(ShowNat(a), m1, o1, ShowNat(b), m2 + ShowNat(d));
  }

  /** "a 더하기 b 곱하기 d" adds a and b; the product is never looked at. */
  lemma SumBeforeProduct(a: nat, b: nat, d: nat)
    ensures ParseVoice(ShowNat(a) + " 더하기 " + ShowNat(b) + (" 곱하기 " + ShowNat(d)))
      == Success(Command(ShowNat(a), '+', ShowNat(b)))
  {
    SaidPlus();
    SaidTimes();
    FirstCommandWins(a, b, d, " 더하기 ", '+', " 곱하기 ", '*');
  }

  /** Words without numbers are not understood and change nothing. */
  lemma HelloWorld(c: Calculator.Calc)
    ensures ProcessVoiceCommand(c, "hello world").state == c
    ensures ProcessVoiceCommand(c, "hello world").alert.Some?
  {
    assert NoDigits("hello world");
    NoDigitsNotUnderstood(c, "hello world");
  }
}
