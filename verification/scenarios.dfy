/** Key sequences on the calculator worked out in full, for whole-number operands. */
module Scenarios {
  import opened Wrappers
  import opened Digits
  import opened Numbers
  import opened Calculator
  import Display
  import History

  /** `getDisplayNumber` of a whole number: its digits grouped in thousands. */
  function Grouped(n: nat): string {
    Display.GroupThousands(n)
  }

  /** A whole number's digits read back as the number. */
  lemma WholeParses(n: nat)
    ensures Parse(ShowNat(n)) == Some(n as real)
    ensures ShowNat(n) != "" && ShowNat(n) != "."
  {
    ParseDigits(ShowNat(n));
    ShowNatRoundTrip(n);
    assert IsDigit(ShowNat(n)[0]);
  }

  /** A whole number reads, prints and displays as its digits. */
  lemma Whole(n: nat)
    ensures Parse(ShowNat(n)) == Some(n as real)
    ensures Show(n as real) == ShowNat(n)
    ensures Display.DisplayNumber(Show(n as real)) == Grouped(n)
    ensures ShowNat(n) != "" && ShowNat(n) != "."
  {
    WholeParses(n);
    ShowInteger(n);
    Display.DisplayInteger(n);
  }

  /** `compute` on two whole operands with a whole result. */
  lemma WholeCompute(c: Calc, p: nat, v: nat, a: Arith, result: nat)
    requires c.previous == ShowNat(p) && c.current == ShowNat(v) && c.operation == Some(Symbol(a))
    requires a != Divide && Apply(a, p as real, v as real) == result as real
    ensures Compute(c) == Step(Calc(ShowNat(result), "", None,
      [History.Entry(Grouped(p) + " " + Symbol(a) + " " + Grouped(v), Grouped(result))] + c.history), None)
  {
    Whole(p); Whole(v); Whole(result);
    ArithOfSymbol(a);
  }

  /** Typing a whole number on a fresh operand. */
  lemma TypeWhole(c: Calc, n: nat)
    requires c.current == "0"
    ensures AppendNumber(c, ShowNat(n)) == c.(current := ShowNat(n))
  {
    WholeParses(n);
  }

  /** How the history writes an expression. */
  lemma Infix(x: string, symbol: string, y: string)
    requires |symbol| == 1
    ensures x + " " + symbol + " " + y == x + [' ', symbol[0], ' '] + y
  {
    assert symbol == [symbol[0]];
  }

  lemma InfixZero(x: string, symbol: string)
    requires |symbol| == 1
    ensures x + " " + symbol + " " + "0" == x + [' ', symbol[0], ' ', '0']
  {
    assert symbol == [symbol[0]];
  }

  /** Running events one at a time. */
  lemma RunThrough(c: Calc, e: Event, next: Calc, rest: seq<Event>)
    requires Handle(c, e).state == next
    ensures Run(c, [e] + rest) == Run(next, rest)
  {
    assert ([e] + rest)[1..] == rest;
  }

  /** Pressing an operator with nothing pending. */
  lemma FirstOperator(c: Calc, op: string)
    requires c.current != "" && c.previous == "" && c.operation == None
    ensures Handle(c, Operator(op)).state == Calc("0", c.current, Some(op), c.history)
  {
  }

  /** Pressing an operator with a whole-number computation pending. */
  lemma ChainedOperator(c: Calc, p: nat, v: nat, a: Arith, result: nat, op: string, history: seq<History.Entry>)
    requires c.previous == ShowNat(p) && c.current == ShowNat(v) && c.operation == Some(Symbol(a))
    requires a != Divide && Apply(a, p as real, v as real) == result as real
    requires history == [History.Entry(Grouped(p) + " " + Symbol(a) + " " + Grouped(v), Grouped(result))] + c.history
    ensures Handle(c, Operator(op)).state == Calc("0", ShowNat(result), Some(op), history)
  {
    assert Handle(c, Operator(op)) == ChooseOperation(c, op);
    Whole(p);
    WholeCompute(c, p, v, a, result);
  }

  /** Pressing "=" with a whole-number computation pending. */
  lemma WholeEquals(c: Calc, p: nat, v: nat, a: Arith, result: nat, history: seq<History.Entry>)
    requires c.previous == ShowNat(p) && c.current == ShowNat(v) && c.operation == Some(Symbol(a))
    requires a != Divide && Apply(a, p as real, v as real) == result as real
    requires history == [History.Entry(Grouped(p) + " " + Symbol(a) + " " + Grouped(v), Grouped(result))] + c.history
    ensures Handle(c, Equals).state == Calc(ShowNat(result), "", None, history)
  {
    HandleEquals(c);
    WholeCompute(c, p, v, a, result);
  }

  /** Typing a whole number as a key press. */
  lemma TypeWholeKey(c: Calc, n: nat)
    requires c.current == "0"
    ensures Handle(c, Key(ShowNat(n))).state == c.(current := ShowNat(n))
  {
    TypeWhole(c, n);
  }

  /** "a op": a whole number and an operator typed on a fresh calculator. */
  lemma {:induction false} TypeOperator(a: nat, op: string)
    ensures Run(Init(), [Key(ShowNat(a)), Operator(op)]) == Calc("0", ShowNat(a), Some(op), [])
  {
    var c1 := Calc(ShowNat(a), "", None, []);
    var c2 := Calc("0", ShowNat(a), Some(op), []);
    TypeWholeKey(Init(), a);
    WholeParses(a);
    FirstOperator(c1, op);
    RunThrough(c1, Operator(op), c2, []);
    RunThrough(Init(), Key(ShowNat(a)), c1, [Operator(op)]);
  }

  /** "a op b": the operands typed, nothing computed yet. */
  lemma {:induction false} TypeOperands(a: nat, op: string, b: nat)
    ensures Run(Init(), [Key(ShowNat(a)), Operator(op), Key(ShowNat(b))])
         == Calc(ShowNat(b), ShowNat(a), Some(op), [])
  {
    var c2 := Calc("0", ShowNat(a), Some(op), []);
    var c3 := Calc(ShowNat(b), ShowNat(a), Some(op), []);
    TypeOperator(a, op);
    TypeWholeKey(c2, b);
    RunThrough(c2, Key(ShowNat(b)), c3, []);
    RunAppend(Init(), [Key(ShowNat(a)), Operator(op)], [Key(ShowNat(b))]);
    assert [Key(ShowNat(a)), Operator(op)] + [Key(ShowNat(b))] == [Key(ShowNat(a)), Operator(op), Key(ShowNat(b))];
  }

  /** "* d" after "a + b": the pending sum is computed and kept on the left. */
  lemma {:induction false} ChainTimes(a: nat, b: nat, d: nat, sum: nat)
    requires sum == a + b
    ensures Run(Calc(ShowNat(b), ShowNat(a), Some("+"), []), [Operator("*"), Key(ShowNat(d))])
         == Calc(ShowNat(d), ShowNat(sum), Some("*"), [History.Entry(Grouped(a) + " + " + Grouped(b), Grouped(sum))])
  {
    var events := [Operator("*"), Key(ShowNat(d))];
    var e1 := History.Entry(Grouped(a) + " + " + Grouped(b), Grouped(sum));
    var c3 := Calc(ShowNat(b), ShowNat(a), Some("+"), []);
    var c4 := Calc("0", ShowNat(sum), Some("*"), [e1]);
    var c5 := Calc(ShowNat(d), ShowNat(sum), Some("*"), [e1]);
    Infix(Grouped(a), Symbol(Add), Grouped(b));
    assert [e1] == [e1] + c3.history;
    ChainedOperator(c3, a, b, Add, sum, "*", [e1]);
    TypeWholeKey(c4, d);
    RunThrough(c4, Key(ShowNat(d)), c5, []);
    RunThrough(c3, Operator("*"), c4, [Key(ShowNat(d))]);
  }

  lemma {:induction false} RunAppend(c: Calc, first: seq<Event>, second: seq<Event>)
    ensures Run(c, first + second) == Run(Run(c, first), second)
    decreases |first|
  {
    if first == [] {
      assert first + second == second;
    } else {
      assert (first + second)[0] == first[0];
      assert (first + second)[1..] == first[1..] + second;
      RunAppend(Handle(c, first[0]).state, first[1..], second);
    }
  }

  /** "=" on a pending whole-number product. */
  lemma EqualsTimes(p: nat, v: nat, product: nat, older: History.Entry)
    requires Apply(Multiply, p as real, v as real) == product as real
    ensures Run(Calc(ShowNat(v), ShowNat(p), Some("*"), [older]), [Equals])
         == Calc(ShowNat(product), "", None, [History.Entry(Grouped(p) + " * " + Grouped(v), Grouped(product)), older])
  {
    var c := Calc(ShowNat(v), ShowNat(p), Some("*"), [older]);
    var entry := History.Entry(Grouped(p) + " * " + Grouped(v), Grouped(product));
    Infix(Grouped(p), Symbol(Multiply), Grouped(v));
    assert [entry, older] == [entry] + c.history;
    WholeEquals(c, p, v, Multiply, product, [entry, older]);
    RunThrough(c, Equals, Calc(ShowNat(product), "", None, [entry, older]), []);
  }

  lemma Compose(c: Calc, first: seq<Event>, second: seq<Event>, third: seq<Event>)
    ensures Run(c, first + second + third) == Run(Run(Run(c, first), second), third)
  {
    RunAppend(c, first, second);
    RunAppend(c, first + second, third);
  }

  lemma Concat7<T>(x0: T, x1: T, x2: T, x3: T, x4: T, x5: T, x6: T)
    ensures [x0, x1, x2] + [x3] + [x4, x5, x6] == [x0, x1, x2, x3, x4, x5, x6]
  {
  }

  lemma Concat6<T>(x0: T, x1: T, x2: T, x3: T, x4: T, x5: T)
    ensures [x0, x1, x2] + [x3, x4] + [x5] == [x0, x1, x2, x3, x4, x5]
  {
  }

  /** `Chained` with the product given as an exact real product. */
  lemma {:induction false} ChainedReal(a: nat, b: nat, d: nat, sum: nat, product: nat)
    requires sum == a + b && Apply(Multiply, sum as real, d as real) == product as real
    ensures Run(Init(), [Key(ShowNat(a)), Operator("+"), Key(ShowNat(b)), Operator("*"), Key(ShowNat(d)), Equals])
         == Calc(ShowNat(product), "", None,
                 [History.Entry(Grouped(sum) + " * " + Grouped(d), Grouped(product)),
                  History.Entry(Grouped(a) + " + " + Grouped(b), Grouped(sum))])
  {
    var first := [Key(ShowNat(a)), Operator("+"), Key(ShowNat(b))];
    var second := [Operator("*"), Key(ShowNat(d))];
    var e1 := History.Entry(Grouped(a) + " + " + Grouped(b), Grouped(sum));
    TypeOperands(a, "+", b);
    ChainTimes(a, b, d, sum);
    EqualsTimes(sum, d, product, e1);
    Compose(Init(), first, second, [Equals]);
    Concat6(Key(ShowNat(a)), Operator("+"), Key(ShowNat(b)), Operator("*"), Key(ShowNat(d)), Equals);
  }

  /** "a + b * d =": the second operator computes a + b first, and both steps are in
      the history, the latest on top. */
  lemma Chained(a: nat, b: nat, d: nat)
    ensures Run(Init(), [Key(ShowNat(a)), Operator("+"), Key(ShowNat(b)), Operator("*"), Key(ShowNat(d)), Equals])
         == Calc(ShowNat((a + b) * d), "", None,
                 [History.Entry(Grouped(a + b) + " * " + Grouped(d), Grouped((a + b) * d)),
                  History.Entry(Grouped(a) + " + " + Grouped(b), Grouped(a + b))])
  {
    MulInt(a + b, d);
    ChainedReal(a, b, d, a + b, (a + b) * d);
  }

  // ---------------------------------------------------------------------------
  // repeated operator presses

  /** "a + +": the second press computes a + 0 and writes it to the history. */
  lemma {:induction false} RepeatedPlus(a: nat)
    ensures Run(Init(), [Key(ShowNat(a)), Operator("+"), Operator("+")])
         == Calc("0", ShowNat(a), Some("+"), [History.Entry(Grouped(a) + " + 0", Grouped(a))])
  {
    var c2 := Calc("0", ShowNat(a), Some("+"), []);
    var entry := History.Entry(Grouped(a) + " + 0", Grouped(a));
    TypeOperator(a, "+");
    ZeroShown();
    InfixZero(Grouped(a), Symbol(Add));
    assert [entry] == [entry] + c2.history;
    ChainedOperator(c2, a, 0, Add, a, "+", [entry]);
    RunThrough(c2, Operator("+"), Calc("0", ShowNat(a), Some("+"), [entry]), []);
    RunAppend(Init(), [Key(ShowNat(a)), Operator("+")], [Operator("+")]);
    assert [Key(ShowNat(a)), Operator("+")] + [Operator("+")] == [Key(ShowNat(a)), Operator("+"), Operator("+")];
  }

  /** "a * *": the second press multiplies by the fresh "0", so the left operand becomes 0. */
  lemma {:induction false} RepeatedTimes(a: nat)
    ensures Run(Init(), [Key(ShowNat(a)), Operator("*"), Operator("*")])
         == Calc("0", "0", Some("*"), [History.Entry(Grouped(a) + " * 0", "0")])
  {
    var c2 := Calc("0", ShowNat(a), Some("*"), []);
    var entry := History.Entry(Grouped(a) + " * 0", "0");
    TypeOperator(a, "*");
    ZeroShown();
    InfixZero(Grouped(a), Symbol(Multiply));
    assert [entry] == [entry] + c2.history;
    ChainedOperator(c2, a, 0, Multiply, 0, "*", [entry]);
    RunThrough(c2, Operator("*"), Calc("0", "0", Some("*"), [entry]), []);
    RunAppend(Init(), [Key(ShowNat(a)), Operator("*")], [Operator("*")]);
    assert [Key(ShowNat(a)), Operator("*")] + [Operator("*")] == [Key(ShowNat(a)), Operator("*"), Operator("*")];
  }

  /** Dividing by the fresh "0": the alert and the clear state, then the operator is pending on "0". */
  lemma DivideByFreshZero(a: nat)
    ensures Handle(Calc("0", ShowNat(a), Some("/"), []), Operator("/"))
         == Step(Calc("0", "0", Some("/"), []), Some(DivisionByZeroAlert))
  {
    var c2 := Calc("0", ShowNat(a), Some("/"), []);
    WholeParses(a);
    WholeParses(0);
    ZeroShown();
    ArithOfSymbol(Divide);
    assert Parse(c2.previous).Some? && Parse(c2.current) == Some(0.0) && ArithOf(c2.operation) == Some(Divide);
    assert Compute(c2) == Step(Clear(c2), Some(DivisionByZeroAlert));
  }

  /** "a / /": the second press divides by the fresh "0": the alert, the clear state, then "0 /". */
  lemma {:induction false} RepeatedDivide(a: nat)
    ensures Run(Init(), [Key(ShowNat(a)), Operator("/"), Operator("/")]) == Calc("0", "0", Some("/"), [])
    ensures Alerts(Init(), [Key(ShowNat(a)), Operator("/"), Operator("/")]) == [DivisionByZeroAlert]
  {
    var c1 := Calc(ShowNat(a), "", None, []);
    var c2 := Calc("0", ShowNat(a), Some("/"), []);
    var events := [Key(ShowNat(a)), Operator("/"), Operator("/")];
    TypeOperator(a, "/");
    DivideByFreshZero(a);
    RunThrough(c2, Operator("/"), Calc("0", "0", Some("/"), []), []);
    RunAppend(Init(), [Key(ShowNat(a)), Operator("/")], [Operator("/")]);
    assert [Key(ShowNat(a)), Operator("/")] + [Operator("/")] == events;
    TypeWholeKey(Init(), a);
    WholeParses(a);
    FirstOperator(c1, "/");
    assert Handle(Init(), events[0]) == Step(c1, None);
    assert Handle(c1, events[1]) == Step(c2, None);
    assert Alerts(Init(), events) == Alerts(c1, events[1..]);
    assert Alerts(c1, events[1..]) == Alerts(c2, events[2..]);
    assert Alerts(c2, events[2..]) == [DivisionByZeroAlert] + Alerts(Calc("0", "0", Some("/"), []), []);
  }

  lemma ZeroShown()
    ensures ShowNat(0) == "0" && Grouped(0) == "0"
  {
  }

  // ---------------------------------------------------------------------------
  // reaching an operand with a bare minus sign

  /** `compute` on two whole operands giving a negative whole result. */
  lemma NegativeCompute(c: Calc, p: nat, v: nat, a: Arith, result: int, history: seq<History.Entry>)
    requires c.previous == ShowNat(p) && c.current == ShowNat(v) && c.operation == Some(Symbol(a))
    requires a != Divide && Apply(a, p as real, v as real) == result as real && result < 0
    requires history == [History.Entry(Grouped(p) + " " + Symbol(a) + " " + Grouped(v), "-" + Grouped(-result))] + c.history
    ensures Compute(c) == Step(Calc("-" + ShowNat(-result), "", None, history), None)
  {
    WholeParses(p); WholeParses(v);
    WholeDisplays(p); WholeDisplays(v);
    ArithOfSymbol(a);
    NegativeShown(result);
    assert Computes(c);
    assert ComputedValue(c) == result as real;
  }

  lemma WholeDisplays(n: nat)
    ensures Display.DisplayNumber(Show(n as real)) == Grouped(n)
  {
    Display.DisplayInteger(n);
  }

  /** A negative whole number prints as "-" and its digits, and displays with its digits grouped. */
  lemma NegativeShown(i: int)
    requires i < 0
    ensures Show(i as real) == "-" + ShowNat(-i)
    ensures Display.DisplayNumber(Show(i as real)) == "-" + Grouped(-i)
  {
    ShowInteger(i);
    Display.DisplayInteger(i);
  }

  /** "a - b =" with a < b leaves a negative whole result. */
  lemma {:induction false} NegativeDifference(a: nat, b: nat, diff: nat)
    requires a < b && diff == b - a
    ensures Run(Calc(ShowNat(b), ShowNat(a), Some("-"), []), [Equals])
         == Calc("-" + ShowNat(diff), "", None, [History.Entry(Grouped(a) + " - " + Grouped(b), "-" + Grouped(diff))])
  {
    var c := Calc(ShowNat(b), ShowNat(a), Some("-"), []);
    var entry := History.Entry(Grouped(a) + " - " + Grouped(b), "-" + Grouped(diff));
    NegativeEquals(a, b, diff);
    RunThrough(c, Equals, Calc("-" + ShowNat(diff), "", None, [entry]), []);
  }

  lemma NegativeEquals(a: nat, b: nat, diff: nat)
    requires a < b && diff == b - a
    ensures Handle(Calc(ShowNat(b), ShowNat(a), Some("-"), []), Equals).state
         == Calc("-" + ShowNat(diff), "", None, [History.Entry(Grouped(a) + " - " + Grouped(b), "-" + Grouped(diff))])
  {
    NegativeSubtract(a, b, diff);
    HandleEquals(Calc(ShowNat(b), ShowNat(a), Some("-"), []));
  }

  lemma NegativeSubtract(a: nat, b: nat, diff: nat)
    requires a < b && diff == b - a
    ensures Compute(Calc(ShowNat(b), ShowNat(a), Some("-"), []))
         == Step(Calc("-" + ShowNat(diff), "", None, [History.Entry(Grouped(a) + " - " + Grouped(b), "-" + Grouped(diff))]), None)
  {
    var c := Calc(ShowNat(b), ShowNat(a), Some("-"), []);
    var entry := History.Entry(Grouped(a) + " - " + Grouped(b), "-" + Grouped(diff));
    var result: int := a - b;
    assert -result == diff && result < 0;
    assert Apply(Subtract, a as real, b as real) == result as real;
    Infix(Grouped(a), Symbol(Subtract), Grouped(b));
    assert entry == History.Entry(Grouped(a) + " " + Symbol(Subtract) + " " + Grouped(b), "-" + Grouped(-result));
    assert [entry] == [entry] + c.history;
    NegativeCompute(c, a, b, Subtract, result, [entry]);
  }

  /** Deleting the last digit of a one-digit negative result leaves a bare "-", which
      the following keys extend to "-.d". */
  lemma {:induction false} BareMinus(k: nat, d: nat, history: seq<History.Entry>)
    requires 0 < k < 10
    ensures Run(Calc("-" + ShowNat(k), "", None, history), [Backspace, Key("."), Key(ShowNat(d))])
         == Calc("-." + ShowNat(d), "", None, history)
  {
    var c4 := Calc("-" + ShowNat(k), "", None, history);
    var c5 := Calc("-", "", None, history);
    var c6 := Calc("-.", "", None, history);
    var c7 := Calc("-." + ShowNat(d), "", None, history);
    assert |ShowNat(k)| == 1;
    assert Handle(c4, Backspace).state == c5;
    assert Handle(c5, Key(".")).state == c6;
    WholeParses(d);
    assert Handle(c6, Key(ShowNat(d))).state == c7;
    RunThrough(c6, Key(ShowNat(d)), c7, []);
    RunThrough(c5, Key("."), c6, [Key(ShowNat(d))]);
    RunThrough(c4, Backspace, c5, [Key("."), Key(ShowNat(d))]);
  }

  /** "a - b = DEL . d" with b - a a single digit: the operand becomes "-.d", the
      text on which `Display.DisplayAsWritten` drops the sign. */
  lemma NegativeFractionReachable(a: nat, b: nat, d: nat)
    requires a < b < a + 10
    ensures Run(Init(), [Key(ShowNat(a)), Operator("-"), Key(ShowNat(b)), Equals, Backspace, Key("."), Key(ShowNat(d))]).current
         == "-." + ShowNat(d)
  {
    var first := [Key(ShowNat(a)), Operator("-"), Key(ShowNat(b))];
    var diff := b - a;
    var entry := History.Entry(Grouped(a) + " - " + Grouped(b), "-" + Grouped(diff));
    TypeOperands(a, "-", b);
    NegativeDifference(a, b, diff);
    BareMinus(diff, d, [entry]);
    Compose(Init(), first, [Equals], [Backspace, Key("."), Key(ShowNat(d))]);
    Concat7(Key(ShowNat(a)), Operator("-"), Key(ShowNat(b)), Equals, Backspace, Key("."), Key(ShowNat(d)));
  }
}
