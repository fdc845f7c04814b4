/** The `Calculator` class: the operand being typed, the operand kept on the left of
    a pending operation, that operation, and the history it writes to. */
module Calculator {
  import opened Wrappers
  import opened Numbers
  import Operand
  import Display
  import History

  datatype Calc = Calc(current: string, previous: string, operation: Option<string>, history: seq<History.Entry>)

  /** A state together with the alert, if any, that the transition raised. */
  datatype Step = Step(state: Calc, alert: Option<string>)

  const DivisionByZeroAlert: string := "0으로 나눌 수 없습니다."

  /** The state the constructor leaves, with an empty history. */
  function Init(): (c: Calc)
    ensures c.current == "0" && c.previous == "" && c.operation == None && c.history == []
  {
    Calc(Operand.Zero, "", None, [])
  }

  /** `clear`: back to "0" with nothing pending; the history is kept. */
  function Clear(c: Calc): (r: Calc)
    ensures r.current == "0" && r.previous == "" && r.operation == None
    ensures r.history == c.history
  {
    c.(current := Operand.Zero, previous := "", operation := None)
  }

  /** `delete`: only the current operand changes. */
  function Delete(c: Calc): (r: Calc)
    ensures |c.current| == 1 ==> r.current == "0"
    ensures |c.current| > 1 ==> c.current == r.current + [c.current[|c.current| - 1]]
    ensures c.current != [] ==> r.current != []
    ensures r.previous == c.previous && r.operation == c.operation && r.history == c.history
  {
    c.(current := Operand.Delete(c.current))
  }

  /** `appendNumber`: only the current operand changes. */
  function AppendNumber(c: Calc, input: string): (r: Calc)
    ensures input == "." && '.' in c.current ==> r == c
    ensures c.current == "0" && input != "." ==> r.current == input
    ensures c.current != "0" && input != "." ==> r.current == c.current + input
    ensures input == "." && '.' !in c.current ==> r.current == c.current + "."
    ensures r.current == Operand.Append(c.current, input)
    ensures r.previous == c.previous && r.operation == c.operation && r.history == c.history
  {
    c.(current := Operand.Append(c.current, input))
  }

  // ---------------------------------------------------------------------------
  // compute

  datatype Arith = Add | Subtract | Multiply | Divide

  /** The `case` labels of the switch in `compute`. */
  function Symbol(a: Arith): string {
    match a
    case Add => "+"
    case Subtract => "-"
    case Multiply => "*"
    case Divide => "/"
  }

  /** The case of the switch an operation string selects; None is the `default` branch. */
  function ArithOf(operation: Option<string>): (r: Option<Arith>)
    ensures r.Some? ==> operation == Some(Symbol(r.value))
  {
    if operation == Some("+") then Some(Add)
    else if operation == Some("-") then Some(Subtract)
    else if operation == Some("*") then Some(Multiply)
    else if operation == Some("/") then Some(Divide)
    else None
  }

  lemma ArithOfSymbol(a: Arith)
    ensures ArithOf(Some(Symbol(a))) == Some(a)
  {
  }

  /** Exact arithmetic in place of IEEE 754 doubles. */
  function Apply(a: Arith, p: real, v: real): real
    requires a == Divide ==> v != 0.0
  {
    match a
    case Add => p + v
    case Subtract => p - v
    case Multiply => p * v
    case Divide => p / v
  }

  /** The history line of a computation: both operands and the result as `getDisplayNumber` shows them. */
  function HistoryEntry(p: real, a: Arith, v: real, result: real): (e: History.Entry)
    // clicking the entry restores the value the stored result's text reads as
    ensures Parse(Display.StripCommas(e.result)) == Parse(Show(result))
    // which is the result itself when it has at most 20 decimals
    ensures ShortDecimal(result) ==> Parse(Display.StripCommas(e.result)) == Some(result)
    // the expression is the two shown operands around the operation's symbol, each
    // reading (separators removed) as its stored text does
    ensures exists x, y ::
              && e.expression == x + " " + Symbol(a) + " " + y
              && Parse(Display.StripCommas(x)) == Parse(Show(p))
              && Parse(Display.StripCommas(y)) == Parse(Show(v))
  {
    var e := History.Entry(Display.DisplayNumber(Show(p)) + " " + Symbol(a) + " " + Display.DisplayNumber(Show(v)),
                           Display.DisplayNumber(Show(result)));
    ShownReadsAsStored(p);
    ShownReadsAsStored(v);
    ShownReadsAsStored(result);
    if ShortDecimal(result) then ShowRoundTrip(result); e else e
  }

  /** The displayed text of any stored result, separators removed, reads as the stored text does. */
  lemma ShownReadsAsStored(r: real)
    ensures Parse(Display.StripCommas(Display.DisplayNumber(Show(r)))) == Parse(Show(r))
  {
    var n := ToNumeral(r);
    assert Show(r) == Text(n);
    ParseText(n);
    Display.DisplayRoundTrip(n);
  }

  /** When `compute` gets past its guards: both operands parse, a known operation is
      pending, and it is not a division by zero. */
  predicate Computes(c: Calc) {
    Parse(c.previous).Some? && Parse(c.current).Some? && ArithOf(c.operation).Some?
    && !(ArithOf(c.operation) == Some(Divide) && Parse(c.current) == Some(0.0))
  }

  /** The value a successful `compute` stores. */
  function ComputedValue(c: Calc): real
    requires Computes(c)
  {
    Apply(ArithOf(c.operation).value, Parse(c.previous).value, Parse(c.current).value)
  }

  /** `compute`. */
  function Compute(c: Calc): (r: Step)
    // an unparseable operand or no known operation: nothing happens
    ensures Parse(c.previous).None? || Parse(c.current).None? || ArithOf(c.operation).None?
      ==> r == Step(c, None)
    // a division by zero: the alert and the clear state, no history entry
    ensures Parse(c.previous).Some? && ArithOf(c.operation) == Some(Divide) && Parse(c.current) == Some(0.0)
      ==> r == Step(Clear(c), Some(DivisionByZeroAlert))
    // otherwise: one entry on top of the history, the result stored, nothing pending
    ensures Computes(c) ==>
      && r.alert == None
      && r.state.history == [HistoryEntry(Parse(c.previous).value, ArithOf(c.operation).value,
                                         Parse(c.current).value, ComputedValue(c))] + c.history
      && r.state.current == Show(ComputedValue(c))
      && r.state.previous == "" && r.state.operation == None
  {
    match (Parse(c.previous), Parse(c.current), ArithOf(c.operation))
    case (Some(p), Some(v), Some(a)) =>
      if a == Divide && v == 0.0 then Step(Clear(c), Some(DivisionByZeroAlert))
      else
        var result := Apply(a, p, v);
        Step(Calc(Show(result), "", None, History.AddEntry(c.history, HistoryEntry(p, a, v, result))), None)
    case _ => Step(c, None)
  }

  /** The stored result reads back as the computed value (for results of at most 20 decimals). */
  lemma ComputeStoresValue(c: Calc)
    requires Computes(c) && ShortDecimal(ComputedValue(c))
    ensures Parse(Compute(c).state.current) == Some(ComputedValue(c))
  {
    ShowRoundTrip(ComputedValue(c));
  }

  /** The history grows exactly when `compute` gets past all its guards. */
  lemma ComputeAddsHistoryIff(c: Calc)
    ensures Compute(c).state.history != c.history <==> Computes(c)
    ensures Compute(c).state.history == c.history || |Compute(c).state.history| == |c.history| + 1
  {
    if Computes(c) {
      assert |Compute(c).state.history| == |c.history| + 1;
    }
  }

  /** The history result, with its separators removed as the click-to-restore handler
      does, reads back as the computed value (for results of at most 20 decimals). */
  lemma HistoryResultRestores(c: Calc)
    requires Computes(c) && ShortDecimal(ComputedValue(c))
    ensures Parse(Display.StripCommas(Compute(c).state.history[0].result)) == Some(ComputedValue(c))
  {
    var result := ComputedValue(c);
    var h := Compute(c).state.history;
    assert h[0] == HistoryEntry(Parse(c.previous).value, ArithOf(c.operation).value, Parse(c.current).value, result);
    ShownRestores(result);
  }

  lemma ShownRestores(r: real)
    requires ShortDecimal(r)
    ensures Parse(Display.StripCommas(Display.DisplayNumber(Show(r)))) == Some(r)
  {
    var n := ToNumeral(r);
    assert Show(r) == Text(n);
    ShowRoundTrip(r);
    ParseText(n);
    assert Value(n) == r;
    Display.DisplayRoundTrip(n);
  }

  // ---------------------------------------------------------------------------
  // chooseOperation

  /** `chooseOperation`: a pending operation is computed first; then the current
      operand moves to the left and a fresh "0" is started. */
  function ChooseOperation(c: Calc, operation: string): (r: Step)
    ensures c.current == "" ==> r == Step(c, None)
    ensures c.current != "" && c.previous == "" ==>
      r == Step(Calc("0", c.current, Some(operation), c.history), None)
    ensures c.current != "" && c.previous != "" ==>
      var s := Compute(c);
      r == Step(Calc("0", s.state.current, Some(operation), s.state.history), s.alert)
  {
    if c.current == "" then Step(c, None)
    else
      var s := if c.previous != "" then Compute(c) else Step(c, None);
      Step(s.state.(operation := Some(operation), previous := s.state.current, current := Operand.Zero), s.alert)
  }

  /** Chaining: with a computable pending operation, the next operator keeps its result on the left. */
  lemma ChainedOperation(c: Calc, operation: string)
    requires Computes(c) && ShortDecimal(ComputedValue(c))
    ensures c.current != "" && c.previous != ""
    ensures var r := ChooseOperation(c, operation).state;
      Parse(r.previous) == Some(ComputedValue(c)) && r.current == "0" && r.operation == Some(operation)
      && |r.history| == |c.history| + 1
  {
    ParseEmpty();
    ComputeStoresValue(c);
  }

  // ---------------------------------------------------------------------------
  // the percent key

  /** The operand the percent key leaves: a hundredth of the old value, or "NaN". */
  function PercentText(operand: string): (t: string)
    ensures t != ""
    ensures Parse(operand).None? ==> t == "NaN"
    ensures Parse(operand).Some? && ShortDecimal(Parse(operand).value / 100.0)
      ==> Parse(t) == Some(Parse(operand).value / 100.0)
  {
    match Parse(operand)
    case None => "NaN"
    case Some(v) =>
      var h := v / 100.0;
      if ShortDecimal(h) then ShowRoundTrip(h); Show(h) else Show(h)
  }

  /** The percent key's handler: only a non-empty current operand changes. */
  function Percent(c: Calc): (r: Calc)
    ensures c.current == "" ==> r == c
    ensures c.current != "" ==> r.current == PercentText(c.current) && r.current != ""
    ensures r.previous == c.previous && r.operation == c.operation && r.history == c.history
  {
    if c.current == "" then c else c.(current := PercentText(c.current))
  }

  // ---------------------------------------------------------------------------
  // sequences of key presses

  /** The calculator's keys (and the history panel's clear button). */
  datatype Event =
    | Key(input: string)        // a number button, or a digit run from the voice path
    | Operator(symbol: string)
    | Equals
    | AllClear
    | Backspace
    | PercentKey
    | ClearHistory

  /** One event's handler, as the button listeners wire them. */
  function Handle(c: Calc, e: Event): (r: Step)
    // only a computation raises an alert, and it is the division-by-zero one
    ensures r.alert.Some? ==> (e.Equals? || e.Operator?) && r.alert == Some(DivisionByZeroAlert)
    // the history panel's clear button empties the history and nothing else
    ensures e.ClearHistory? ==> r.state == c.(history := [])
    // every other key keeps the history, or a computation puts one entry on top of it
    ensures !e.ClearHistory? ==>
      r.state.history == c.history || ((e.Equals? || e.Operator?) && r.state.history != [] && r.state.history[1..] == c.history)
  {
    match e
    case Key(input) => Step(AppendNumber(c, input), None)
    case Operator(symbol) => OperatorSteps(c, symbol); ChooseOperation(c, symbol)
    case Equals => ComputeSteps(c); Compute(c)
    case AllClear => Step(Clear(c), None)
    case Backspace => Step(Delete(c), None)
    case PercentKey => Step(Percent(c), None)
    case ClearHistory => Step(c.(history := History.Clear(c.history)), None)
  }

  /** A computation raises only the division-by-zero alert and adds at most one entry on top. */
  lemma ComputeSteps(c: Calc)
    ensures var r := Compute(c);
      && (r.alert.Some? ==> r.alert == Some(DivisionByZeroAlert))
      && (r.state.history == c.history || (r.state.history != [] && r.state.history[1..] == c.history))
  {
  }

  lemma OperatorSteps(c: Calc, operation: string)
    ensures var r := ChooseOperation(c, operation);
      && (r.alert.Some? ==> r.alert == Some(DivisionByZeroAlert))
      && (r.state.history == c.history || (r.state.history != [] && r.state.history[1..] == c.history))
  {
    if c.current != "" && c.previous != "" {
      ComputeSteps(c);
    }
  }

  /** The "=" key runs `compute`. */
  lemma HandleEquals(c: Calc)
    ensures Handle(c, Equals) == Compute(c)
  {
  }

  /** No event is the history panel's clear button. */
  predicate KeepsHistory(events: seq<Event>) {
    forall i :: 0 <= i < |events| ==> !events[i].ClearHistory?
  }

  /** The state after a sequence of events. */
  function Run(c: Calc, events: seq<Event>): Calc
    decreases |events|
  {
    if events == [] then c else Run(Handle(c, events[0]).state, events[1..])
  }

  /** Without the clear-history button the old history stays at the bottom of the new one. */
  lemma {:induction false} RunKeepsHistory(c: Calc, events: seq<Event>)
    requires KeepsHistory(events)
    ensures Below(c.history, Run(c, events).history)
    decreases |events|
  {
    if events != [] {
      var s := Handle(c, events[0]).state;
      KeepsHistoryTail(events);
      RunKeepsHistory(s, events[1..]);
      BelowBelow(c.history, s.history, Run(c, events).history);
    } else {
      assert c.history[|c.history| - |c.history|..] == c.history;
    }
  }

  lemma KeepsHistoryTail(events: seq<Event>)
    requires events != [] && KeepsHistory(events)
    ensures !events[0].ClearHistory? && KeepsHistory(events[1..])
  {
    forall i | 0 <= i < |events[1..]| ensures !events[1..][i].ClearHistory? {
      assert events[1..][i] == events[i + 1];
    }
  }

  /** `a` is the bottom of the history `d`. */
  predicate Below(a: seq<History.Entry>, d: seq<History.Entry>) {
    |a| <= |d| && d[|d| - |a|..] == a
  }

  /** The bottom of the bottom of a history is at its bottom. */
  lemma BelowBelow(a: seq<History.Entry>, b: seq<History.Entry>, d: seq<History.Entry>)
    requires b == a || (b != [] && b[1..] == a)
    requires Below(b, d)
    ensures Below(a, d)
  {
    if b != a {
      assert d[|d| - |a|..] == d[|d| - |b|..][1..];
    }
  }

  /** The alerts raised along a sequence of events, in order. */
  function Alerts(c: Calc, events: seq<Event>): seq<string>
    decreases |events|
  {
    if events == [] then []
    else
      var s := Handle(c, events[0]);
      (if s.alert.Some? then [s.alert.value] else []) + Alerts(s.state, events[1..])
  }

  /** The shape every reachable state has: an operand is being typed, and there is a
      left operand exactly when an operation is pending. */
  predicate Consistent(c: Calc) {
    c.current != "" && (c.operation.None? <==> c.previous == "")
  }

  predicate KeyInput(e: Event) {
    e.Key? ==> e.input != ""
  }

  lemma ComputeConsistent(c: Calc)
    requires Consistent(c)
    ensures Consistent(Compute(c).state)
  {
  }

  lemma HandleConsistent(c: Calc, e: Event)
    requires Consistent(c) && KeyInput(e)
    ensures Consistent(Handle(c, e).state)
  {
    match e
    case Operator(symbol) =>
      if c.previous != "" {
        ComputeConsistent(c);
      }
    case Equals => ComputeConsistent(c);
    case PercentKey =>
    case _ =>
  }

  /** Every state reachable from the initial one by keys with non-empty input is consistent. */
  lemma {:induction false} RunConsistent(c: Calc, events: seq<Event>)
    requires Consistent(c)
    requires forall i :: 0 <= i < |events| ==> KeyInput(events[i])
    ensures Consistent(Run(c, events))
    decreases |events|
  {
    if events != [] {
      HandleConsistent(c, events[0]);
      RunConsistent(Handle(c, events[0]).state, events[1..]);
    }
  }

  lemma ReachableConsistent(events: seq<Event>)
    requires forall i :: 0 <= i < |events| ==> KeyInput(events[i])
    ensures Consistent(Run(Init(), events))
  {
    RunConsistent(Init(), events);
  }

  /** Each alert is the division-by-zero message, and the history only ever grows by
      computations or is emptied. */
  lemma {:induction false} AlertsAreDivisionByZero(c: Calc, events: seq<Event>)
    ensures forall i :: 0 <= i < |Alerts(c, events)| ==> Alerts(c, events)[i] == DivisionByZeroAlert
    decreases |events|
  {
    if events != [] {
      var s := Handle(c, events[0]);
      AlertsAreDivisionByZero(s.state, events[1..]);
      assert s.alert.Some? ==> s.alert.value == DivisionByZeroAlert;
    }
  }
}
