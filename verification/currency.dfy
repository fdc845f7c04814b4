/** The `CurrencyConverter`'s amount entry: the same edit rules as the calculator's
    current operand, on an amount of its own. */
module Currency {
  import Operand
  import Calculator

  datatype Converter = Converter(amount: string)

  /** The constructor: the amount starts at "0". */
  function Init(): (c: Converter)
    ensures c.amount == "0"
  {
    Converter(Operand.Zero)
  }

  /** `clear`: the amount goes back to "0". */
  function Clear(c: Converter): (r: Converter)
    ensures r.amount == "0"
  {
    Converter(Operand.Zero)
  }

  /** `delete`: the last character goes, or a single one becomes "0". */
  function Delete(c: Converter): (r: Converter)
    ensures |c.amount| == 1 ==> r.amount == "0"
    ensures |c.amount| > 1 ==> c.amount == r.amount + [c.amount[|c.amount| - 1]]
    ensures c.amount != [] ==> r.amount != []
  {
    Converter(Operand.Delete(c.amount))
  }

  /** `appendNumber`. */
  function AppendNumber(c: Converter, input: string): (r: Converter)
    ensures input == "." && '.' in c.amount ==> r == c
    ensures c.amount == "0" && input != "." ==> r.amount == input
    ensures c.amount != "0" && input != "." ==> r.amount == c.amount + input
    ensures input == "." && '.' !in c.amount ==> r.amount == c.amount + "."
    ensures r.amount == Operand.Append(c.amount, input)
  {
    Converter(Operand.Append(c.amount, input))
  }

  /** The converter's edits are the calculator's edits of its current operand. */
  lemma SameEditRules(c: Converter, machine: Calculator.Calc, input: string)
    requires c.amount == machine.current
    ensures AppendNumber(c, input).amount == Calculator.AppendNumber(machine, input).current
    ensures Delete(c).amount == Calculator.Delete(machine).current
    ensures Clear(c).amount == Calculator.Clear(machine).current
  {
  }

  /** Keys typed on the converter, one after another. */
  function TypeKeys(c: Converter, keys: seq<string>): Converter
    decreases |keys|
  {
    if keys == [] then c else TypeKeys(AppendNumber(c, keys[0]), keys[1..])
  }

  /** Keys typed one after another on the calculator's current operand. */
  function TypeCalculatorKeys(machine: Calculator.Calc, keys: seq<string>): Calculator.Calc
    decreases |keys|
  {
    if keys == [] then machine else TypeCalculatorKeys(Calculator.AppendNumber(machine, keys[0]), keys[1..])
  }

  /** Typing the same keys gives the same amount and operand, from the same start. */
  lemma {:induction false} SameTyping(c: Converter, machine: Calculator.Calc, keys: seq<string>)
    requires c.amount == machine.current
    ensures TypeKeys(c, keys).amount == TypeCalculatorKeys(machine, keys).current
    decreases |keys|
  {
    if keys != [] {
      SameEditRules(c, machine, keys[0]);
      SameTyping(AppendNumber(c, keys[0]), Calculator.AppendNumber(machine, keys[0]), keys[1..]);
    }
  }

  /** A point typed twice is kept once. */
  lemma PointOnce(c: Converter)
    ensures AppendNumber(AppendNumber(c, "."), ".") == AppendNumber(c, ".")
  {
    Operand.AppendPointIdempotent(c.amount);
  }
}
