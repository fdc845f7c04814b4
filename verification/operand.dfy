/** The edit rules for the operand being typed, shared by the calculator and the
    currency converter (`appendNumber` and `delete` in script.js). */
module Operand {
  import opened Digits

  /** The operand every reset starts from. */
  const Zero: string := "0"

  /** A key of the keypad: one digit or the decimal point. */
  predicate IsKey(key: string) {
    |key| == 1 && (IsDigit(key[0]) || key[0] == '.')
  }

  /** No decimal point occurs twice. */
  predicate AtMostOnePoint(s: string) {
    forall i, j :: 0 <= i < |s| && 0 <= j < |s| && s[i] == '.' && s[j] == '.' ==> i == j
  }

  /** `appendNumber(input)`: a second decimal point is ignored, a lone "0" is replaced
      by anything but a point, and otherwise the input is added at the end. */
  function Append(operand: string, input: string): (r: string)
    ensures input == "." ==> '.' in r
    ensures input == "." && '.' in operand ==> r == operand
    ensures operand == Zero && input != "." ==> r == input
    ensures operand != Zero && input != "." ==> r == operand + input
    ensures operand == Zero && input == "." ==> r == "0."
    ensures !(input == "." && '.' in operand) && !(operand == Zero && input != ".") ==> r == operand + input
  {
    if input == "." && '.' in operand then operand
    else if operand == Zero && input != "." then input
    else operand + input
  }

  /** `delete()`: a one-character operand falls back to "0"; otherwise the last
      character is dropped (slicing the empty string gives the empty string). */
  function Delete(operand: string): (r: string)
    ensures |operand| == 1 ==> r == Zero
    ensures |operand| > 1 ==> operand == r + [operand[|operand| - 1]]
    ensures operand != [] <==> r != []
  {
    if |operand| == 1 then Zero
    else if operand == [] then []
    else operand[..|operand| - 1]
  }

  /** Pressing the point key twice is the same as pressing it once. */
  lemma AppendPointIdempotent(operand: string)
    ensures Append(Append(operand, "."), ".") == Append(operand, ".")
  {
  }

  /** Typing a key keeps the operand free of a second decimal point. */
  lemma AppendKeepsOnePoint(operand: string, input: string)
    requires AtMostOnePoint(operand)
    requires input == "." || '.' !in input
    ensures AtMostOnePoint(Append(operand, input))
  {
    var r := Append(operand, input);
    if input == "." && '.' in operand {
    } else if operand == Zero && input != "." {
      assert r == input && '.' !in r;
    } else if input == "." {
      assert '.' !in operand;
      forall i | 0 <= i < |operand| ensures r[i] == operand[i] && r[i] != '.' {
      }
    } else {
      forall i | |operand| <= i < |r| ensures r[i] == input[i - |operand|] && r[i] != '.' {
      }
      forall i | 0 <= i < |operand| ensures r[i] == operand[i] {
      }
    }
  }

  /** Deleting never introduces a decimal point twice. */
  lemma DeleteKeepsOnePoint(operand: string)
    requires AtMostOnePoint(operand)
    ensures AtMostOnePoint(Delete(operand))
  {
  }

  /** Delete undoes a key that was not ignored. */
  lemma DeleteUndoesAppend(operand: string, key: string)
    requires operand != [] && IsKey(key)
    requires !(key == "." && '.' in operand)
    ensures Delete(Append(operand, key)) == operand
  {
    var r := Append(operand, key);
    if operand == Zero && key != "." {
      assert |r| == 1;
    } else {
      assert r == operand + key;
      assert r[..|r| - 1] == operand;
    }
  }

  /** Typing the keys of `keys` one after another. */
  function TypeKeys(operand: string, keys: string): string
    decreases |keys|
  {
    if keys == [] then operand else TypeKeys(Append(operand, [keys[0]]), keys[1..])
  }

  /** `digits` without its leading zeros. */
  function DropLeadingZeros(digits: string): (r: string)
    ensures |r| <= |digits| && r == digits[|digits| - |r|..]
  {
    if digits != [] && digits[0] == '0' then DropLeadingZeros(digits[1..]) else digits
  }

  /** Typing digits after a typed operand other than "0" simply extends it. */
  lemma {:induction false} TypeDigitsExtends(operand: string, digits: string)
    requires operand != [] && operand != Zero
    requires AllDigits(digits)
    ensures TypeKeys(operand, digits) == operand + digits
    decreases |digits|
  {
    if digits != [] {
      var next := Append(operand, [digits[0]]);
      assert next == operand + [digits[0]];
      TypeDigitsExtends(next, digits[1..]);
      assert next + digits[1..] == operand + digits;
    }
  }

  /** Typing digits on a fresh "0" gives the digits without their leading zeros,
      or "0" when every digit typed was a zero. */
  lemma {:induction false} TypeDigitsFromZero(digits: string)
    requires AllDigits(digits)
    ensures TypeKeys(Zero, digits)
         == (if DropLeadingZeros(digits) == [] then Zero else DropLeadingZeros(digits))
  {
    if digits != [] {
      if digits[0] == '0' {
        assert Append(Zero, [digits[0]]) == Zero;
        TypeDigitsFromZero(digits[1..]);
      } else {
        var next := Append(Zero, [digits[0]]);
        assert next == [digits[0]];
        TypeDigitsExtends(next, digits[1..]);
        assert next + digits[1..] == digits;
      }
    }
  }

  /** Dropping leading zeros keeps the number the digits denote. */
  lemma {:induction false} DropLeadingZerosValue(digits: string)
    requires AllDigits(digits)
    ensures AllDigits(DropLeadingZeros(digits))
    ensures NatOf(DropLeadingZeros(digits)) == NatOf(digits)
  {
    if digits != [] && digits[0] == '0' {
      var rest := digits[1..];
      DropLeadingZerosValue(rest);
      NatOfAppend("0", rest);
      assert "0" + rest == digits;
      assert NatOf("0") == 0;
      assert NatOf(digits) == 0 * Pow10(|rest|) + NatOf(rest);
    }
  }
}
