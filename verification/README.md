# Smart calculator: the calculator core, its history and its voice commands

This project models the logic of the smart calculator's `script.js`:

- the `Calculator` class, which edits the operand being typed (`appendNumber`, `delete`, `clear`), keeps a pending operation (`chooseOperation`, which computes a pending operation first), computes it (`compute`, including the division-by-zero alert) and formats numbers for display (`getDisplayNumber`);
- the `HistoryManager`, whose list of past calculations `compute` writes to, newest first;
- the amount entry of the `CurrencyConverter`, which follows the calculator's edit rules;
- `processVoiceCommand`, which removes whitespace from the recognised text, turns spoken operator words into `+ - * /`, and looks for the first "digits operator digits". When it finds one, it replays it on the calculator as key presses. Otherwise it raises the "not understood" alert.

Numbers are exact (`real`). `parseFloat` is modelled as a scanner of the numeral at the front of a text (`Numbers.Scan`). `String(number)` is modelled as the whole part followed by at most 20 decimals (`Numbers.Show`). The two round-trip for every value of at most 20 decimals.

An alert is part of a transition's result (`Calculator.Step`), not an effect. The key handlers become `Calculator.Event`s, run in sequence by `Calculator.Run`. The handlers' `updateDisplay` calls only redraw.

The modules:

- `Digits`: digit runs and the naturals they denote.
- `Numbers`: `parseFloat` and number text.
- `Operand`: the edit rules shared by both entries.
- `Display`: `getDisplayNumber`.
- `History`.
- `Calculator`.
- `Currency`.
- `Voice`.
- `StoredNumber`: the result stored as a number, as script.js does.
- `Scenarios` and `VoiceScenarios`: key sequences and voice commands worked out in full.

The voice alert shows the text after whitespace removal and word replacement. The function reassigns `text` before the alert, so the user's original words are not what is shown (script.js:389-395, 413-415).

## Model

| member | source | states |
|---|---|---|
| Digits.DigitValue | script.js:44-45 | a digit character denotes a value below ten |
| Digits.DigitChar | script.js:90 | each value below ten is written as the digit character denoting it |
| Digits.RunEnd | script.js:399 | the digit run from a position ends at the first non-digit or the end, and every character before that is a digit |
| Digits.RunEndUnique | script.js:399 | any end position of a digit run followed by a non-digit is the one `RunEnd` finds |
| Digits.RunOf | script.js:399 | a digit string between any prefix and a non-digit is read as exactly one run |
| Digits.ShowNat | script.js:90 | the decimal rendering of a natural is a non-empty digit string |
| Digits.ShowNatRoundTrip | script.js:44-45 | reading the digits of a rendered natural gives the natural back |
| Digits.ShowNatNoLeadingZero | script.js:90 | a rendered natural starts with '0' exactly when it is zero |
| Digits.ShowNatLength | script.js:90 | a natural below 10^k takes at most k digits |
| Digits.NatOfAppend | script.js:44-45 | the value of concatenated digit strings is the left value shifted by the right length plus the right value |
| Digits.NatOfZeros | script.js:44-45 | a run of zero digits denotes zero |
| Digits.NatOfPadded | script.js:44-45 | leading zeros do not change the value of a digit string |
| Numbers.Scan | script.js:44-46 | what `parseFloat` reads is a well-formed numeral, or nothing (NaN) |
| Numbers.Parse | script.js:44-45 | `parseFloat` is NaN exactly when no numeral starts the text; otherwise it is the value of the numeral read from a prefix of the text |
| Numbers.ScanReadsPrefix | script.js:44-46 | the numeral read is a prefix of the text that the next character could not extend |
| Numbers.NumeralPrefixScans | script.js:44-46 | whenever some prefix of a text is a numeral, `parseFloat` yields a number |
| Numbers.ScanText | script.js:44-46 | reading a numeral's own text gives exactly that numeral back |
| Numbers.SignOfText | script.js:44-46 | a numeral's text starts with '-' exactly when the numeral is negative |
| Numbers.ParseEmpty | script.js:44-46 | the empty operand is NaN, so `compute` does nothing with it |
| Numbers.ParseText | script.js:44-46 | a numeral's text reads as the numeral's value |
| Numbers.ParseDigits | script.js:44-46 | a non-empty digit string reads as the natural it denotes |
| Numbers.TrimZeros | script.js:77 | dropping trailing zeros keeps a prefix of the fraction digits |
| Numbers.TrimZerosValue | script.js:77 | trimming trailing zeros divides the digits' value by the matching power of ten |
| Numbers.FractionText | script.js:77 | the fraction digits written are digits, at most 20 of them |
| Numbers.FractionTextValue | script.js:77 | the written fraction digits, padded back to 20 places, denote the scaled fraction |
| Numbers.FractionTextRatio | script.js:77 | the written fraction digits denote the scaled fraction over 10^20 |
| Numbers.ScaledFraction | script.js:77 | the scaled fraction part of a result lies below 10^20 |
| Numbers.ScaledFractionExact | script.js:77 | for a value of at most 20 decimals the scaled fraction is exactly its fraction part |
| Numbers.Show | script.js:77 | the stored text of a result is read back as the numeral written for it, and starts with '-' exactly when the result is negative |
| Numbers.ToNumeral | script.js:77 | a computed value is written as a well-formed numeral with whole digits, negative exactly when the value is |
| Numbers.ShowRoundTrip | script.js:77 | the text a result is stored as reads back as the result (values of at most 20 decimals) |
| Numbers.IntegerShortDecimal | script.js:77 | every integer has at most 20 decimals |
| Numbers.ShowInteger | script.js:77 | an integer is stored as its digits, with a minus sign when negative |
| Operand.Append | script.js:23-30 | a second point is ignored, a lone "0" is replaced by anything but a point, otherwise (a first point included) the input goes at the end |
| Operand.Delete | script.js:15-21 | a one-character operand falls back to "0", a longer one loses exactly its last character, the empty one stays empty |
| Operand.AppendPointIdempotent | script.js:24 | pressing the point twice is the same as pressing it once |
| Operand.AppendKeepsOnePoint | script.js:24 | from an operand with at most one point, typing keeps at most one point |
| Operand.DeleteKeepsOnePoint | script.js:15-21 | deleting keeps an operand's points at most one |
| Operand.DeleteUndoesAppend | script.js:15-30 | delete undoes any digit or point key that was not ignored |
| Operand.DropLeadingZeros | script.js:25-26 | removing leading zeros leaves a suffix of the digits |
| Operand.TypeDigitsExtends | script.js:27-28 | digits typed on an operand other than "0" extend it |
| Operand.TypeDigitsFromZero | script.js:25-28 | digits typed on "0" give the digits without leading zeros, or "0" if all were zeros |
| Operand.DropLeadingZerosValue | script.js:25-26 | leading zeros typed on "0" do not change the operand's value |
| Display.Split | script.js:84-85 | `split('.')` yields at least one piece, none containing a point |
| Display.JoinSplit | script.js:84-85 | joining the pieces with points gives the text back |
| Display.SplitNoPoint | script.js:84-85 | a text without a point is a single piece |
| Display.SplitAtPoint | script.js:84-85 | the first point separates the first piece from the pieces of the rest |
| Display.GroupThousands | script.js:90 | the integer part written with separators is never empty |
| Display.StripCommas | script.js:144-145 | removing commas leaves no comma |
| Display.ShowNatLastThree | script.js:90 | a number of four or more digits is its thousands followed by its last three digits |
| Display.StripGroupThousands | script.js:144-145 | removing the separators from a grouped number gives its plain digits |
| Display.SplitText | script.js:84-85 | a numeral's text splits into its signed whole digits and, after a point, its fraction digits |
| Display.DisplayVersionsAgree | script.js:82-97 | on every numeral with whole digits, the display as written and the corrected one agree |
| Display.DisplayVersionsAgreeOnShow | script.js:82-97 | on every stored result both displays agree, so the history is unaffected by the correction |
| Display.DisplayAsWritten | script.js:82-97 | the digits after the first point are shown unchanged after a point, and an integer part that is not a number is shown as exactly "0", followed by the point and those digits when there are any |
| Display.DisplayNumber | script.js:82-97 | it agrees with the display as written except on a bare "-" before the point, and shows the digits after the first point unchanged |
| Display.ShownWhole | script.js:87-91 | the whole digits shown denote the numeral's whole value ("0" when it has none) |
| Display.IntegerDisplayStripped | script.js:84-91 | the shown integer part without separators is the sign and the shown whole digits |
| Display.Shown | script.js:82-97 | the numeral displayed has the value of the numeral given |
| Display.StrippedDisplay | script.js:82-97 | the displayed text without separators is the text of a numeral of the same value |
| Display.DisplayRoundTrip | script.js:82-97 | the displayed text of any numeral, separators removed, reads back as the numeral's value |
| Display.DisplayInteger | script.js:82-97 | an integer result is displayed as its sign and its digits grouped in thousands |
| Display.SignedFractionDisplays | script.js:84-90 | "-.f" is displayed as "0.f" as written and as "-0.f" corrected |
| Display.ParseSignedFraction | script.js:84 | `parseFloat` reads "-.f" as minus the fraction |
| Display.ParseShownFraction | script.js:144-145 | the shown "0.f" or "-0.f" reads back as the fraction with its sign |
| Display.DigitsHaveNoComma | script.js:144-145 | removing commas leaves plain digits unchanged |
| Display.DisplayAsWrittenDropsSign | script.js:84-90 | "-.5", read as -0.5, is displayed as "0.5", which reads back as 0.5 |
| History.AddEntry | script.js:116-119 | the new entry is on top and the older entries follow in their order |
| History.Clear | script.js:121-124 | the history is emptied whatever it held |
| History.AddEntries | script.js:116-119 | each addition grows the history by exactly one |
| History.AddEntriesReverses | script.js:116-119 | entries added one by one end up in reverse order above the old ones |
| History.MostRecentFirst | script.js:116-119 | the last entry added is shown first and the old history stays at the bottom |
| History.ReverseFirst | script.js:116-119 | the first of a reversed list is the last of the list |
| Calculator.Init | script.js:2-7 | a new calculator has "0" typed, nothing pending and an empty history |
| Calculator.Clear | script.js:9-13 | the operand goes back to "0" with nothing pending, and the history is kept |
| Calculator.Delete | script.js:15-21 | delete changes only the current operand, by the operand edit rule |
| Calculator.AppendNumber | script.js:23-30 | typing changes only the current operand, by the operand edit rule; a first point is appended |
| Calculator.ArithOf | script.js:47-67 | a switch case is selected only by its own symbol; anything else takes `default` |
| Calculator.ArithOfSymbol | script.js:47-67 | each symbol selects its own case |
| Calculator.HistoryEntry | script.js:70-74 | the expression is two shown operands around the operation's symbol, each reading (separators removed) as its stored text; the entry's result, separators removed as a click does, reads as the stored result's text does, and so as the computed value itself when it has at most 20 decimals |
| Calculator.ShownReadsAsStored | script.js:144-145 | the displayed text of any stored result, separators removed, reads as the stored text does |
| Calculator.Compute | script.js:42-80 | does nothing when an operand is NaN or no known operation is pending; division by zero alerts and clears without history; otherwise one history entry goes on top, the result is stored and nothing is pending |
| Calculator.ComputeStoresValue | script.js:63-77 | the stored result reads back as the computed value |
| Calculator.ComputeAddsHistoryIff | script.js:46-75 | the history grows, by exactly one entry, if and only if `compute` gets past all its guards |
| Calculator.HistoryResultRestores | script.js:144-145 | the history's result, with its separators removed as a click does, reads back as the computed value |
| Calculator.ShownRestores | script.js:144-145 | the displayed text of a stored result, separators removed, reads back as the result |
| Calculator.ChooseOperation | script.js:32-40 | an empty operand ignores the key; otherwise a pending operation is computed first, its result (or the operand) moves to the left, and "0" is started |
| Calculator.ChainedOperation | script.js:32-40 | a chained operator keeps the pending result on the left and adds one history entry |
| Calculator.PercentText | script.js:291-296 | the percent key leaves a hundredth of the operand's value, or "NaN" when it has none |
| Calculator.Percent | script.js:291-296 | only a non-empty current operand changes, and only to its percent text |
| Calculator.ComputeConsistent | script.js:42-80 | `compute` keeps an operand typed, with a left operand exactly when an operation is pending |
| Calculator.Handle | script.js:257-296 | only "=" and operator keys raise an alert, and only the division-by-zero one; the clear-history button empties the history and changes nothing else; every other key keeps the history or puts one entry on top of it |
| Calculator.HandleEquals | script.js:273-277 | the "=" key runs `compute` |
| Calculator.ComputeSteps | script.js:42-80 | `compute` raises only the division-by-zero alert and puts at most one entry on top of the history |
| Calculator.OperatorSteps | script.js:32-40 | so does an operator key |
| Calculator.RunKeepsHistory | script.js:257-296 | without the clear-history button, any key sequence keeps the old history at the bottom of the new one |
| Calculator.HandleConsistent | script.js:257-296 | every key handler keeps that shape |
| Calculator.RunConsistent | script.js:257-296 | any sequence of keys keeps that shape |
| Calculator.ReachableConsistent | script.js:257-296 | every state reachable from a new calculator has that shape, so no operator key is ever ignored |
| Calculator.AlertsAreDivisionByZero | script.js:57-62 | the only alert any key sequence raises is the division-by-zero message |
| StoredNumber.AppendAsWritten | script.js:23-30 | on a stored number a point throws, and a digit is appended to the number's text |
| StoredNumber.DeleteAsWritten | script.js:15-21 | on a stored number the last character of its text is always dropped |
| StoredNumber.OneDigit | script.js:77 | a one-digit whole number is stored as that digit |
| StoredNumber.PointAfterResult | script.js:24 | after a result, the point key throws, where the stored text would take the point |
| StoredNumber.DeleteAfterOneDigitResult | script.js:16-19 | after a one-digit result, delete leaves "" where the stored text gives "0" |
| StoredNumber.DigitAfterZeroResult | script.js:25-28 | after a zero result, a digit is appended to "0" where the stored text replaces it |
| StoredNumber.PointTaken | script.js:23-30 | a point typed on any numeral's text is taken at most once and the text still reads as the numeral's value |
| StoredNumber.PointAfterShow | script.js:23-30 | a point typed on a stored result's text is taken and the text reads as before, so as the result itself when it has at most 20 decimals |
| StoredNumber.PointAfterStoredResult | script.js:23-30 | with the result's text stored, a point after `compute` is taken and the operand reads as the stored result, so as the computed value when it has at most 20 decimals |
| StoredNumber.StoredAgrees | script.js:15-30 | away from those cases the number and its text are edited alike |
| StoredNumber.TextAgrees | script.js:15-30 | a held text is edited exactly as the model's operand |
| Currency.Init | script.js:167 | the amount starts at "0" |
| Currency.Clear | script.js:170-173 | the amount goes back to "0" |
| Currency.Delete | script.js:175-183 | the last character goes, or a single one becomes "0" |
| Currency.AppendNumber | script.js:185-194 | only the amount changes, by the operand edit rule: a second point is ignored, "0" is replaced by anything but a point, else (a first point included) the input is appended |
| Currency.SameEditRules | script.js:170-194 | each converter edit does to the amount what the calculator's does to its operand |
| Currency.SameTyping | script.js:185-194 | any key sequence gives the converter the calculator's operand |
| Currency.PointOnce | script.js:186 | a point pressed twice is kept once |
| Scenarios.WholeParses | script.js:44-45 | a whole number's digits read as the number |
| Scenarios.Whole | script.js:82-97 | a whole number reads, is stored and is displayed as its (grouped) digits |
| Scenarios.WholeCompute | script.js:42-80 | `compute` on two whole operands with a whole result stores it and writes one grouped history line |
| Scenarios.TypeWhole | script.js:25-26 | a whole number typed on "0" becomes the operand |
| Scenarios.FirstOperator | script.js:32-40 | an operator with nothing pending moves the operand left and starts "0" |
| Scenarios.ChainedOperator | script.js:32-40 | an operator with a whole computation pending stores its result on the left and writes the history |
| Scenarios.WholeEquals | script.js:273-277 | "=" with a whole computation pending stores the result and writes the history |
| Scenarios.TypeWholeKey | script.js:257-263 | a number key on "0" types the whole number |
| Scenarios.TypeOperator | script.js:257-271 | "a op" leaves "0" typed with a on the left |
| Scenarios.TypeOperands | script.js:257-271 | "a op b" leaves b typed with a on the left, nothing computed |
| Scenarios.ChainTimes | script.js:32-40 | "* d" after "a + b" computes a + b first and keeps it on the left |
| Scenarios.EqualsTimes | script.js:273-277 | "=" on a pending whole product stores it above older history |
| Scenarios.ChainedReal | script.js:32-80 | "a + b * d =" with the product given exactly stores it and writes two history lines |
| Scenarios.Chained | script.js:32-80 | "a + b * d =" gives (a + b) * d, with both steps in the history, newest first |
| Scenarios.RepeatedPlus | script.js:32-40 | "a + +" computes a + 0 and writes it to the history |
| Scenarios.RepeatedTimes | script.js:32-40 | "a * *" multiplies by the fresh "0", so the left operand becomes 0 |
| Scenarios.DivideByFreshZero | script.js:57-62 | dividing by the fresh "0" alerts, clears, and the operator is then pending on "0" |
| Scenarios.RepeatedDivide | script.js:57-62 | "a / /" raises one alert and leaves "0 /" pending |
| Scenarios.ZeroShown | script.js:90 | zero is written and displayed as "0" |
| Scenarios.NegativeCompute | script.js:42-80 | a negative whole result is stored with its sign and displayed with its digits grouped |
| Scenarios.WholeDisplays | script.js:82-97 | a whole number is displayed grouped in thousands |
| Scenarios.NegativeShown | script.js:82-97 | a negative whole number is stored as "-" and its digits and displayed with them grouped |
| Scenarios.NegativeSubtract | script.js:51-53 | `compute` of "a - b" with a < b stores the negative difference and writes its history line |
| Scenarios.NegativeEquals | script.js:273-277 | so does "=" on it |
| Scenarios.NegativeDifference | script.js:51-53 | "a - b =" with a < b stores the negative difference |
| Scenarios.BareMinus | script.js:15-30 | deleting the digit of a one-digit negative result leaves "-", which "." and digits extend to "-.d" |
| Scenarios.NegativeFractionReachable | script.js:257-289 | "a - b = DEL . d" with b - a a single digit leaves the operand "-.d" |
| Voice.RemoveWhitespace | script.js:389 | the cleaned text is no longer and holds no whitespace character |
| Voice.RemoveWhitespaceAppend | script.js:389 | whitespace removal works piece by piece |
| Voice.RemoveWhitespaceNone | script.js:389 | a text without whitespace is left as it is |
| Voice.RemoveWhitespaceAll | script.js:389 | a run of whitespace disappears |
| Voice.RemoveWhitespaceKeeps | script.js:389 | every character kept was in the text |
| Voice.FirstAlternative | script.js:392-395 | the alternative picked at a position occurs there |
| Voice.FirstAlternativeFirst | script.js:392-395 | it is the first listed alternative occurring there, and when none is picked none occurs |
| Voice.CopiedPrefix | script.js:392-395 | a prefix of the replaced text that avoids the symbol was copied from the original |
| Voice.ReplacedWordsGone | script.js:392-395 | after a global replace, no alternative without the symbol's character occurs anywhere |
| Voice.ReplaceFrom | script.js:392-395 | replacing words by a symbol of at most one character never lengthens the rest of the text |
| Voice.ReplaceAll | script.js:392-395 | nor the whole text |
| Voice.CopyDigits | script.js:392-395 | a digit run is copied by the replace unchanged |
| Voice.ReplaceSuffix | script.js:392-395 | the replace of a suffix, from where it starts, is the replace of the suffix alone |
| Voice.ReplacePrefix | script.js:392-395 | the replace of a text before a digit ends where that text ends |
| Voice.ReplaceAround | script.js:392-395 | no spoken word reaches across a digit run, so the replace works on either side of it |
| Voice.ReplaceLeading | script.js:392-395 | leading digits are copied and the rest is replaced on its own |
| Voice.ReplaceDigits | script.js:392-395 | a text of digits is left unchanged |
| Voice.ReplaceKeepsOut | script.js:392-395 | the replace adds no character other than the symbol's |
| Voice.KeepsOut | script.js:392-395 | a character absent from the text and from the symbol is absent afterwards |
| Voice.Symbols | script.js:392-395 | the four chained replaces never lengthen the text |
| Voice.Normalize | script.js:389-395 | the cleaned and replaced text is no longer than the spoken one |
| Voice.NormalizeAround | script.js:389-395 | around a digit run, the cleaning and replacing work on either side separately |
| Voice.NormalizeDigits | script.js:389-395 | digits are left as they are |
| Voice.NormalizeLeading | script.js:389-395 | leading digits are kept and the rest is normalised alone |
| Voice.NormalizeTrailing | script.js:389-395 | trailing digits are kept and the rest is normalised alone |
| Voice.NormalizePhrase | script.js:389-395 | between two numbers only the phrase is normalised |
| Voice.BeforeDivide | script.js:392-395 | the divide replace is the last of the chained calls |
| Voice.NormalizedClean | script.js:389-395 | after normalising, no whitespace, no letter x and no spelled-out division word remain |
| Voice.NoWhitespaceLeft | script.js:389-395 | no whitespace survives the later replaces |
| Voice.NoTimesLetterLeft | script.js:394-395 | the letter x never survives normalising |
| Voice.NoDivideWordLeft | script.js:395 | no spelled-out division word survives normalising |
| Voice.SaidPlus | script.js:392 | " 더하기 " becomes "+" |
| Voice.SaidMinus | script.js:392-393 | " 빼기 " passes the plus replace and becomes "-" |
| Voice.SaidTimes | script.js:392-394 | " 곱하기 " becomes "*" |
| Voice.SaidDivide | script.js:392-395 | " 나누기 " becomes "/" |
| Voice.SaidX | script.js:394 | the letter x becomes "*" |
| Voice.MatchAt | script.js:399 | a match found at a position fits the pattern there and its second number runs to the end of the digits |
| Voice.FitsAt | script.js:399 | any fit at a position has the operator where the match puts it and ends no later |
| Voice.FindFrom | script.js:399 | the search returns the leftmost position with a match, or reports that none exists |
| Voice.FindLeftmost | script.js:399 | the match found is the leftmost fit with the longest second number, and none is found only when the pattern fits nowhere |
| Voice.ParseVoice | script.js:389-415 | it fails, carrying the normalised text, if and only if the pattern fits nowhere; otherwise its groups are the leftmost match's two digit runs and operator |
| Voice.ProcessVoiceCommand | script.js:385-416 | without a match the state is untouched and the alert shows the normalised text; with one the calculator is cleared and the command's result (or the division-by-zero alert) replaces everything but the history |
| Voice.ReplayComputes | script.js:401-411 | clear, append, choose and append leave exactly the command pending for `compute` |
| Voice.SpokenCommand | script.js:389-411 | two numbers with a phrase that normalises to an operator between them are read as that command |
| Voice.NoDigitsNotUnderstood | script.js:399-415 | a text without digits is never understood and leaves the state as it was |
| Voice.VoiceIgnoresState | script.js:405-410 | a recognised command's outcome does not depend on the prior state, except for the history it adds to |
| VoiceScenarios.ReplayIsKeys | script.js:405-410 | the replay is pressing AC, the first number, the operator and the second number |
| VoiceScenarios.SaidBetween | script.js:389-403 | two whole numbers with an operator word between them are read as that command |
| VoiceScenarios.VoiceWhole | script.js:401-411 | a whole command with a whole result stores it and adds one history line |
| VoiceScenarios.SumCommand | script.js:401-411 | a recognised sum is computed and written to the history |
| VoiceScenarios.SpokenSum | script.js:385-411 | "a 더하기 b" leaves a + b and its history line |
| VoiceScenarios.OnePlusTwo | script.js:387 | "1 더하기 2", the example in `processVoiceCommand`'s comment, gives 3 and the history line "1 + 2" |
| VoiceScenarios.TwoTimesThree | script.js:394-399 | "2x3" is read as 2 * 3 |
| VoiceScenarios.SpokenDivisionByZero | script.js:385-411 | "a 나누기 0" raises the division-by-zero alert and clears the calculator |
| VoiceScenarios.DivideByZeroCommand | script.js:401-411 | a recognised division by zero clears and alerts |
| VoiceScenarios.FirstCommandWins | script.js:399 | only the first command in the text is carried out |
| VoiceScenarios.SumBeforeProduct | script.js:399 | "a 더하기 b 곱하기 d" adds a and b; the product is never looked at |
| VoiceScenarios.HelloWorld | script.js:413-415 | words without numbers are not understood and change nothing |

## Left out

- The DOM is not modelled: `updateDisplay`, `HistoryManager.render`, `toggleHistory` and the currency converter's display only draw (script.js:99-108, 126-151, 209-211, 332-334).
- The mode switch and the `currentMode` guard of every handler are not modelled (script.js:223-254). The switch only calls `clear` on both entries, and the guard picks which keypad is live.
- Speech recognition setup is not modelled (script.js:344-383). The recognised text is a parameter of Voice.ProcessVoiceCommand.
- `CurrencyConverter.convert`, its exchange rates and the currency selectors are not modelled (script.js:154-161, 196-207, 318-324). They are a floating-point rate table whose result is only displayed. The converter's amount entry is modelled.
- IEEE 754 doubles are not modelled: numbers are exact, so there is no rounding or overflow of `+ - * /`, no `Infinity` and no exponent notation.
- Numbers.Show writes a result's whole part and at most 20 truncated decimals, not JavaScript's shortest round-trip double text.
- Numbers.Scan reads a sign, digits, a point and digits only. Leading whitespace, '+', exponents and `Infinity` never occur in a model operand, because Numbers.Show never writes them. script.js does store doubles whose text has them (1e21 is "1e+21", and overflow gives `Infinity`), and `parseFloat` reads those back; the model does not represent them.
- Numbers.ShowRoundTrip is proved only for values with at most 20 decimals, because the model's number text keeps 20.
- Calculator.ComputeStoresValue has the same 20-decimal restriction.
- Calculator.ChainedOperation has the same 20-decimal restriction.
- Calculator.HistoryResultRestores has the same 20-decimal restriction.
- Calculator.ShownRestores has the same 20-decimal restriction.
- Calculator.HistoryEntry restores the computed value itself only under the same 20-decimal restriction; for other results it promises only the value the stored text reads as.
- StoredNumber.PointAfterShow reads back the result itself only under the same 20-decimal restriction; for other results it promises only the value the stored text reads as.
- StoredNumber.PointAfterStoredResult has the same 20-decimal restriction on reading back the computed value itself.
- Calculator.PercentText states its read-back only under the same 20-decimal restriction.
- Display.GroupThousands stands for `toLocaleString('en')` on the integer part: a comma between every three digits. The sign of negative zero is kept ("-0"), as the `en` locale shows it.
- Calculator.Compute assumes the history manager is attached, since script.js:219-220 always attaches it. The branch without one is not modelled.
- Calculator.Compute stores the result's text, where script.js:77 stores a number; the percent key does the same at script.js:294 (see Findings). StoredNumber models the stored number for the edit rules only.
- The history click loads a history result into the operand (script.js:142-148). Only its comma removal is modelled, by Calculator.HistoryResultRestores. It is not an event of Calculator.Run.

## Findings

| source | as written | input that shows it | evidently intended | confidence | as-written member | corrected member |
|---|---|---|---|---|---|---|
| script.js:84-90 | the integer part of "-.5" is "-", which `parseFloat` reads as NaN, so it is shown as "0" and the sign is lost | "7 - 9 =", DEL, ".", "5" leaves the operand "-.5" (value -0.5), displayed "0.5" (Scenarios.NegativeFractionReachable) | show "-0.5", whose text without separators reads back as -0.5 | not executed | Display.DisplayAsWrittenDropsSign | Display.DisplayRoundTrip |
| script.js:16-19 | `compute` stores a number (script.js:77), whose `length` is undefined, so `delete` drops its only digit | "1 + 2 =" then DEL leaves the empty operand, on which every operator key is ignored | fall back to "0", as for a typed one-digit operand | not executed | StoredNumber.DeleteAfterOneDigitResult | Calculator.ReachableConsistent |
| script.js:24 | `compute` stores a number (script.js:77), which has no `includes`, so the point key throws a TypeError | "1 + 2 =" then "." throws and the operand stays 3 | take the point, giving "3." | not executed | StoredNumber.PointAfterResult | StoredNumber.PointAfterStoredResult |
