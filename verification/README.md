# Calculator expression engine

A Dafny model of the core of a single-screen Android calculator: the
`MainActivity` state machine that builds an expression from button presses,
evaluates it strictly left to right (no operator precedence) when equals is
pressed, keeps a newest-first history of `expr = result` entries, and edits
the expression with clear, backspace and the ± sign toggle.

The activity's three fields become one immutable record,
`Calculator.State(expression, justEvaluated, history)`, and every button
handler becomes a pure transition on it. The exceptions that `handleEquals`
catches become a `Result` carrying an `Evaluator.Failure`:
- `Unparsable`: `Double.parseDouble` rejects a token;
- `DivisionByZero`: the explicit check for `/`;
- `MissingOperand`: `numbers.get(i + 1)` runs past the end.

Modules, one per stage of the pipeline:

- `Wrappers`: `Option` and `Result`.
- `Numerals`: ASCII digits, the exact value of a digit/point string (`parseDouble` on the
  strings the tokenizer can produce), and `String.format("%d")` for integers.
- `Tokenizer`: glyph sanitising (`×` `÷` `−` to `*` `/` `-`) and the single
  left-to-right scan into number tokens and operator characters.
- `Evaluator`: one step of the operator `switch`, the left-to-right loop of
  `getResult`, and `evaluateExpression`.
- `Calculator`: the state, the handlers, the display string, and key sessions.

Numbers are exact `real`s in place of `double`. The one non-finite value
that exact arithmetic can still produce is the NaN of `x % 0`, which Java
returns without throwing. It is modelled as `Evaluator.Value.NaN` and prints as
`"NaN"`. Java's `String.valueOf(double)` for non-integral results is the
parameter `render: real -> string` of `Equals`, `PlusMinus` and `FormatResult`.

The sign toggle's regular expression `([0-9]+(\.[0-9]+)?)$` is replaced
by a backward scan. `TrailingNumberStart` is proved to return the leftmost
start of a suffix in that language, which is what `Matcher.find()` reports.
Java's `$` without the MULTILINE flag also matches just before a final line
terminator, so the scan runs on the text before such a terminator
(`Calculator.Body`). The replacement then drops the terminator, as
`substring(0, start) + new` does.

Behaviours of the code that may surprise a reader, which the model keeps as written:

- `isOperator` accepts `+ - × ÷ % −` but not ASCII `*` or `/`. Right after
  equals, such a text leaves the expression as it is and only clears the flag.
- `x % 0` does not fail. It gives NaN, and equals records `expr = NaN`.
- The sign toggle's `catch (NumberFormatException)` cannot fire: every text the
  pattern matches parses. The model keeps the branch as written.
- The toggle is not its own inverse. The pattern carries no sign, so `7`
  becomes `-7` and then `--7` (`Calculator.PlusMinusTwice`). Its output `12+-7`
  has two operators between two numbers, so it always fails to evaluate.

## Model

| member | source | states |
|---|---|---|
| Calculator.IsNumberOrDecimal | app/src/main/java/com/example/calculator/MainActivity.java:82-84 | A key is a number key exactly when its text is one digit 0-9 or '.'; KeyClasses states this against the tokenizer's character classes. |
| Calculator.IsOperator | app/src/main/java/com/example/calculator/MainActivity.java:87-89 | A key is an operator key exactly when its text is one of + - × ÷ % −. KeyClasses proves these are the one-character texts the evaluator reads as operators, less ASCII * and /, and that no key is both an operator and a number key. |
| Calculator.KeyClasses | app/src/main/java/com/example/calculator/MainActivity.java:82-89 | For every character c: [c] is an operator key exactly when it sanitises to an operator character and is not ASCII * or /; it is a number key exactly when the scan keeps it in a number token; it is never both. |
| Calculator.Handle | app/src/main/java/com/example/calculator/MainActivity.java:51-78 | onClick dispatches equals, clear, backspace and ± by button, and any other button by its text. HandleKeepsHistory states that every branch keeps the history or prepends one entry. |
| Calculator.Press | app/src/main/java/com/example/calculator/MainActivity.java:64-76 | After equals, an operator text continues from the result, and a digit or point replaces it. Any other text leaves the expression alone. Otherwise the text is appended unconditionally. The flag is false afterwards and the history is unchanged. |
| Calculator.ChainAfterEquals | app/src/main/java/com/example/calculator/MainActivity.java:66-72 | After a successful equals, pressing an operator yields result+operator and pressing a digit yields just that digit. |
| Calculator.Display | app/src/main/java/com/example/calculator/MainActivity.java:92-98 | The display is never empty. It is the expression itself when that is non-empty, and "0" exactly when the expression is empty or is "0". |
| Calculator.Clear | app/src/main/java/com/example/calculator/MainActivity.java:213-216 | Clear empties the expression, clears the flag, keeps the history and makes the display "0". |
| Calculator.ClearIdempotent | app/src/main/java/com/example/calculator/MainActivity.java:213-216 | Clearing twice equals clearing once, and the display shows "0" afterwards. |
| Calculator.Backspace | app/src/main/java/com/example/calculator/MainActivity.java:220-225 | On a non-empty expression the result plus the removed last character is the old expression, and the flag is cleared. On an empty expression the state is returned unchanged, flag included. |
| Calculator.BackspaceUndoesPress | app/src/main/java/com/example/calculator/MainActivity.java:73-76 | While typing (flag clear), backspace after a one-character key restores the previous state exactly. |
| Calculator.FormatResult | app/src/main/java/com/example/calculator/MainActivity.java:204-209 | An integral value prints as a non-empty string with a leading '-' exactly when it is negative. The rest is digits with the value's magnitude and no leading zero, as %d prints. NaN prints as "NaN". Any other value is passed to the double renderer. |
| Calculator.FormatInteger | app/src/main/java/com/example/calculator/MainActivity.java:205-206 | An integer-valued result prints exactly as %d prints that integer. |
| Calculator.FormatResultParses | app/src/main/java/com/example/calculator/MainActivity.java:204-206 | Round trip: the digits of a printed integral result parse back to its magnitude, and the leading minus alone carries the sign. |
| Calculator.Equals | app/src/main/java/com/example/calculator/MainActivity.java:102-126 | Equals does nothing on an empty expression or when the flag is set. On success, the entry expr + " = " + result goes in front of the unchanged history and the result becomes the expression. On failure the expression becomes "Error" and the history is unchanged. The flag is set in both cases. |
| Calculator.EqualsOutcome | app/src/main/java/com/example/calculator/MainActivity.java:107-125 | Equals shows "Error" without recording exactly when one of three things holds. A number token does not parse, or there are numbers but not one more than operators, or a '/' has a zero right operand. Otherwise exactly one entry is added at the front. |
| Calculator.EqualsIdempotent | app/src/main/java/com/example/calculator/MainActivity.java:103-105 | A second equals changes nothing. |
| Calculator.TerminatorLength | app/src/main/java/com/example/calculator/MainActivity.java:233 | How many characters the end anchor skips, at most the whole text. BodyDropsTerminator pins the values: 0 when the text does not end in a line terminator, 2 for a final \r\n, otherwise 1. |
| Calculator.Body | app/src/main/java/com/example/calculator/MainActivity.java:233 | The text before the end anchor. BodyDropsTerminator states which characters it drops. |
| Calculator.BodyDropsTerminator | app/src/main/java/com/example/calculator/MainActivity.java:233 | Body is a prefix at most two characters shorter. It equals the text exactly when the text is empty or does not end in a line terminator. A one-character drop is a line terminator. A final \r\n is always dropped as a whole, never only its \n, because `$` does not match between \r and \n. |
| Calculator.DigitRunStart | app/src/main/java/com/example/calculator/MainActivity.java:233 | The backward scan stops at the start of a run of digits ending at the given position, with a non-digit (or the start of the text) just before it. |
| Calculator.DigitRunIsLongest | app/src/main/java/com/example/calculator/MainActivity.java:233 | No digit run ending at the given position starts earlier than the scan's stop. |
| Calculator.TrailingNumberStart | app/src/main/java/com/example/calculator/MainActivity.java:233-237 | A found start lies inside the text, and from it to the end anchor there are only digits and points. |
| Calculator.TrailingNumberIsLongestSuffix | app/src/main/java/com/example/calculator/MainActivity.java:233-237 | The scan returns a start from which the text is D+ or D+.D+, and no earlier start has that form, as Matcher.find() reports. It returns none exactly when no suffix has that form. |
| Calculator.PlusMinus | app/src/main/java/com/example/calculator/MainActivity.java:229-230 | The toggle never touches the history or the flag, and does nothing on an empty expression or right after equals. |
| Calculator.PlusMinusWithoutNumber | app/src/main/java/com/example/calculator/MainActivity.java:235-237 | When no number ends the expression, the toggle changes nothing. |
| Calculator.Toggle | app/src/main/java/com/example/calculator/MainActivity.java:238-245 | Parse the matched number, negate it, format it and splice it after the kept prefix. ToggleKeepsPrefix, ToggleInteger and TogglePointed state what it yields. |
| Calculator.ToggleKeepsPrefix | app/src/main/java/com/example/calculator/MainActivity.java:245 | The replacement keeps the text before the matched number. |
| Calculator.PlusMinusKeepsPrefix | app/src/main/java/com/example/calculator/MainActivity.java:237-245 | After the toggle, the text before the trailing number is unchanged. |
| Calculator.ToggleInteger | app/src/main/java/com/example/calculator/MainActivity.java:241-245 | A digits-only number is replaced by the %d form of its negation. |
| Calculator.PlusMinusInteger | app/src/main/java/com/example/calculator/MainActivity.java:237-245 | When the trailing number is digits only, the toggle's result is the text before it followed by the %d form of the number's negation ("0" for zero). |
| Calculator.TogglePointed | app/src/main/java/com/example/calculator/MainActivity.java:241-245 | A number I.F is replaced by formatResult of −(I + F / 10^len(F)). |
| Calculator.PlusMinusPointed | app/src/main/java/com/example/calculator/MainActivity.java:237-245 | When the trailing number is I.F, the toggle's result is the text before it followed by formatResult of −(I + F / 10^len(F)). |
| Calculator.PlusMinusLastDigit | app/src/main/java/com/example/calculator/MainActivity.java:229-251 | After any text that does not end in a digit or a point, a non-zero digit d becomes -d, as "12+7" becomes "12+-7". |
| Calculator.PlusMinusTwice | app/src/main/java/com/example/calculator/MainActivity.java:233-245 | Toggling a lone non-zero digit d twice gives "-d" and then "--d", so the toggle is not an involution. |
| Calculator.HandleKeepsHistory | app/src/main/java/com/example/calculator/MainActivity.java:56-78 | Every button handler either leaves the history alone or adds exactly one entry at the front. |
| Calculator.HistoryOnlyGrows | app/src/main/java/com/example/calculator/MainActivity.java:113-114 | Over any key session the original history survives as the tail of the final history, in order. There is at most one new entry per key. |
| Calculator.NoPrecedence | app/src/main/java/com/example/calculator/MainActivity.java:173-199 | For digits a and b, "a+b×5" evaluates to (a + b) · 5: strictly left to right, with no precedence. |
| Calculator.EqualsNoPrecedence | app/src/main/java/com/example/calculator/MainActivity.java:102-129 | Equals on "a+b×5" shows the %d form of (a + b) · 5, sets the flag and records "a+b×5 = " followed by that form in front of the history. |
| Calculator.EqualsTwentyFive | app/src/main/java/com/example/calculator/MainActivity.java:102-129 | Equals on "2+3×5" shows "25", not 17, and records "2+3×5 = 25". |
| Calculator.DivideByZeroDigit | app/src/main/java/com/example/calculator/MainActivity.java:189-191 | For every digit a, "a÷0" evaluates to a DivisionByZero failure. |
| Calculator.EqualsDivideByZero | app/src/main/java/com/example/calculator/MainActivity.java:121-125 | Equals on "a÷0" shows "Error", sets the flag and records nothing. |
| Calculator.TrailingOperatorFails | app/src/main/java/com/example/calculator/MainActivity.java:175-177 | "a+" fails with a missing operand: the operator has no number after it. |
| Calculator.LeadingMinusFails | app/src/main/java/com/example/calculator/MainActivity.java:175-177 | "−a" fails with a missing operand: the minus is an operator, and its number is the only one. |
| Tokenizer.Sanitise | app/src/main/java/com/example/calculator/MainActivity.java:132-135 | Sanitising maps each character on its own, so length is kept, and no ×, ÷ or − remains. |
| Tokenizer.Split | app/src/main/java/com/example/calculator/MainActivity.java:144-163 | Every number token is a non-empty run of digits and points. There are at most one more numbers than operators. The operators are exactly the operator characters of the input, in order. SplitIsCuts gives the number tokens of every input. |
| Tokenizer.ScanInvariant | app/src/main/java/com/example/calculator/MainActivity.java:148-160 | The scanning loop keeps four things true. Flushed tokens are non-empty. The buffer holds only digits and points. No more numbers than operators have been flushed. The operators seen equal those of the input read so far. |
| Tokenizer.SplitIgnoresSkippedCharacters | app/src/main/java/com/example/calculator/MainActivity.java:148-160 | Characters other than digits, '.', + - * / % make no difference to the tokens. |
| Tokenizer.SplitJoin | app/src/main/java/com/example/calculator/MainActivity.java:144-163 | Splitting n0 o1 n1 … written out from well-formed tokens gives back exactly those numbers and operators. |
| Tokenizer.ScanIsCuts | app/src/main/java/com/example/calculator/MainActivity.java:148-160 | After any prefix of the input, the loop's buffer is the text since the last operator (skipped characters dropped), and the flushed numbers are the non-empty pieces between earlier operators, in order. |
| Tokenizer.SplitIsCuts | app/src/main/java/com/example/calculator/MainActivity.java:144-163 | On every input, well-formed or not, the number tokens are exactly the non-empty pieces between operator characters, in order: so "5+", "−5" and "Error+5" give the one token 5, and "5++3" gives 5 and 3. |
| Tokenizer.ParseAll | app/src/main/java/com/example/calculator/MainActivity.java:154-163 | Parsing all tokens succeeds exactly when each one parses, and the values come out in token order. On failure the reported token is one of the tokens and does not parse. |
| Tokenizer.ParseAllDigits | app/src/main/java/com/example/calculator/MainActivity.java:154-163 | Digit-only tokens all parse, each to its base-ten value, in order. |
| Evaluator.Remainder | app/src/main/java/com/example/calculator/MainActivity.java:194-196 | Java's floating % as the fractional part of a / b times b. RemainderBounds and RemainderIsDividendMinusMultiple state its magnitude, sign and the a − trunc(a / b) · b formula. |
| Evaluator.RemainderBounds | app/src/main/java/com/example/calculator/MainActivity.java:194-196 | Java's floating % returns a result smaller in magnitude than the divisor, with the sign of the dividend. |
| Evaluator.RemainderIsDividendMinusMultiple | app/src/main/java/com/example/calculator/MainActivity.java:194-196 | The model of % equals a − trunc(a / b) · b, the formula the Java Language Specification gives for floating %. |
| Evaluator.Apply | app/src/main/java/com/example/calculator/MainActivity.java:179-197 | One step fails exactly for '/' with a zero divisor, and then with DivisionByZero. NaN stays NaN. A new NaN arises only from % with a zero divisor. |
| Evaluator.GetResult | app/src/main/java/com/example/calculator/MainActivity.java:173-200 | getResult only ever fails with DivisionByZero or MissingOperand. |
| Evaluator.GetResultOutcome | app/src/main/java/com/example/calculator/MainActivity.java:175-191 | getResult succeeds exactly when there are more numbers than operators and no '/' has a zero right operand. It reports MissingOperand exactly when numbers run out before any zero divisor is met. |
| Evaluator.GetResultIsLeftFold | app/src/main/java/com/example/calculator/MainActivity.java:173-199 | With one more number than operators, getResult equals the independent left fold ((n0 o1 n1) o2 n2)… with no precedence. |
| Evaluator.GetResultPrefix | app/src/main/java/com/example/calculator/MainActivity.java:175-177 | Numbers past position operators+1 are never read. |
| Evaluator.SumThenProduct | app/src/main/java/com/example/calculator/MainActivity.java:173-199 | x + y * z folds to (x + y) · z. |
| Evaluator.Evaluate | app/src/main/java/com/example/calculator/MainActivity.java:130-171 | evaluateExpression: sanitise, split, parse every token, 0 for no numbers, else fold. EvaluateFailsIff gives its failure if-and-only-if and the 0 case; EvaluateTokens and EvaluateJoin give its value as the left fold; EvaluateUnparsable names the failing token. |
| Evaluator.EvaluateUnparsable | app/src/main/java/com/example/calculator/MainActivity.java:154-162 | An Unparsable failure names a token of the sanitised expression that does not parse. |
| Evaluator.EvaluateTokens | app/src/main/java/com/example/calculator/MainActivity.java:130-171 | An expression that sanitises to well-formed tokens written out evaluates to the left-to-right fold of their parsed values. |
| Evaluator.EvaluateJoin | app/src/main/java/com/example/calculator/MainActivity.java:130-171 | Well-formed tokens written out evaluate to the left-to-right fold of their parsed values. |
| Evaluator.EvaluateFailsIff | app/src/main/java/com/example/calculator/MainActivity.java:144-168 | Evaluation fails exactly when a token does not parse, or there are numbers and either too few of them or a zero '/' divisor. An expression with no number token evaluates to 0. |
| Numerals.ParseNumeral | app/src/main/java/com/example/calculator/MainActivity.java:155 | parseDouble on a digit/point string gives a non-negative value when it succeeds. |
| Numerals.ParseNumeralAccepts | app/src/main/java/com/example/calculator/MainActivity.java:155 | parseDouble on a digit/point string succeeds exactly when the string has a digit and at most one point. |
| Numerals.PointedParse | app/src/main/java/com/example/calculator/MainActivity.java:241 | "I.F" parses to I + F / 10^len(F). |
| Numerals.DigitsParse | app/src/main/java/com/example/calculator/MainActivity.java:162 | A string of digits parses to its base-ten value. |
| Numerals.NatToString | app/src/main/java/com/example/calculator/MainActivity.java:206 | The %d form of a natural number is non-empty, all digits, has the number's value and no leading zero. |
| Numerals.NatToStringParses | app/src/main/java/com/example/calculator/MainActivity.java:206 | A printed natural number parses back to itself. |
| Numerals.IntToString | app/src/main/java/com/example/calculator/MainActivity.java:206 | The %d form of an integer starts with '-' exactly when the integer is negative. The rest is non-empty digits with value abs(i) and no leading zero. |

## Left out

- Android plumbing: `onCreate`, view lookup, listener registration, `setText` and reading the button text. The display is modelled as the string it would show, and a press as the key's text (`Calculator.Key`).
- Which buttons are wired: backspace and ± are not in the registered id list, but their handlers are modelled anyway.
- IEEE-754 rounding, overflow to infinity and signed zero: arithmetic is exact over `real`.
- Calculator.FormatResult: treats every integral real as integral. Java's `result == (long) result` also goes through the saturating `(long)` cast, which changes the printed digits for magnitudes of 2^63 and beyond.
- Calculator.FormatResult: `String.valueOf(double)` for non-integral values is the `render` parameter, not a decimal printer.
- Non-ASCII decimal digits: `Character.isDigit` also accepts them, and `parseDouble` then rejects the token. The model treats them as skipped characters, so such a token is not reported as unparsable. They can reach the expression only through a localised result, which the model does not produce (see the FormatResult line below).
- `Double.parseDouble` on forms the tokenizer never produces (signs, exponents, `Infinity`, whitespace): `Numerals.ParseNumeral` requires a string of digits and points.
- The Java `assert lastNumberStr != null` in the sign toggle: it always holds, and assertions are off on Android.
- Calculator.FormatResult: assumes a default locale whose zero digit is '0'. `String.format("%d")` uses the default locale, whose digits may be non-ASCII (Arabic-Indic, for instance). Such a result would feed back into the expression through chaining and backspace.
- Calculator.Backspace: strings are sequences of Unicode scalar values, not UTF-16 code units, so backspace removes one scalar value. Java's `substring(0, length() - 1)` removes one UTF-16 unit. The two differ only on a character above U+FFFF, where Java leaves half a surrogate pair.
