# Command-line calculator: the expression evaluator

This project models the evaluator of a small Python command-line calculator
(`testecalc.py`) and proves its behaviour in Dafny. The evaluator has two parts:

- `parse_expression` scans the operator symbols in the fixed order `+ - * /`.
  The first symbol found anywhere in the text is chosen. The text is cut at
  every occurrence of that symbol, and the cut must give exactly two pieces.
  Each piece is stripped of whitespace and converted with `float()`. No later
  symbol is ever tried.
- `calculate` looks the symbol up in a table of the four operations `add`,
  `sub`, `mul` and `div`. It rejects a symbol outside the table, and `div`
  rejects a zero divisor.

Files:

- `pystr.dfy` (module `PyStr`) models the Python string operations the parser
  relies on: `str.strip()` with Python's full `isspace()` set, `str.split(sep)`
  for a one-character separator, and membership `sep in s`.
- `calc.dfy` (module `Calc`) holds the operations, the table, `calculate`,
  `parse_expression`, and one iteration of the interactive loop without its
  I/O. It also holds the lemmas that pin down the first-symbol-wins rule.
- `selftest.dfy` (module `SelfTest`) restates the self-checks of `selftest()`,
  the docstring example `'2 + 3'`, and further examples of the parsing rules
  as lemmas.

Operands are `real`. Python's `float()` is a parameter `toFloat: string ->
Option<real>` of every parsing member. No property depends on what it
accepts, only on which piece of text it is given. Errors are represented by
kind: `OperatorNotFound`, `BadFormat`, `NotANumber`, `DivByZero` and `InvalidOp`.

Two facts of the code shape the model:

- `str.split(op)` cuts the text at every occurrence of the chosen symbol, and
  the code demands exactly two pieces (testecalc.py:49-51). So the chosen
  symbol must occur exactly once, or the parse is a format error
  (`SplitOnBadFormat`).
- A piece that `float()` rejects raises `float()`'s own `ValueError`
  (testecalc.py:52-53), not the format error of testecalc.py:51. The model
  gives it its own kind, `NotANumber`, so that `BadFormat` means exactly "the
  chosen symbol does not occur once".

## Model

| member | source | states |
|---|---|---|
| `PyStr.Strip` | testecalc.py:52-53 | the stripped text neither starts nor ends with whitespace and is no longer than the input |
| `PyStr.StripSurrounded` | testecalc.py:52-53 | the stripped text is a slice of the input with only whitespace outside it |
| `PyStr.StripSlice` | testecalc.py:52-53 | a slice with only whitespace around it and none at its own ends is exactly what strip keeps |
| `PyStr.StripIdempotent` | testecalc.py:52-53 | stripping twice gives the same text as stripping once |
| `PyStr.Count` | testecalc.py:48-50 | the number of occurrences is positive exactly when the symbol is in the text |
| `PyStr.CountConcat` | testecalc.py:49-50 | occurrences add up over a concatenation |
| `PyStr.CountTwo` | testecalc.py:49-50 | two occurrences at different positions make a count of at least two |
| `PyStr.CountOne` | testecalc.py:49-50 | a symbol present at `k` and nowhere else has a count of one |
| `PyStr.Split` | testecalc.py:49-50 | `split` gives one more piece than there are occurrences of the separator, and no piece contains it |
| `PyStr.JoinSplit` | testecalc.py:49 | joining the pieces back with the separator gives the original text |
| `PyStr.SplitAbsent` | testecalc.py:49-50 | without the separator, `split` returns the whole text as its only piece |
| `PyStr.SplitOnce` | testecalc.py:49-50 | with the separator exactly once, at `k`, `split` returns the text before `k` and the text after `k` |
| `Calc.Symbol` | testecalc.py:47 | every operation is written as one of the characters `+ - * /` |
| `Calc.Rank` | testecalc.py:47 | the position of each operation in the scan order `+ - * /` |
| `Calc.TableIsSymbols` | testecalc.py:34-39 | the dispatch table maps each operation's one-character symbol to that operation and holds nothing else |
| `Calc.Divide` | testecalc.py:27-30 | `div` fails exactly on a zero divisor, with the division-by-zero error; otherwise the quotient times the divisor is the dividend |
| `Calc.Apply` | testecalc.py:15-24 | `add`, `sub` and `mul` always succeed with the sum, difference and product; the `/` entry is `div`; the only failure of a table entry is division by zero |
| `Calc.ApplyInverse` | testecalc.py:15-30 | `sub` undoes `add`, and `div` undoes `mul` by any non-zero number |
| `Calc.Calculate` | testecalc.py:33-42 | `+ - * /` give `a+b`, `a-b`, `a*b`, `a/b`; invalid-operation error exactly when the symbol is not one of the four; the only other error is division by zero with `/` and a zero divisor |
| `Calc.SplitOn` | testecalc.py:49-54 | once a symbol is chosen the only errors are format and number errors, and a result carries that symbol |
| `Calc.Scan` | testecalc.py:47-55 | the search ends in operator-not-found exactly when no symbol of the order occurs in the text |
| `Calc.ParseExpression` | testecalc.py:45-55 | operator not found exactly when none of `+ - * /` occurs; the other errors are format and number errors; a result's operator is one of the four symbols |
| `Calc.ScanPicksFirst` | testecalc.py:47-48 | the first symbol of the order present in the text decides the outcome; later symbols are never tried |
| `Calc.ParsePicksEarliest` | testecalc.py:47-49 | when a symbol occurs and no earlier one in `+ - * /` does, the parser splits on that symbol whatever later symbols occur |
| `Calc.SplitOnBadFormat` | testecalc.py:49-51 | once a symbol is chosen, the format error occurs exactly when it does not occur exactly once |
| `Calc.SplitOnAt` | testecalc.py:49-54 | with the chosen symbol once, at `k`, the operands are the conversions of the stripped text before and after `k`, or a number error |
| `Calc.ParseAt` | testecalc.py:47-54 | for the earliest present symbol: format error exactly when its count is not one; otherwise the conversions of the stripped text on either side of it |
| `Calc.ParseRepeated` | testecalc.py:49-51 | an earliest present symbol that occurs twice always gives the format error |
| `Calc.ParseSingle` | testecalc.py:49-54 | an earliest present symbol occurring once gives the conversions of the stripped text around it, or a number error |
| `Calc.ParseSuccess` | testecalc.py:47-54 | a successful parse names an operation whose symbol occurs exactly once, with no earlier symbol present, and whose operands are the conversions of the stripped text around that occurrence |
| `Calc.EarliestPresent` | testecalc.py:47-48 | when some symbol occurs there is an operation whose symbol occurs and no earlier symbol in the order does |
| `Calc.ParseRoundTrip` | testecalc.py:45-54 | text built from a left part, one symbol and a right part, neither part holding that symbol or one scanned before it, parses back to that symbol and the conversions of the stripped parts (later symbols may occur, as the `-` of `'-3 + 2'`) |
| `Calc.Evaluate` | testecalc.py:68-69 | parsing and then calculating never gives the invalid-operation error; division by zero exactly for a parsed `/` with zero right operand; parse errors pass through unchanged |
| `Calc.EvaluateRoundTrip` | testecalc.py:68-69 | evaluating the text of a left operand, a symbol and a right operand gives what `calculate` returns for that symbol and the converted operands |
| `Calc.Classify` | testecalc.py:63-67 | a line is skipped exactly when it strips to nothing, ends the loop exactly when it strips to one of `sair exit quit q` in any case, and is otherwise evaluated as its stripped text |
| `PyStr.LowerAscii` | testecalc.py:66 | lower-casing keeps the length, turns each of `A`-`Z` into its small letter, keeps every other character, and leaves no capital `A`-`Z` |
| `Calc.ClassifyIgnoresSpace` | testecalc.py:63-67 | whitespace around a line never changes how it is classified |
| `SelfTest.ArithmeticCases` | testecalc.py:77-85 | the self-checks 2+3=5, 5-3=2, 4*2=8 and 9/3=3 hold |
| `SelfTest.DivisionByZeroCase` | testecalc.py:87-93 | dividing any number by zero gives the division-by-zero error |
| `SelfTest.ParsesTwoPlusThree` | testecalc.py:46 | `'2 + 3'` parses to `('+', 2.0, 3.0)` |
| `SelfTest.ParsesPaddedTwoPlusThree` | testecalc.py:52-53 | `' 2 + 3 '` also parses to `('+', 2.0, 3.0)` |
| `SelfTest.LeadingMinusIsBadFormat` | testecalc.py:47-51 | `'-3 - 2'` is a format error |
| `SelfTest.DoublePlusIsBadFormat` | testecalc.py:47-51 | `'2 ++ 3'` is a format error |
| `SelfTest.NegativeExponentIsBadFormat` | testecalc.py:47-51 | `'2 - 1e-5'` is a format error |
| `SelfTest.NegativeRightOperandSplitsOnMinus` | testecalc.py:47-54 | `'2 * -3'` is cut at the `-`, so its left piece is `'2 *'` and it is never a multiplication |
| `SelfTest.NoOperatorNotFound` | testecalc.py:55 | `'hello'` gives the operator-not-found error |
| `SelfTest.WordOperandIsNotANumber` | testecalc.py:52 | `'abc + 3'` gives the number error when `'abc'` is not a number |

## Left out

- The interactive loop (testecalc.py:58-73) is not modelled as a loop. It reads lines, prints results and catches every exception. Only the classification of one line (`Calc.Classify`) and its evaluation (`Calc.Evaluate`) are modelled.
- The command-line dispatch on `--selftest` (testecalc.py:98-102) and the `print` in `selftest` (testecalc.py:95) are console I/O and are not modelled. The self-checks themselves are the lemmas in `SelfTest`.
- Python's `float()` is not modelled. It is the parameter `toFloat`, so exponents, signs, `inf`, `nan`, underscores and its own whitespace handling are outside the model.
- IEEE-754 floating point is not modelled: operands are exact reals. Rounding, `inf` and `nan` are out, and the self-test's tolerance of 1e-9 (testecalc.py:85) becomes exact equality.
- Exception messages are not modelled. Errors are represented by kind only.
- `Calc.Classify`: lower-cases only `A`-`Z`. Python's `str.lower()` maps all of Unicode, which the model does not capture.
