/** The expression evaluator of the command-line calculator: the four
    arithmetic operations, the symbol-keyed dispatch `calculate`, and the
    first-symbol-wins parser `parse_expression`.

    Operands are mathematical reals. Python's `float()` text-to-number
    conversion is not modelled: every parsing member takes it as a parameter
    `toFloat`, a partial function from text to a number, so every property
    below holds whatever conversion is plugged in and depends only on which
    pieces of text are handed to it.
 */
module Calc {
  import opened PyStr

  datatype Option<T> = None | Some(value: T)

  /** The failures the evaluator signals, by kind. */
  datatype ErrorKind =
    | OperatorNotFound   // none of + - * / occurs in the input
    | BadFormat          // the chosen symbol does not cut the input into exactly two pieces
    | NotANumber         // `float()` rejected one of the two pieces
    | DivByZero          // division with a zero divisor
    | InvalidOp          // `calculate` was given a symbol outside its table

  datatype Result<T> = Ok(value: T) | Err(error: ErrorKind)

  datatype Op = Add | Sub | Mul | Div

  /** A parsed expression: the operator symbol as text, and the two operands. */
  datatype Expression = Expression(op: string, left: real, right: real)

  /** The character that denotes each operation; no two share one. */
  function Symbol(o: Op): (c: char)
    ensures c in "+-*/"
  {
    match o
    case Add => '+'
    case Sub => '-'
    case Mul => '*'
    case Div => '/'
  }

  /** No two operations share a symbol. */
  lemma SymbolInjective(o: Op, p: Op)
    ensures Symbol(o) == Symbol(p) ==> o == p
  {
  }

  /** The order in which `parse_expression` looks for the symbols. */
  const ScanOrder: seq<Op> := [Add, Sub, Mul, Div]

  /** The position of `o` in the scan order. */
  function Rank(o: Op): (k: nat)
    ensures k < |ScanOrder| && ScanOrder[k] == o
  {
    match o
    case Add => 0
    case Sub => 1
    case Mul => 2
    case Div => 3
  }

  /** The read-only table `calculate` looks the symbol up in. */
  const Table: map<string, Op> := map["+" := Add, "-" := Sub, "*" := Mul, "/" := Div]

  /** The table holds exactly the one-character names of the four operations. */
  lemma TableIsSymbols()
    ensures forall o: Op :: [Symbol(o)] in Table && Table[[Symbol(o)]] == o
    ensures forall op :: op in Table ==> op == [Symbol(Table[op])]
  {
    forall o: Op ensures [Symbol(o)] in Table && Table[[Symbol(o)]] == o {
      match o
      case Add => assert [Symbol(o)] == "+";
      case Sub => assert [Symbol(o)] == "-";
      case Mul => assert [Symbol(o)] == "*";
      case Div => assert [Symbol(o)] == "/";
    }
  }

  // ---------------------------------------------------------------------
  // The four operations and `calculate`
  // ---------------------------------------------------------------------

  /** `div`: fails on a zero divisor; otherwise the quotient, which times the
      divisor gives back the dividend. */
  function Divide(a: real, b: real): (r: Result<real>)
    ensures r.Err? <==> b == 0.0
    ensures r.Err? ==> r.error == DivByZero
    ensures r.Ok? ==> r.value * b == a
  {
    if b == 0.0 then Err(DivByZero) else Ok(a / b)
  }

  /** The table entry for `o` applied to the operands: `add`, `sub` and `mul`
      always succeed with the sum, difference and product; `div` is `Divide`;
      the only failure is a division by zero. */
  function Apply(o: Op, a: real, b: real): (r: Result<real>)
    ensures o == Add ==> r == Ok(a + b)
    ensures o == Sub ==> r == Ok(a - b)
    ensures o == Mul ==> r == Ok(a * b)
    ensures o == Div ==> r == Divide(a, b)
    ensures r.Err? <==> o == Div && b == 0.0
  {
    match o
    case Add => Ok(a + b)
    case Sub => Ok(a - b)
    case Mul => Ok(a * b)
    case Div => Divide(a, b)
  }

  /** `sub` undoes `add`, and `div` undoes `mul` by a non-zero number. */
  lemma ApplyInverse(a: real, b: real)
    ensures Apply(Sub, Apply(Add, a, b).value, b) == Ok(a)
    ensures b != 0.0 ==> Apply(Div, Apply(Mul, a, b).value, b) == Ok(a)
  {
    if b != 0.0 {
      var p := Apply(Mul, a, b).value;
      assert p == a * b;
      assert p / b == a;
      assert Apply(Div, p, b) == Divide(p, b);
    }
  }

  /** `calculate(op, a, b)`: the arithmetic the symbol names; an invalid-operation
      error exactly for a symbol outside + - * /; and otherwise no error at all
      except division by zero. */
  function Calculate(op: string, a: real, b: real): (r: Result<real>)
    ensures r == Err(InvalidOp) <==> op !in {"+", "-", "*", "/"}
    ensures op == "+" ==> r == Ok(a + b)
    ensures op == "-" ==> r == Ok(a - b)
    ensures op == "*" ==> r == Ok(a * b)
    ensures op == "/" ==> (r == Err(DivByZero) <==> b == 0.0)
    ensures op == "/" && b != 0.0 ==> r == Ok(a / b)
    ensures r.Err? ==> r.error == InvalidOp || (op == "/" && b == 0.0 && r.error == DivByZero)
  {
    assert Table["+"] == Add && Table["-"] == Sub && Table["*"] == Mul && Table["/"] == Div;
    assert Apply(Mul, a, b).value == a * b;
    if op !in Table then Err(InvalidOp) else Apply(Table[op], a, b)
  }

  // ---------------------------------------------------------------------
  // `parse_expression`
  // ---------------------------------------------------------------------

  /** The body of the search once symbol `c` has been found in `expr`: cut
      `expr` at every `c`, demand exactly two pieces, and convert each
      stripped piece. */
  function SplitOn(expr: string, c: char, toFloat: string -> Option<real>): (r: Result<Expression>)
    ensures r.Err? ==> r.error == BadFormat || r.error == NotANumber
    ensures r.Ok? ==> r.value.op == [c]
  {
    var parts := Split(expr, c);
    if |parts| != 2 then Err(BadFormat)
    else
      var a := toFloat(Strip(parts[0]));
      var b := toFloat(Strip(parts[1]));
      if a.None? || b.None? then Err(NotANumber)
      else Ok(Expression([c], a.value, b.value))
  }

  /** The search over the symbols of `order`: the first one that occurs in
      `expr` decides the outcome, and no later one is tried. */
  function Scan(expr: string, order: seq<Op>, toFloat: string -> Option<real>): (r: Result<Expression>)
    ensures r == Err(OperatorNotFound) <==> forall i :: 0 <= i < |order| ==> Symbol(order[i]) !in expr
  {
    if order == [] then Err(OperatorNotFound)
    else if Symbol(order[0]) in expr then SplitOn(expr, Symbol(order[0]), toFloat)
    else Scan(expr, order[1..], toFloat)
  }

  /** `parse_expression(expr)`: operator not found exactly when none of the four
      symbols occurs; otherwise an error of format or number, or an expression
      whose operator is in `calculate`'s table. */
  function ParseExpression(expr: string, toFloat: string -> Option<real>): (r: Result<Expression>)
    ensures r == Err(OperatorNotFound) <==> forall o: Op :: Symbol(o) !in expr
    ensures r.Err? ==> r.error in {OperatorNotFound, BadFormat, NotANumber}
    ensures r.Ok? ==> r.value.op in {"+", "-", "*", "/"}
  {
    ScanOrderCoversAll(expr);
    ScanResult(expr, ScanOrder, toFloat);
    Scan(expr, ScanOrder, toFloat)
  }

  /** The scan order lists every operation, so a symbol of the order is absent
      exactly when every operation's symbol is. */
  lemma ScanOrderCoversAll(expr: string)
    ensures (forall i :: 0 <= i < |ScanOrder| ==> Symbol(ScanOrder[i]) !in expr)
      <==> (forall o: Op :: Symbol(o) !in expr)
  {
    if forall i :: 0 <= i < |ScanOrder| ==> Symbol(ScanOrder[i]) !in expr {
      forall o: Op ensures Symbol(o) !in expr {
        assert ScanOrder[Rank(o)] == o;
      }
    }
  }

  /** Whatever `Scan` returns comes from `SplitOn` on one of the symbols of
      `order`, or is the not-found error. */
  lemma {:induction false} ScanResult(expr: string, order: seq<Op>, toFloat: string -> Option<real>)
    ensures Scan(expr, order, toFloat).Err? ==>
      Scan(expr, order, toFloat).error in {OperatorNotFound, BadFormat, NotANumber}
    ensures Scan(expr, order, toFloat).Ok? ==>
      exists i :: 0 <= i < |order| && Scan(expr, order, toFloat).value.op == [Symbol(order[i])]
  {
    if order != [] && Symbol(order[0]) !in expr {
      ScanResult(expr, order[1..], toFloat);
      var r := Scan(expr, order, toFloat);
      if r.Ok? {
        var i :| 0 <= i < |order[1..]| && r.value.op == [Symbol(order[1..][i])];
        assert order[1..][i] == order[i + 1];
      }
    }
  }

  /** The first symbol of `order` present in `expr` is the one `Scan` splits on. */
  lemma {:induction false} ScanPicksFirst(expr: string, order: seq<Op>, toFloat: string -> Option<real>, k: nat)
    requires k < |order| && Symbol(order[k]) in expr
    requires forall i :: 0 <= i < k ==> Symbol(order[i]) !in expr
    ensures Scan(expr, order, toFloat) == SplitOn(expr, Symbol(order[k]), toFloat)
  {
    if k > 0 {
      assert Symbol(order[0]) !in expr;
      assert forall i :: 0 <= i < k - 1 ==> order[1..][i] == order[i + 1];
      ScanPicksFirst(expr, order[1..], toFloat, k - 1);
    }
  }

  /** First symbol wins: when `o`'s symbol occurs and no symbol before it in the
      order + - * / does, `parse_expression` splits on `o`'s symbol, whatever
      later symbols occur too. */
  lemma ParsePicksEarliest(expr: string, toFloat: string -> Option<real>, o: Op)
    requires Symbol(o) in expr
    requires forall p: Op :: Rank(p) < Rank(o) ==> Symbol(p) !in expr
    ensures ParseExpression(expr, toFloat) == SplitOn(expr, Symbol(o), toFloat)
  {
    forall i | 0 <= i < Rank(o) ensures Symbol(ScanOrder[i]) !in expr {
      assert Rank(ScanOrder[i]) == i;
    }
    ScanPicksFirst(expr, ScanOrder, toFloat, Rank(o));
  }

  /** Once symbol `c` is chosen, the input is badly formatted exactly when `c`
      does not occur exactly once. */
  lemma SplitOnBadFormat(expr: string, c: char, toFloat: string -> Option<real>)
    ensures SplitOn(expr, c, toFloat) == Err(BadFormat) <==> Count(expr, c) != 1
  {
  }

  /** When the chosen symbol occurs once, at `k`, the operands are the
      conversions of the stripped text before and after `k`. */
  lemma SplitOnAt(expr: string, c: char, toFloat: string -> Option<real>, k: nat)
    requires k < |expr| && expr[k] == c && Count(expr, c) == 1
    ensures
      var a, b := toFloat(Strip(expr[..k])), toFloat(Strip(expr[k + 1..]));
      SplitOn(expr, c, toFloat) ==
        if a.Some? && b.Some? then Ok(Expression([c], a.value, b.value)) else Err(NotANumber)
  {
    SplitOnce(expr, c, k);
  }

  /** What `ParseExpression` returns for an input whose earliest present symbol
      is `o`'s: a format error when it does not occur exactly once; otherwise,
      with the occurrence at `k`, the conversions of the stripped text around
      `k`, or a number error when either is rejected. */
  lemma ParseAt(expr: string, toFloat: string -> Option<real>, o: Op, k: nat)
    requires k < |expr| && expr[k] == Symbol(o)
    requires forall p: Op :: Rank(p) < Rank(o) ==> Symbol(p) !in expr
    ensures ParseExpression(expr, toFloat) == Err(BadFormat) <==> Count(expr, Symbol(o)) != 1
    ensures Count(expr, Symbol(o)) == 1 ==>
      var a, b := toFloat(Strip(expr[..k])), toFloat(Strip(expr[k + 1..]));
      ParseExpression(expr, toFloat) ==
        if a.Some? && b.Some? then Ok(Expression([Symbol(o)], a.value, b.value)) else Err(NotANumber)
  {
    ParsePicksEarliest(expr, toFloat, o);
    SplitOnBadFormat(expr, Symbol(o), toFloat);
    if Count(expr, Symbol(o)) == 1 {
      SplitOnAt(expr, Symbol(o), toFloat, k);
    }
  }

  /** A chosen symbol that occurs twice is always a format error, whatever the
      text around it. */
  lemma ParseRepeated(expr: string, toFloat: string -> Option<real>, o: Op, i: nat, j: nat)
    requires i < j < |expr| && expr[i] == Symbol(o) && expr[j] == Symbol(o)
    requires forall p: Op :: Rank(p) < Rank(o) ==> Symbol(p) !in expr
    ensures ParseExpression(expr, toFloat) == Err(BadFormat)
  {
    CountTwo(expr, Symbol(o), i, j);
    ParseAt(expr, toFloat, o, i);
  }

  /** A chosen symbol that occurs once, at `k`, splits the input into the text
      before and after `k`. */
  lemma ParseSingle(expr: string, toFloat: string -> Option<real>, o: Op, k: nat)
    requires k < |expr| && expr[k] == Symbol(o)
    requires Symbol(o) !in expr[..k] && Symbol(o) !in expr[k + 1..]
    requires forall p: Op :: Rank(p) < Rank(o) ==> Symbol(p) !in expr
    ensures
      var a, b := toFloat(Strip(expr[..k])), toFloat(Strip(expr[k + 1..]));
      ParseExpression(expr, toFloat) ==
        if a.Some? && b.Some? then Ok(Expression([Symbol(o)], a.value, b.value)) else Err(NotANumber)
  {
    CountOne(expr, Symbol(o), k);
    ParseAt(expr, toFloat, o, k);
  }

  /** `e` is what position `k` of `expr` denotes: `expr[k]` is `e`'s operator
      symbol and the stripped text on each side of `k` converts to `e`'s
      operand on that side. */
  predicate Denotes(expr: string, k: nat, e: Expression, toFloat: string -> Option<real>) {
    && k < |expr|
    && e.op == [expr[k]]
    && toFloat(Strip(expr[..k])) == Some(e.left)
    && toFloat(Strip(expr[k + 1..])) == Some(e.right)
  }

  /** A successful parse names an operation `o` whose symbol occurs in the input
      exactly once, at some `k`; no symbol earlier in the order occurs; and the
      operands are the conversions of the stripped text on either side of `k`. */
  lemma ParseSuccess(expr: string, toFloat: string -> Option<real>) returns (o: Op, k: nat)
    requires ParseExpression(expr, toFloat).Ok?
    ensures ParseExpression(expr, toFloat).value.op == [Symbol(o)]
    ensures Count(expr, Symbol(o)) == 1
    ensures forall p: Op :: Rank(p) < Rank(o) ==> Symbol(p) !in expr
    ensures Denotes(expr, k, ParseExpression(expr, toFloat).value, toFloat)
  {
    o := EarliestPresent(expr);
    ParsePicksEarliest(expr, toFloat, o);
    SplitOnBadFormat(expr, Symbol(o), toFloat);
    k :| 0 <= k < |expr| && expr[k] == Symbol(o);
    SplitOnAt(expr, Symbol(o), toFloat, k);
  }

  /** The operation whose symbol the scan meets first, when some symbol occurs. */
  lemma EarliestPresent(expr: string) returns (o: Op)
    requires exists p: Op :: Symbol(p) in expr
    ensures Symbol(o) in expr
    ensures forall p: Op :: Rank(p) < Rank(o) ==> Symbol(p) !in expr
  {
    if Symbol(Add) in expr { o := Add; }
    else if Symbol(Sub) in expr { o := Sub; }
    else if Symbol(Mul) in expr { o := Mul; }
    else { o := Div; }
  }

  /** Round trip: text made of a left part, one operator symbol and a right part,
      where neither part contains that symbol or one scanned before it (later
      symbols may occur, as the `-` of "-3 + 2" does), parses back to that operator
      and the conversions of the two stripped parts. */
  lemma ParseRoundTrip(lhs: string, o: Op, rhs: string, toFloat: string -> Option<real>, x: real, y: real)
    requires forall p: Op :: Rank(p) <= Rank(o) ==> Symbol(p) !in lhs && Symbol(p) !in rhs
    requires toFloat(Strip(lhs)) == Some(x) && toFloat(Strip(rhs)) == Some(y)
    ensures ParseExpression(lhs + [Symbol(o)] + rhs, toFloat) == Ok(Expression([Symbol(o)], x, y))
  {
    var expr := lhs + [Symbol(o)] + rhs;
    var k := |lhs|;
    assert expr[..k] == lhs && expr[k + 1..] == rhs;
    forall p: Op | Rank(p) < Rank(o) ensures Symbol(p) !in expr {
      SymbolInjective(p, o);
    }
    ParseSingle(expr, toFloat, o, k);
  }

  // ---------------------------------------------------------------------
  // One step of the interactive loop, without its I/O
  // ---------------------------------------------------------------------

  /** Parsing followed by `calculate`, as one line of input is evaluated; the
      defensive invalid-operation error never arises. */
  function Evaluate(expr: string, toFloat: string -> Option<real>): (r: Result<real>)
    ensures r.Err? ==> r.error != InvalidOp
    ensures r == Err(DivByZero) <==>
      ParseExpression(expr, toFloat).Ok? && ParseExpression(expr, toFloat).value.op == "/"
      && ParseExpression(expr, toFloat).value.right == 0.0
    ensures ParseExpression(expr, toFloat).Err? ==> r == Err(ParseExpression(expr, toFloat).error)
  {
    match ParseExpression(expr, toFloat)
    case Err(kind) => Err(kind)
    case Ok(e) => Calculate(e.op, e.left, e.right)
  }

  /** Round trip through the whole evaluator: the text of a left operand, a
      symbol and a right operand (under the conditions of `ParseRoundTrip`)
      evaluates to what `calculate` gives for that symbol and the converted
      operands. */
  lemma EvaluateRoundTrip(lhs: string, o: Op, rhs: string, toFloat: string -> Option<real>, x: real, y: real)
    requires forall p: Op :: Rank(p) <= Rank(o) ==> Symbol(p) !in lhs && Symbol(p) !in rhs
    requires toFloat(Strip(lhs)) == Some(x) && toFloat(Strip(rhs)) == Some(y)
    ensures Evaluate(lhs + [Symbol(o)] + rhs, toFloat) == Calculate([Symbol(o)], x, y)
  {
    ParseRoundTrip(lhs, o, rhs, toFloat, x, y);
    TableIsSymbols();
  }

  /** What the interactive loop does with one line it has read. */
  datatype Command = Skip | Quit | Compute(expr: string)

  /** The words that end the interactive loop, in lower case. */
  const QuitWords: set<string> := {"sair", "exit", "quit", "q"}

  /** The loop strips the line; skips it when nothing is left; stops on one of
      the quit words in any mixture of case; evaluates the stripped text
      otherwise. */
  function Classify(line: string): (c: Command)
    ensures c == Skip <==> Strip(line) == []
    ensures c == Quit <==> Strip(line) != [] && LowerAscii(Strip(line)) in QuitWords
    ensures c.Compute? ==> c.expr == Strip(line) && c.expr != [] && LowerAscii(c.expr) !in QuitWords
  {
    var s := Strip(line);
    if s == [] then Skip
    else if LowerAscii(s) in QuitWords then Quit
    else Compute(s)
  }

  /** Surrounding whitespace never changes how a line is classified. */
  lemma ClassifyIgnoresSpace(line: string)
    ensures Classify(Strip(line)) == Classify(line)
  {
    StripIdempotent(line);
  }
}
