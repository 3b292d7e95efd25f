/** The self-checks of `selftest()`, the docstring example '2 + 3', and
    further examples of the parsing rules, each stated as a lemma about the
    model. */
module SelfTest {
  import opened PyStr
  import opened Calc

  /** The four arithmetic self-checks: 2+3=5, 5-3=2, 4*2=8, 9/3=3. */
  lemma ArithmeticCases()
    ensures Calculate("+", 2.0, 3.0) == Ok(5.0)
    ensures Calculate("-", 5.0, 3.0) == Ok(2.0)
    ensures Calculate("*", 4.0, 2.0) == Ok(8.0)
    ensures Calculate("/", 9.0, 3.0) == Ok(3.0)
  {
  }

  /** The division-by-zero self-check, for every dividend. */
  lemma DivisionByZeroCase(a: real)
    ensures Calculate("/", a, 0.0) == Err(DivByZero)
  {
  }

  /** The doc-comment example: '2 + 3' parses to ('+', 2.0, 3.0). */
  lemma ParsesTwoPlusThree(toFloat: string -> Option<real>)
    requires toFloat("2") == Some(2.0) && toFloat("3") == Some(3.0)
    ensures ParseExpression("2 + 3", toFloat) == Ok(Expression("+", 2.0, 3.0))
  {
    var expr := "2 + 3";
    assert expr[..2] == "2 " && expr[3..] == " 3";
    StripsToDigit("2 ", 0);
    StripsToDigit(" 3", 1);
    ParseSingle(expr, toFloat, Add, 2);
  }

  /** Blanks around the whole expression change nothing: ' 2 + 3 ' also parses
      to ('+', 2.0, 3.0). */
  lemma ParsesPaddedTwoPlusThree(toFloat: string -> Option<real>)
    requires toFloat("2") == Some(2.0) && toFloat("3") == Some(3.0)
    ensures ParseExpression(" 2 + 3 ", toFloat) == Ok(Expression("+", 2.0, 3.0))
  {
    var expr := " 2 + 3 ";
    assert expr[..3] == " 2 " && expr[4..] == " 3 ";
    StripsToDigit(" 2 ", 1);
    StripsToDigit(" 3 ", 1);
    ParseSingle(expr, toFloat, Add, 3);
  }

  /** A piece made of one non-blank character at `k` amid blanks strips to that
      character. */
  lemma StripsToDigit(s: string, k: nat)
    requires k < |s| && !IsSpace(s[k])
    requires forall i :: 0 <= i < |s| && i != k ==> IsSpace(s[i])
    ensures Strip(s) == [s[k]]
  {
    StripSlice(s, k, k + 1);
  }

  /** A leading minus sign: '-3 - 2' is cut at both '-' signs into three
      pieces, a format error whatever the number conversion does. */
  lemma LeadingMinusIsBadFormat(toFloat: string -> Option<real>)
    ensures ParseExpression("-3 - 2", toFloat) == Err(BadFormat)
  {
    ParseRepeated("-3 - 2", toFloat, Sub, 0, 3);
  }

  /** A doubled symbol: '2 ++ 3' is a format error, and the parser does not go on
      to look for a later symbol. */
  lemma DoublePlusIsBadFormat(toFloat: string -> Option<real>)
    ensures ParseExpression("2 ++ 3", toFloat) == Err(BadFormat)
  {
    ParseRepeated("2 ++ 3", toFloat, Add, 2, 3);
  }

  /** An exponent with a minus sign: '2 - 1e-5' holds two '-' signs and is a
      format error. */
  lemma NegativeExponentIsBadFormat(toFloat: string -> Option<real>)
    ensures ParseExpression("2 - 1e-5", toFloat) == Err(BadFormat)
  {
    ParseRepeated("2 - 1e-5", toFloat, Sub, 2, 6);
  }

  /** A negative right operand: '2 * -3' is cut at the '-' (tried before '*'),
      so the left piece is '2 *'; it is never read as a multiplication, and it
      fails whenever '2 *' is not a number, as it is not for `float()`. */
  lemma NegativeRightOperandSplitsOnMinus(toFloat: string -> Option<real>)
    ensures ParseExpression("2 * -3", toFloat) ==
      if toFloat("2 *").Some? && toFloat("3").Some?
      then Ok(Expression("-", toFloat("2 *").value, toFloat("3").value))
      else Err(NotANumber)
  {
    var expr := "2 * -3";
    assert expr[..4] == "2 * " && expr[5..] == "3";
    StripSlice("2 * ", 0, 3);
    assert "2 * "[0..3] == "2 *";
    StripsToDigit("3", 0);
    ParseSingle(expr, toFloat, Sub, 4);
  }

  /** Text without any of the four symbols: operator not found. */
  lemma NoOperatorNotFound(toFloat: string -> Option<real>)
    ensures ParseExpression("hello", toFloat) == Err(OperatorNotFound)
  {
    forall o: Op ensures Symbol(o) !in "hello" {
      assert Symbol(o) in "+-*/";
    }
  }

  /** An operand that is not a number: 'abc + 3' fails in the conversion. */
  lemma WordOperandIsNotANumber(toFloat: string -> Option<real>)
    requires toFloat("abc") == None
    ensures ParseExpression("abc + 3", toFloat) == Err(NotANumber)
  {
    var expr := "abc + 3";
    assert expr[..4] == "abc ";
    StripSlice("abc ", 0, 3);
    assert "abc "[0..3] == "abc";
    ParseSingle(expr, toFloat, Add, 4);
  }
}
