/** Concrete inputs from the source's own test functions, with the outcomes the model gives them. */
module Samples {
  import opened Outcomes
  import opened Lexical
  import opened Tokens
  import opened Evaluation
  import opened Grammar
  import opened Validity
  import opened EndToEnd
  import opened Calculator
  import Braces
  import Validator

  /** A term that is a single literal. */
  function Num(ds: seq<char>): (t: Term)
    requires ds != [] && AllDigits(ds)
    ensures TermOk(t) && TermPlain(t) && PrintTerm(t) == ds && TermValue(t) == Ok(DecimalValue(ds))
  {
    Term(Literal(ds), NoFactor)
  }

  /** An expression that is a single parenthesised expression. */
  function Wrap(e: Expr): (r: Expr)
    requires ExprOk(e) && ExprPlain(e)
    ensures ExprOk(r) && ExprPlain(r) && Unsigned(r.head.head)
    ensures PrintExpr(r) == ['('] + PrintExpr(e) + [')'] && ExprValue(r) == ExprValue(e)
  {
    var t := Term(Group(e), NoFactor);
    assert UnitOk(t.head) && UnitPlain(t.head) && TermOk(t) && TermPlain(t);
    assert PrintTerm(t) == PrintUnit(Group(e)) + [];
    assert PrintExpr(Expr(t, NoSum)) == PrintTerm(t) + [];
    assert UnitValue(t.head) == ExprValue(e);
    assert TermValue(t) == ExprValue(e) by {
      if ExprValue(e).Ok? {
        assert FactorsValue(ExprValue(e).value, NoFactor) == ExprValue(e);
      }
    }
    assert ExprValue(Expr(t, NoSum)) == ExprValue(e) by {
      if ExprValue(e).Ok? {
        assert SumsValue(ExprValue(e).value, NoSum) == ExprValue(e);
      }
    }
    Expr(t, NoSum)
  }

  /** The longer literals of "12+0013-(22+6)*7": each takes its whole run of digits, and a leading
      zero is kept as the type. */
  lemma TokenStreamLiterals()
    ensures var s := "12+0013-(22+6)*7";
      && Next(s, 0) == Read(Token('1', 12), 2)
      && Next(s, 3) == Read(Token('0', 13), 7)
  {
    var s := "12+0013-(22+6)*7";
    hide Next;
    assert Next(s, 0) == Read(Token('1', 12), 2) by {
      assert s[0..2] == "12" && "12"[..1] == "1";
      NextLiteral(s, 0, "12");
    }
    assert Next(s, 3) == Read(Token('0', 13), 7) by {
      assert s[3..7] == "0013" && "0013"[..3] == "001" && "001"[..2] == "00" && "00"[..1] == "0";
      NextLiteral(s, 3, "0013");
    }
  }

  /** The remaining literals of "12+0013-(22+6)*7". */
  lemma TokenStreamShortLiterals()
    ensures var s := "12+0013-(22+6)*7";
      && Next(s, 9) == Read(Token('2', 22), 11)
      && Next(s, 12) == Read(Token('6', 6), 13)
      && Next(s, 15) == Read(Token('7', 7), 16)
  {
    var s := "12+0013-(22+6)*7";
    hide Next;
    assert Next(s, 9) == Read(Token('2', 22), 11) by {
      assert s[9..11] == "22" && "22"[..1] == "2";
      NextLiteral(s, 9, "22");
    }
    assert s[12..13] == "6" && s[15..16] == "7";
    NextLiteral(s, 12, "6");
    NextLiteral(s, 15, "7");
  }

  /** The operators and braces of "12+0013-(22+6)*7", and the sentinel at its end. */
  lemma TokenStreamSymbols()
    ensures var s := "12+0013-(22+6)*7";
      && Next(s, 2) == Read(Symbol('+'), 3)
      && Next(s, 7) == Read(Symbol('-'), 8)
      && Next(s, 8) == Read(Symbol('('), 9)
      && Next(s, 11) == Read(Symbol('+'), 12)
      && Next(s, 13) == Read(Symbol(')'), 14)
      && Next(s, 14) == Read(Symbol('*'), 15)
      && Next(s, 16) == Read(Sentinel, 16)
  {
    var s := "12+0013-(22+6)*7";
    hide Next;
    NextSymbol(s, 2);
    NextSymbol(s, 7);
    NextSymbol(s, 8);
    NextSymbol(s, 11);
    NextSymbol(s, 13);
    NextSymbol(s, 14);
    NextAtEnd(s, 16);
  }

  /** `getValue` of a symbol is its character code, of a literal its value. */
  lemma TokenSample()
    ensures Symbol('0').GetValue() == '0' as int && Token('0', 25).GetValue() == 25
    ensures Symbol('(').GetValue() == '(' as int && Symbol(')').GetValue() == ')' as int
    ensures Symbol('+').GetValue() == '+' as int && Symbol('-').GetValue() == '-' as int
  {
  }

  /** `-17 / -2` truncates to 8, and `-7 / 2` to -3. */
  lemma TruncDivSample()
    ensures TruncDiv(-17, -2) == 8 && TruncDiv(-7, 2) == -3 && TruncDiv(7, -2) == -3
  {
  }

  /** "1+23" evaluates to 24. */
  lemma EvaluateSum()
    ensures VerdictOf("1+23") == Evaluated(24)
  {
    var e := Expr(Num("1"), Plus(Num("23"), NoSum));
    assert PrintExpr(e) == "1+23";
    PlainVerdict(e);
  }

  /** The term "23*(2+2)". */
  function Product(): (t: Term)
    ensures TermOk(t) && TermPlain(t) && Unsigned(t.head)
  {
    var inner := Expr(Num("2"), Plus(Num("2"), NoSum));
    assert UnitOk(Group(inner)) && UnitPlain(Group(inner));
    Term(Literal("23"), Times(Group(inner), NoFactor))
  }

  lemma ProductSample()
    ensures PrintTerm(Product()) == "23*(2+2)" && TermValue(Product()) == Ok(92)
  {
    var inner := Expr(Num("2"), Plus(Num("2"), NoSum));
    assert PrintExpr(inner) == "2+2" && ExprValue(inner) == Ok(4);
    assert PrintUnit(Group(inner)) == "(2+2)";
  }

  /** "1+23*(2+2)" evaluates to 93: the product binds tighter than the sum. */
  lemma EvaluatePrecedence()
    ensures VerdictOf("1+23*(2+2)") == Evaluated(93)
  {
    hide VerdictOf;
    ProductSample();
    var e := Expr(Num("1"), Plus(Product(), NoSum));
    assert PrintExpr(e) == "1+" + "23*(2+2)" == "1+23*(2+2)";
    PlainVerdict(e);
  }

  /** The last three terms of the chain below. */
  function ChainTail(): (s: Sums)
    ensures SumsOk(s) && SumsPlain(s)
  {
    Plus(Num("6"), Minus(Num("7"), Plus(Num("8"), NoSum)))
  }

  /** The terms "+2-3+4-5+6-7+8". */
  function Chain(): (s: Sums)
    ensures SumsOk(s) && SumsPlain(s)
  {
    Plus(Num("2"), Minus(Num("3"), Plus(Num("4"), Minus(Num("5"), ChainTail()))))
  }

  lemma ChainText()
    ensures PrintSums(Chain()) == "+2-3+4-5+6-7+8"
  {
    assert PrintSums(ChainTail()) == "+6-7+8";
  }

  /** The tail adds 6, subtracts 7 and adds 8 to whatever precedes it. */
  lemma ChainTailValue(acc: int)
    ensures SumsValue(acc, ChainTail()) == Ok(acc + 7)
  {
  }

  lemma ChainValue()
    ensures SumsValue(1, Chain()) == Ok(6)
  {
    ChainTailValue(-1);
  }

  /** The expression "1+2-3+4-5+6-7+8" and its value. */
  function ChainExpr(): (e: Expr)
    ensures ExprOk(e) && ExprPlain(e)
  {
    Expr(Num("1"), Chain())
  }

  lemma ChainExprText()
    ensures PrintExpr(ChainExpr()) == "1+2-3+4-5+6-7+8"
  {
    ChainText();
  }

  lemma ChainExprValue()
    ensures ExprValue(ChainExpr()) == Ok(6)
  {
    ChainValue();
  }

  /** "1+2-3+4-5+6-7+8" evaluates to 6: the terms are taken from the left. */
  lemma EvaluateChain()
    ensures VerdictOf("1+2-3+4-5+6-7+8") == Evaluated(6)
  {
    hide VerdictOf;
    ChainExprText();
    ChainExprValue();
    PlainVerdict(ChainExpr());
  }

  /** Whitespace splitting a literal is skipped by the stream, and the top level ignores what is
      left: "1 2" is accepted as "12" but evaluates to 1. */
  lemma LeftoverIgnored()
    ensures VerdictOf("1 2") == Evaluated(1)
  {
    LeftoverAccepted();
    LeftoverEvaluation();
  }

  lemma LeftoverAccepted()
    ensures Validator.WellFormed(Strip("1 2"))
  {
    assert Strip("1 2") == "12";
    PlainWellFormed(Expr(Num("12"), NoSum));
  }

  lemma LeftoverEvaluation()
    ensures ExprAt("1 2", 0) == Parsed(1, 2)
  {
    var s := "1 2";
    assert Next(s, 0) == Read(Token('1', 1), 1);
    assert Next(s, 2) == Read(Token('2', 2), 3);
    assert Next(s, 1) == Next(s, 2);
    assert UnitAt(s, 0) == Parsed(1, 1);
    assert TermAt(s, 0) == Parsed(1, 2);
  }

  /** A literal whose value is the code of `*` acts as `*`: "1 42" is accepted as "142", and its
      evaluation looks for a unit after the 42 and fails. */
  lemma LiteralAsOperator()
    ensures VerdictOf("1 42") == Failed(BadToken)
  {
    LiteralAsOperatorAccepted();
    LiteralAsOperatorEvaluation();
  }

  lemma LiteralAsOperatorAccepted()
    ensures Validator.WellFormed(Strip("1 42"))
  {
    var s := "1 42";
    assert s[..3] == "1 4" && "1 4"[..2] == "1 " && "1 "[..1] == "1";
    assert Strip(s) == "142";
    PlainWellFormed(Expr(Num("142"), NoSum));
  }

  lemma LiteralAsOperatorEvaluation()
    ensures ExprAt("1 42", 0) == Aborted(BadToken)
  {
    var s := "1 42";
    assert Next(s, 0) == Read(Token('1', 1), 1);
    assert DigitRunEnd(s, 2) == 4 && RunValue(s, 2, 4) == 42;
    assert Next(s, 1) == Next(s, 2) == Read(Token('4', 42), 4);
    assert Next(s, 4) == Read(Sentinel, 4);
    assert UnitAt(s, 0) == Parsed(1, 1);
    assert TermAt(s, 0) == Aborted(BadToken);
  }

  /** The same quirk can also give a wrong value instead of a failure: "2 42 3" is accepted as
      "2423", and its evaluation reads the 42 as `*` and gives 6. */
  lemma LiteralAsProduct()
    ensures VerdictOf("2 42 3") == Evaluated(6)
  {
    LiteralAsProductAccepted();
    LiteralAsProductEvaluation();
  }

  lemma LiteralAsProductAccepted()
    ensures Validator.WellFormed(Strip("2 42 3"))
  {
    var s := "2 42 3";
    assert s[..5] == "2 42 " && "2 42 "[..4] == "2 42";
    assert "2 42"[..3] == "2 4" && "2 4"[..2] == "2 " && "2 "[..1] == "2";
    assert Strip(s) == "2423";
    PlainWellFormed(Expr(Num("2423"), NoSum));
  }

  lemma LiteralAsProductEvaluation()
    ensures ExprAt("2 42 3", 0) == Parsed(6, 6)
  {
    var s := "2 42 3";
    assert Next(s, 0) == Read(Token('2', 2), 1);
    assert DigitRunEnd(s, 2) == 4 && RunValue(s, 2, 4) == 42;
    assert Next(s, 1) == Next(s, 2) == Read(Token('4', 42), 4);
    assert Next(s, 4) == Next(s, 5) == Read(Token('3', 3), 6);
    assert Next(s, 6) == Read(Sentinel, 6);
    assert UnitAt(s, 0) == Parsed(2, 1);
    assert UnitAt(s, 4) == Parsed(3, 6);
    assert TermAt(s, 0) == Parsed(6, 6);
  }

  /** The validator puts a virtual `(` before the first character, and `(` may be followed by
      any operator: "*1" is accepted, and its evaluation finds no unit at the start. */
  lemma LeadingOperator()
    ensures VerdictOf("*1") == Failed(BadToken)
  {
    LeadingOperatorAccepted();
    LeadingOperatorEvaluation();
  }

  lemma LeadingOperatorAccepted()
    ensures Validator.WellFormed(Strip("*1"))
  {
    StripNoSpace("*1");
    Braces.NoBracesBalanced("*1", '(', ')');
  }

  lemma LeadingOperatorEvaluation()
    ensures ExprAt("*1", 0) == Aborted(BadToken)
  {
    var s := "*1";
    assert Next(s, 0) == Read(Symbol('*'), 1);
    assert UnitAt(s, 0) == Aborted(BadToken);
  }

  /** A division by a unit worth zero passes validation and fails in `getTerm`. */
  lemma DivisionByZero()
    ensures VerdictOf("1/0") == Failed(DivByZero)
  {
    var e := Expr(Term(Literal("1"), Over(Literal("0"), NoFactor)), NoSum);
    assert PrintExpr(e) == "1/0";
    PlainVerdict(e);
  }

  /** The validator does not look at the last character: "1-" is accepted, and its evaluation
      finds no unit after the `-`. */
  lemma TrailingOperator()
    ensures VerdictOf("1-") == Failed(BadToken)
  {
    TrailingOperatorAccepted();
    TrailingOperatorEvaluation();
  }

  lemma TrailingOperatorAccepted()
    ensures Validator.WellFormed(Strip("1-"))
  {
    StripNoSpace("1-");
    Braces.NoBracesBalanced("1-", '(', ')');
  }

  lemma TrailingOperatorEvaluation()
    ensures ExprAt("1-", 0) == Aborted(BadToken)
  {
    var s := "1-";
    assert Next(s, 0) == Read(Token('1', 1), 1);
    assert Next(s, 1) == Read(Symbol('-'), 2);
    assert Next(s, 2) == Read(Sentinel, 2);
    assert UnitAt(s, 0) == Parsed(1, 1);
    assert TermAt(s, 0) == Parsed(1, 1);
  }

  /** Brace nesting ignores every other character. */
  lemma BraceSamples()
    ensures Braces.Balanced("(abc)", '(', ')') && Braces.Balanced("isui \tuh\t", '(', ')')
    ensures Braces.Balanced("(isui )", '(', ')')
  {
    Braces.NoBracesBalanced("abc", '(', ')');
    Braces.BalancedWrap("abc", '(', ')');
    assert "(abc)" == ['('] + "abc" + [')'];
    Braces.NoBracesBalanced("isui \tuh\t", '(', ')');
    Braces.NoBracesBalanced("isui ", '(', ')');
    Braces.BalancedWrap("isui ", '(', ')');
    assert "(isui )" == ['('] + "isui " + [')'];
  }

  /** "((isui )\tuh\t)" is balanced, while "((isui )\t)uh\t)" closes one brace too many. */
  lemma NestedBraceSamples()
    ensures Braces.Balanced("((isui )\tuh\t)", '(', ')')
    ensures !Braces.Balanced("((isui )\t)uh\t)", '(', ')')
  {
    var x := "(isui )";
    BraceSamples();
    Braces.NoBracesBalanced("\tuh\t", '(', ')');
    Braces.BalancedConcat(x, "\tuh\t", '(', ')');
    var y := x + "\tuh\t";
    Braces.BalancedWrap(y, '(', ')');
    assert ['('] + y + [')'] == "((isui )\tuh\t)";
    Braces.NoBracesBalanced("\t", '(', ')');
    Braces.BalancedConcat(x, "\t", '(', ')');
    var z := x + "\t";
    Braces.BalancedWrap(z, '(', ')');
    var a := ['('] + z + [')'];
    var b := "uh\t)";
    assert Braces.Net(b, '(', ')') == -1 by {
      Braces.NoBracesBalanced("uh\t", '(', ')');
      assert b[..3] == "uh\t";
    }
    Braces.NetConcat(a, b, '(', ')');
    assert a + b == "((isui )\t)uh\t)";
  }

  /** The validator rejects the empty text, "()", "((3+))" and a missing operand before `)`. */
  lemma RejectedSamples()
    ensures !Validator.WellFormed("") && !Validator.WellFormed("()") && !Validator.WellFormed("((3+))")
    ensures !Validator.WellFormed("((5+4*(7+9-)))")
  {
    assert "((5+4*(7+9-)))" == "((5+4*(7+9-" + ")))";
    Validator.BadPairRejects("((5+4*(7+9-", ")))");
  }

  /** The validator rejects ")(", a digit before `(` and two operators in a row. */
  lemma RejectedPairSamples()
    ensures !Validator.WellFormed("((5+4*(7+9-(1)())))")
    ensures !Validator.WellFormed("((5+4*(7+9(1+2))))")
    ensures !Validator.WellFormed("1(2)") && !Validator.WellFormed("1*(-2*9)++6*(8+2)")
  {
    assert "((5+4*(7+9-(1)())))" == "((5+4*(7+9-(1)" + "())))";
    Validator.BadPairRejects("((5+4*(7+9-(1)", "())))");
    assert "((5+4*(7+9(1+2))))" == "((5+4*(7+9" + "(1+2))))";
    Validator.BadPairRejects("((5+4*(7+9", "(1+2))))");
    assert "1*(-2*9)++6*(8+2)" == "1*(-2*9)+" + "+6*(8+2)";
    Validator.BadPairRejects("1*(-2*9)+", "+6*(8+2)");
  }

  /** Valid texts of the validator's tests, each the text of a plain tree. */
  lemma AcceptedSamples()
    ensures Validator.WellFormed("(4+5)") && Validator.WellFormed("((3+5))")
  {
    var i := Expr(Num("4"), Plus(Num("5"), NoSum));
    assert PrintExpr(i) == "4+5";
    assert PrintExpr(Wrap(i)) == "(4+5)";
    PlainWellFormed(Wrap(i));
    var k := Expr(Num("3"), Plus(Num("5"), NoSum));
    assert PrintExpr(k) == "3+5";
    assert PrintExpr(Wrap(k)) == "(3+5)";
    assert PrintExpr(Wrap(Wrap(k))) == "((3+5))";
    PlainWellFormed(Wrap(Wrap(k)));
  }

  /** A sign may open a parenthesised expression. */
  lemma AcceptedSignSample()
    ensures Validator.WellFormed("((+4))")
  {
    var j := Expr(Term(Pos(Literal("4")), NoFactor), NoSum);
    assert PrintExpr(j) == "+4";
    assert PrintExpr(Wrap(j)) == "(+4)";
    assert PrintExpr(Wrap(Wrap(j))) == "((+4))";
    PlainWellFormed(Wrap(Wrap(j)));
  }

  /** The expression "5+4*(7+9)". */
  function NestedSum(): (e: Expr)
    ensures ExprOk(e) && ExprPlain(e)
  {
    Expr(Num("7"), Plus(Num("9"), NoSum))
  }

  function Nested(): (e: Expr)
    ensures ExprOk(e) && ExprPlain(e)
  {
    var g := Group(NestedSum());
    assert UnitOk(g) && UnitPlain(g);
    Expr(Num("5"), Plus(Term(Literal("4"), Times(g, NoFactor)), NoSum))
  }

  lemma NestedText()
    ensures PrintExpr(Nested()) == "5+4*(7+9)"
  {
    assert PrintExpr(NestedSum()) == "7+9";
    assert PrintUnit(Group(NestedSum())) == "(7+9)";
  }

  /** "((5+4*(7+9)))" is valid. */
  lemma AcceptedNestedSample()
    ensures Validator.WellFormed("((5+4*(7+9)))")
  {
    NestedText();
    var g := Wrap(Wrap(Nested()));
    assert PrintExpr(g) == "((5+4*(7+9)))";
    PlainWellFormed(g);
  }

  /** The expression "5+4*(7+9-(1))". */
  function DeepSum(): (e: Expr)
    ensures ExprOk(e) && ExprPlain(e)
  {
    var one := Group(Expr(Num("1"), NoSum));
    assert UnitOk(one) && UnitPlain(one);
    Expr(Num("7"), Plus(Num("9"), Minus(Term(one, NoFactor), NoSum)))
  }

  function Deep(): (e: Expr)
    ensures ExprOk(e) && ExprPlain(e)
  {
    var g := Group(DeepSum());
    assert UnitOk(g) && UnitPlain(g);
    Expr(Num("5"), Plus(Term(Literal("4"), Times(g, NoFactor)), NoSum))
  }

  lemma DeepSumText()
    ensures PrintExpr(DeepSum()) == "7+9-(1)"
  {
    assert PrintUnit(Group(Expr(Num("1"), NoSum))) == "(1)";
  }

  lemma DeepText()
    ensures PrintExpr(Deep()) == "5+4*(7+9-(1))"
  {
    DeepSumText();
    assert PrintUnit(Group(DeepSum())) == ['('] + "7+9-(1)" + [')'];
  }

  /** "((5+4*(7+9-(1))))" is valid: a braced literal may follow `-`. */
  lemma AcceptedDeepSample()
    ensures Validator.WellFormed("((5+4*(7+9-(1))))")
  {
    DeepText();
    var g := Wrap(Wrap(Deep()));
    DeepChars();
    hide *;
    PlainWellFormed(g);
  }

  lemma DeepChars()
    ensures ['('] + (['('] + "5+4*(7+9-(1))" + [')']) + [')'] == "((5+4*(7+9-(1))))"
  {
  }
}
