/** The source's evaluation tests whose texts hold a tab: "(1+2-3)*4-5+(6-7)\t*8" and the
    larger expressions built around it. The tab stands between two tokens, so the verdict is the
    verdict of the compressed text, which is the written-out form of a plain tree. */
module SpacedSamples {
  import opened Outcomes
  import opened Lexical
  import opened Evaluation
  import opened Grammar
  import opened Validity
  import opened EndToEnd
  import opened Calculator
  import opened Spacing
  import opened Samples

  predicate NoSpace(s: seq<char>) {
    forall i :: 0 <= i < |s| ==> !IsSpace(s[i])
  }

  /** A raw text whose whitespace is harmless: it never follows a digit and does not open the
      text. */
  predicate Spaced(x: seq<char>) {
    x != [] && !IsSpace(x[0]) && NoSpaceAfterDigit(x)
  }

  /** The raw text "(1+2-d)*4-5+(6-7)\t*8". */
  function Tabbed(d: char): seq<char> {
    "(1+2-" + [d] + ")*4-5+(6-7)" + "\t*8"
  }

  lemma TabbedStrip(d: char)
    requires IsDigit(d)
    ensures Strip(Tabbed(d)) == "(1+2-" + [d] + ")*4-5+(6-7)" + "*8"
    ensures Spaced(Tabbed(d))
  {
    var left := "(1+2-" + [d] + ")*4-5+(6-7)";
    assert NoSpace(left);
    StripNoSpace(left);
    assert "\t*8" == ['\t'] + "*8";
    StripConcat(['\t'], "*8");
    assert ['\t'][..0] == [];
    StripNoSpace("*8");
    StripConcat(left, "\t*8");
    var t := Tabbed(d);
    forall k | 0 < k < |t| && IsSpace(t[k]) ensures !IsDigit(t[k - 1]) {
      assert k == |left|;
    }
  }

  /** Text without whitespace around a harmless raw text is kept by compression. */
  lemma Surround(pre: seq<char>, x: seq<char>, post: seq<char>)
    requires NoSpace(pre) && NoSpace(post) && Spaced(x)
    ensures Strip(pre + x + post) == pre + Strip(x) + post
    ensures Spaced(pre + x + post)
  {
    var raw := pre + x + post;
    StripNoSpace(pre);
    StripNoSpace(post);
    StripConcat(pre, x);
    StripConcat(pre + x, post);
    forall k | 0 < k < |raw| && IsSpace(raw[k]) ensures !IsDigit(raw[k - 1]) {
      if |pre| < k < |pre| + |x| {
        assert raw[k] == x[k - |pre|] && raw[k - 1] == x[k - 1 - |pre|];
      }
    }
  }

  /** "1+2-d". */
  function Difference(d: char): (e: Expr)
    requires IsDigit(d)
    ensures ExprOk(e) && ExprPlain(e)
  {
    var last := Num([d]);
    assert SumsOk(Minus(last, NoSum)) && SumsPlain(Minus(last, NoSum));
    Expr(Num("1"), Plus(Num("2"), Minus(last, NoSum)))
  }

  lemma DifferenceFacts(d: char)
    requires IsDigit(d)
    ensures PrintExpr(Difference(d)) == "1+2-" + [d]
    ensures ExprValue(Difference(d)) == Ok(3 - DigitValue(d))
  {
    var last := Minus(Num([d]), NoSum);
    assert DecimalValue([d]) == DigitValue(d);
    assert PrintSums(last) == ['-'] + [d] + [];
    assert SumsValue(3, last) == Ok(3 - DigitValue(d));
    var tail := Plus(Num("2"), last);
    assert PrintSums(tail) == ['+'] + "2" + PrintSums(last);
    assert SumsValue(1, tail) == SumsValue(3, last);
  }

  /** "(6-7)". */
  function Bracket(): (u: Unit)
    ensures UnitOk(u) && UnitPlain(u) && Unsigned(u)
    ensures PrintUnit(u) == "(6-7)" && UnitValue(u) == Ok(-1)
  {
    var e := Expr(Num("6"), Minus(Num("7"), NoSum));
    assert PrintExpr(e) == "6-7";
    Group(e)
  }

  /** "(1+2-d)*4-5+(6-7)*8". */
  function Spread(d: char): (e: Expr)
    requires IsDigit(d)
    ensures ExprOk(e) && ExprPlain(e)
  {
    var left := Group(Difference(d));
    assert UnitOk(left) && UnitPlain(left);
    Expr(Term(left, Times(Literal("4"), NoFactor)),
      Minus(Num("5"), Plus(Term(Bracket(), Times(Literal("8"), NoFactor)), NoSum)))
  }

  lemma SpreadText(d: char)
    requires IsDigit(d)
    ensures PrintExpr(Spread(d)) == Strip(Tabbed(d))
  {
    hide Strip, Tabbed;
    DifferenceFacts(d);
    TabbedStrip(d);
    var e := Spread(d);
    assert PrintUnit(e.head.head) == "(1+2-" + [d] + ")";
    assert PrintTerm(e.head) == "(1+2-" + [d] + ")*4";
    assert PrintTerm(e.tail.rest.term) == "(6-7)*8";
  }

  lemma SpreadValue(d: char)
    requires IsDigit(d)
    ensures ExprValue(Spread(d)) == Ok((3 - DigitValue(d)) * 4 - 13)
  {
    DifferenceFacts(d);
    var v := 3 - DigitValue(d);
    assert TermValue(Spread(d).head) == Ok(v * 4);
    assert TermValue(Term(Bracket(), Times(Literal("8"), NoFactor))) == Ok(-8);
  }

  /** "2*(e)". */
  function Doubled(e: Expr): (r: Expr)
    requires ExprOk(e) && ExprPlain(e)
    ensures ExprOk(r) && ExprPlain(r)
    ensures PrintExpr(r) == "2*(" + PrintExpr(e) + ")"
  {
    assert UnitOk(Group(e)) && UnitPlain(Group(e));
    var two := Literal("2");
    assert UnitOk(two) && UnitPlain(two);
    var t := Term(two, Times(Group(e), NoFactor));
    assert FactorsOk(t.tail) && FactorsPlain(t.tail);
    assert TermOk(t) && TermPlain(t);
    assert PrintFactors(t.tail) == ['*'] + PrintUnit(Group(e)) + [];
    assert PrintTerm(t) == "2*" + PrintUnit(Group(e));
    Expr(t, NoSum)
  }

  lemma DoubledValue(e: Expr)
    requires ExprOk(e) && ExprPlain(e) && ExprValue(e).Ok?
    ensures ExprValue(Doubled(e)) == Ok(2 * ExprValue(e).value)
  {
    var t := Doubled(e).head;
    var v := ExprValue(e).value;
    assert DecimalValue("2") == 2;
    assert UnitValue(t.head) == Ok(2);
    assert UnitValue(Group(e)) == Ok(v);
    assert FactorsValue(2 * v, NoFactor) == Ok(2 * v);
    assert FactorsValue(2, t.tail) == Ok(2 * v);
    assert TermValue(t) == Ok(2 * v);
  }

  /** "2-d". */
  function Divisor(d: char): (e: Expr)
    requires IsDigit(d)
    ensures ExprOk(e) && ExprPlain(e)
    ensures PrintExpr(e) == "2-" + [d] && ExprValue(e) == Ok(2 - DigitValue(d))
  {
    var subtrahend := Minus(Num([d]), NoSum);
    assert SumsOk(subtrahend) && SumsPlain(subtrahend);
    assert DecimalValue([d]) == DigitValue(d);
    assert SumsValue(2, subtrahend) == Ok(2 - DigitValue(d));
    assert PrintSums(subtrahend) == ['-'] + [d] + [];
    Expr(Num("2"), subtrahend)
  }

  /** "(e)/(2-d)". */
  function Quotient(e: Expr, d: char): (r: Expr)
    requires ExprOk(e) && ExprPlain(e) && IsDigit(d)
    ensures ExprOk(r) && ExprPlain(r)
    ensures PrintExpr(r) == "(" + PrintExpr(e) + (")/(2-" + [d] + ")")
  {
    var divisor := Group(Divisor(d));
    assert UnitOk(Group(e)) && UnitPlain(Group(e)) && UnitOk(divisor) && UnitPlain(divisor);
    var t := Term(Group(e), Over(divisor, NoFactor));
    assert FactorsOk(t.tail) && FactorsPlain(t.tail);
    assert TermOk(t) && TermPlain(t);
    assert PrintTerm(t) == PrintUnit(Group(e)) + (['/'] + PrintUnit(divisor) + []);
    Expr(t, NoSum)
  }

  /** A zero divisor fails; any other divides with truncation toward zero. */
  lemma QuotientValue(e: Expr, d: char)
    requires ExprOk(e) && ExprPlain(e) && IsDigit(d) && ExprValue(e).Ok?
    ensures DigitValue(d) == 2 ==> ExprValue(Quotient(e, d)) == Err(DivByZero)
    ensures DigitValue(d) != 2 ==>
      ExprValue(Quotient(e, d)) == Ok(TruncDiv(ExprValue(e).value, 2 - DigitValue(d)))
  {
    var t := Quotient(e, d).head;
    var v := ExprValue(e).value;
    var q := 2 - DigitValue(d);
    assert UnitValue(t.head) == Ok(v);
    assert UnitValue(Group(Divisor(d))) == Ok(q);
    assert TermValue(t) == FactorsValue(v, t.tail);
    if q == 0 {
      assert FactorsValue(v, t.tail) == Err(DivByZero);
    } else {
      assert FactorsValue(TruncDiv(v, q), NoFactor) == Ok(TruncDiv(v, q));
      assert FactorsValue(v, t.tail) == Ok(TruncDiv(v, q));
      assert SumsValue(TruncDiv(v, q), NoSum) == Ok(TruncDiv(v, q));
    }
  }

  /** The tabbed text is worth -13. */
  lemma TabbedFacts()
    ensures NoSplitLiteral(Tabbed('3')) && Strip(Tabbed('3')) == PrintExpr(Spread('3'))
    ensures ExprValue(Spread('3')) == Ok(-13)
  {
    hide Tabbed, Strip, PrintExpr, NoSplitLiteral, NoSpaceAfterDigit, Spaced;
    TabbedStrip('3');
    NoSpaceAfterDigitSplitsNone(Tabbed('3'));
    SpreadText('3');
    SpreadValue('3');
  }

  /** The tabbed text, doubled: "2*((1+2-3)*4-5+(6-7)\t*8)", worth -26. */
  lemma DoubledSpaced()
    ensures var x := "2*(" + Tabbed('3') + ")";
      && Spaced(x) && NoSplitLiteral(x) && Strip(x) == PrintExpr(Doubled(Spread('3')))
      && ExprValue(Doubled(Spread('3'))) == Ok(-26)
  {
    hide Tabbed, Strip, PrintExpr, NoSplitLiteral, NoSpaceAfterDigit, Spaced;
    TabbedStrip('3');
    Surround("2*(", Tabbed('3'), ")");
    NoSpaceAfterDigitSplitsNone("2*(" + Tabbed('3') + ")");
    SpreadText('3');
    SpreadValue('3');
    DoubledValue(Spread('3'));
  }

  lemma DivisorNoSpace(d: char)
    requires IsDigit(d)
    ensures NoSpace(")/(2-" + [d] + ")")
  {
    var t := ")/(2-" + [d] + ")";
    forall i | 0 <= i < |t| ensures !IsSpace(t[i]) {
      if i == 5 {
        assert t[i] == d;
      }
    }
  }

  /** The doubled text over "(2-d)". */
  lemma QuotientSpaced(d: char)
    requires IsDigit(d)
    ensures var x := "(" + ("2*(" + Tabbed('3') + ")") + (")/(2-" + [d] + ")");
      && NoSplitLiteral(x) && Strip(x) == PrintExpr(Quotient(Doubled(Spread('3')), d))
    ensures DigitValue(d) == 2 ==> ExprValue(Quotient(Doubled(Spread('3')), d)) == Err(DivByZero)
    ensures DigitValue(d) != 2 ==>
      ExprValue(Quotient(Doubled(Spread('3')), d)) == Ok(TruncDiv(-26, 2 - DigitValue(d)))
  {
    hide Tabbed, Strip, PrintExpr, NoSplitLiteral, NoSpaceAfterDigit, Spaced;
    var inner := "2*(" + Tabbed('3') + ")";
    DoubledSpaced();
    DivisorNoSpace(d);
    Surround("(", inner, ")/(2-" + [d] + ")");
    NoSpaceAfterDigitSplitsNone("(" + inner + (")/(2-" + [d] + ")"));
    QuotientValue(Doubled(Spread('3')), d);
  }

  /** "(((1+2-4)*4-5+(6-7)\t*8))/(2-4)" compresses to the text of a plain tree worth 8. */
  lemma TruncatedSpaced()
    ensures var x := "(" + ("(" + Tabbed('4') + ")") + (")/(2-" + ['4'] + ")");
      && NoSplitLiteral(x) && Strip(x) == PrintExpr(Quotient(Wrap(Spread('4')), '4'))
      && ExprValue(Quotient(Wrap(Spread('4')), '4')) == Ok(8)
  {
    hide Tabbed, Strip, PrintExpr, NoSplitLiteral, NoSpaceAfterDigit, Spaced;
    var inner := "(" + Tabbed('4') + ")";
    TabbedStrip('4');
    Surround("(", Tabbed('4'), ")");
    DivisorNoSpace('4');
    Surround("(", inner, ")/(2-" + ['4'] + ")");
    NoSpaceAfterDigitSplitsNone("(" + inner + (")/(2-" + ['4'] + ")"));
    SpreadText('4');
    SpreadValue('4');
    QuotientValue(Wrap(Spread('4')), '4');
    assert TruncDiv(-17, -2) == 8;
  }

  /** "(1+2-3)*4-5+(6-7)\t*8" evaluates to -13. */
  lemma EvaluateTabbed()
    ensures VerdictOf("(1+2-3)*4-5+(6-7)\t*8") == Evaluated(-13)
  {
    hide VerdictOf;
    assert Tabbed('3') == "(1+2-3)*4-5+(6-7)\t*8";
    TabbedFacts();
    SpacedVerdict(Tabbed('3'), Spread('3'));
  }

  /** "2*((1+2-3)*4-5+(6-7)\t*8)" evaluates to -26. */
  lemma EvaluateDoubled()
    ensures VerdictOf("2*((1+2-3)*4-5+(6-7)\t*8)") == Evaluated(-26)
  {
    hide VerdictOf;
    var x := "2*(" + Tabbed('3') + ")";
    assert x == "2*((1+2-3)*4-5+(6-7)\t*8)";
    DoubledSpaced();
    SpacedVerdict(x, Doubled(Spread('3')));
  }

  /** "(2*((1+2-3)*4-5+(6-7)\t*8))/(2-2)" divides by zero, so its evaluation fails. */
  lemma EvaluateByZero()
    ensures VerdictOf("(2*((1+2-3)*4-5+(6-7)\t*8))/(2-2)") == Failed(DivByZero)
  {
    hide VerdictOf;
    var x := "(" + ("2*(" + Tabbed('3') + ")") + (")/(2-" + ['2'] + ")");
    assert x == "(2*((1+2-3)*4-5+(6-7)\t*8))/(2-2)";
    QuotientSpaced('2');
    SpacedVerdict(x, Quotient(Doubled(Spread('3')), '2'));
  }

  /** "(2*((1+2-3)*4-5+(6-7)\t*8))/(2-4)" evaluates to 13. */
  lemma EvaluateQuotient()
    ensures VerdictOf("(2*((1+2-3)*4-5+(6-7)\t*8))/(2-4)") == Evaluated(13)
  {
    hide VerdictOf;
    var x := "(" + ("2*(" + Tabbed('3') + ")") + (")/(2-" + ['4'] + ")");
    assert x == "(2*((1+2-3)*4-5+(6-7)\t*8))/(2-4)";
    QuotientSpaced('4');
    assert TruncDiv(-26, -2) == 13;
    SpacedVerdict(x, Quotient(Doubled(Spread('3')), '4'));
  }

  /** "(((1+2-4)*4-5+(6-7)\t*8))/(2-4)" evaluates to 8: -17 divided by -2 is truncated. */
  lemma EvaluateTruncated()
    ensures VerdictOf("(((1+2-4)*4-5+(6-7)\t*8))/(2-4)") == Evaluated(8)
  {
    hide VerdictOf;
    var x := "(" + ("(" + Tabbed('4') + ")") + (")/(2-" + ['4'] + ")");
    assert x == "(((1+2-4)*4-5+(6-7)\t*8))/(2-4)";
    TruncatedSpaced();
    SpacedVerdict(x, Quotient(Wrap(Spread('4')), '4'));
  }
}
