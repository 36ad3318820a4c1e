/** The tests that put blanks and tabs between tokens wherever they please. Each raw text is
    assembled from short pieces whose compressed form is read off one character at a time; the
    pieces meet at a character that is neither whitespace nor a digit, so whitespace never
    splits a literal and the verdict is the one for the compressed text. */
module LooseSamples {
  import opened Outcomes
  import opened Lexical
  import opened Grammar
  import opened Validity
  import opened EndToEnd
  import opened Calculator
  import opened Spacing
  import opened Samples
  import opened SpacedSamples
  import Braces
  import Validator

  /** A character that ends a run of digits without being whitespace. */
  predicate Solid(c: char) {
    !IsSpace(c) && !IsDigit(c)
  }

  /** Joining two texts at a solid character splits no literal. */
  lemma JoinNoSplit(a: seq<char>, b: seq<char>)
    requires NoSplitLiteral(a) && NoSplitLiteral(b)
    requires (a != [] && Solid(a[|a| - 1])) || (b != [] && Solid(b[0]))
    ensures NoSplitLiteral(a + b)
  {
    var t := a + b;
    forall i, j | 0 <= i && i + 1 < j < |t| && IsDigit(t[i]) && IsDigit(t[j])
      ensures !AllSpace(t[i + 1..j])
    {
      if j < |a| {
        assert t[i + 1..j] == a[i + 1..j];
        assert a[i] == t[i] && a[j] == t[j];
      } else if |a| <= i {
        assert t[i + 1..j] == b[i - |a| + 1..j - |a|];
        assert b[i - |a|] == t[i] && b[j - |a|] == t[j];
      } else {
        var m := if a != [] && Solid(a[|a| - 1]) then |a| - 1 else |a|;
        assert t[i + 1..j][m - (i + 1)] == t[m];
      }
    }
  }

  /** Two pieces, each with its compressed form and splitting no literal, joined at a solid
      character. */
  lemma Join(a: seq<char>, b: seq<char>, ca: seq<char>, cb: seq<char>)
    requires Strip(a) == ca && Strip(b) == cb && NoSplitLiteral(a) && NoSplitLiteral(b)
    requires (a != [] && Solid(a[|a| - 1])) || (b != [] && Solid(b[0]))
    ensures Strip(a + b) == ca + cb && NoSplitLiteral(a + b)
  {
    StripConcat(a, b);
    JoinNoSplit(a, b);
  }

  /** Compression read from the front, one character at a time. */
  function StripFrom(s: seq<char>, k: nat): seq<char>
    requires k <= |s|
    decreases |s| - k
  {
    if k == |s| then [] else (if IsSpace(s[k]) then [] else [s[k]]) + StripFrom(s, k + 1)
  }

  /** Reading from the front compresses the rest of the text. */
  lemma {:induction false} StripFromIsStrip(s: seq<char>, k: nat)
    requires k <= |s|
    ensures StripFrom(s, k) == Strip(s[k..])
    decreases |s| - k
  {
    hide Strip;
    if k < |s| {
      StripFromIsStrip(s, k + 1);
      assert s[k..] == [s[k]] + s[k + 1..];
      StripConcat([s[k]], s[k + 1..]);
      StripOne(s[k]);
    }
  }

  lemma StripOne(c: char)
    ensures Strip([c]) == if IsSpace(c) then [] else [c]
  {
    assert [c][..0] == [];
  }

  /** A short raw piece and its compressed form. */
  lemma Piece(s: seq<char>, c: seq<char>)
    requires StripFrom(s, 0) == c
    ensures Strip(s) == c
  {
    StripFromIsStrip(s, 0);
    assert s[0..] == s;
  }

  /** A piece without whitespace is kept by compression and splits no literal. */
  lemma Chunk(s: seq<char>)
    requires NoSpace(s)
    ensures Strip(s) == s && NoSplitLiteral(s)
  {
    StripNoSpace(s);
    NoSpaceAfterDigitSplitsNone(s);
  }

  // ------------------------------------------------------------------------- building trees

  /** A literal. */
  function Lit(ds: seq<char>): (u: Unit)
    requires ds != [] && AllDigits(ds)
    ensures UnitOk(u) && UnitPlain(u) && Unsigned(u)
    ensures PrintUnit(u) == ds && UnitValue(u) == Ok(DecimalValue(ds))
  {
    Literal(ds)
  }

  /** A parenthesised expression. */
  function Paren(e: Expr): (u: Unit)
    requires ExprOk(e) && ExprPlain(e)
    ensures UnitOk(u) && UnitPlain(u) && Unsigned(u)
    ensures PrintUnit(u) == ['('] + PrintExpr(e) + [')'] && UnitValue(u) == ExprValue(e)
  {
    Group(e)
  }

  /** The term "u*v". */
  function Mul(u: Unit, v: Unit): (t: Term)
    requires UnitOk(u) && UnitPlain(u) && UnitOk(v) && UnitPlain(v) && Unsigned(v)
    ensures TermOk(t) && TermPlain(t) && t.head == u
    ensures PrintTerm(t) == PrintUnit(u) + ['*'] + PrintUnit(v)
    ensures UnitValue(u).Ok? && UnitValue(v).Ok? ==>
      TermValue(t) == Ok(UnitValue(u).value * UnitValue(v).value)
  {
    var f := Times(v, NoFactor);
    assert FactorsOk(f) && FactorsPlain(f);
    assert PrintFactors(f) == ['*'] + PrintUnit(v) + [];
    assert UnitValue(u).Ok? && UnitValue(v).Ok? ==>
      FactorsValue(UnitValue(u).value, f) == FactorsValue(UnitValue(u).value * UnitValue(v).value, NoFactor);
    Term(u, f)
  }

  /** The term that is a unit alone. */
  function Single(u: Unit): (t: Term)
    requires UnitOk(u) && UnitPlain(u)
    ensures TermOk(t) && TermPlain(t) && t.head == u
    ensures PrintTerm(t) == PrintUnit(u) && TermValue(t) == UnitValue(u)
  {
    var t := Term(u, NoFactor);
    assert PrintTerm(t) == PrintUnit(u) + [];
    assert UnitValue(u).Ok? ==> FactorsValue(UnitValue(u).value, NoFactor) == UnitValue(u);
    t
  }

  /** The expression that is a term alone. */
  function Alone(t: Term): (e: Expr)
    requires TermOk(t) && TermPlain(t)
    ensures ExprOk(e) && ExprPlain(e)
    ensures PrintExpr(e) == PrintTerm(t) && ExprValue(e) == TermValue(t)
  {
    var e := Expr(t, NoSum);
    assert PrintExpr(e) == PrintTerm(t) + [];
    assert TermValue(t).Ok? ==> SumsValue(TermValue(t).value, NoSum) == TermValue(t);
    e
  }

  /** The expression "a+b", or "a-b" when `minus`. */
  function Add(a: Term, minus: bool, b: Term): (e: Expr)
    requires TermOk(a) && TermPlain(a) && TermOk(b) && TermPlain(b) && Unsigned(b.head)
    ensures ExprOk(e) && ExprPlain(e)
    ensures PrintExpr(e) == PrintTerm(a) + [if minus then '-' else '+'] + PrintTerm(b)
    ensures TermValue(a).Ok? && TermValue(b).Ok? ==>
      ExprValue(e) == Ok(if minus then TermValue(a).value - TermValue(b).value
                         else TermValue(a).value + TermValue(b).value)
  {
    var s := if minus then Minus(b, NoSum) else Plus(b, NoSum);
    assert SumsOk(s) && SumsPlain(s);
    assert PrintSums(s) == [if minus then '-' else '+'] + PrintTerm(b) + [];
    assert TermValue(a).Ok? && TermValue(b).Ok? ==>
      (var x, y := TermValue(a).value, TermValue(b).value;
       SumsValue(x, s) == Ok(if minus then x - y else x + y));
    Expr(a, s)
  }

  lemma SmallValues()
    ensures DecimalValue("1") == 1 && DecimalValue("2") == 2 && DecimalValue("3") == 3
    ensures DecimalValue("4") == 4 && DecimalValue("5") == 5 && DecimalValue("6") == 6
    ensures DecimalValue("7") == 7 && DecimalValue("8") == 8 && DecimalValue("9") == 9
    ensures DecimalValue("10") == 10 && DecimalValue("45") == 45
  {
    assert "10"[..1] == "1" && "45"[..1] == "4";
  }

  // ------------------------------------------------------------------ " 5   ", " 1 " and "- 2"

  /** The digit `d` alone, or with a minus sign. */
  function Lone(d: char, negative: bool): Expr
    requires IsDigit(d)
  {
    Alone(Single(if negative then Neg(Lit([d])) else Lit([d])))
  }

  lemma LoneFacts(d: char, negative: bool)
    requires IsDigit(d)
    ensures ExprOk(Lone(d, negative)) && ExprPlain(Lone(d, negative))
    ensures PrintExpr(Lone(d, negative)) == if negative then ['-', d] else [d]
    ensures ExprValue(Lone(d, negative)) == Ok(if negative then -(DigitValue(d) as int) else DigitValue(d))
  {
    hide Alone, Single, Lit;
    assert DecimalValue([d]) == DigitValue(d) by {
      assert [d][..0] == [];
    }
    var u := if negative then Neg(Lit([d])) else Lit([d]);
    assert UnitOk(u) && UnitPlain(u);
    assert PrintUnit(u) == if negative then ['-', d] else [d];
    assert UnitValue(u) == Ok(if negative then -(DigitValue(d) as int) else DigitValue(d));
  }

  lemma LonePieces()
    ensures NoSplitLiteral(" 5   ") && NoSplitLiteral(" 1 ") && NoSplitLiteral("- 2")
    ensures Strip(" 5   ") == "5" && Strip(" 1 ") == "1" && Strip("- 2") == "-2"
  {
    Piece(" 5   ", "5");
    Piece(" 1 ", "1");
    Piece("- 2", "-2");
  }

  /** " 5   " evaluates to 5. */
  lemma EvaluateLone()
    ensures VerdictOf(" 5   ") == Evaluated(5)
  {
    LonePieces();
    hide VerdictOf, Strip, NoSplitLiteral, Lone;
    LoneFacts('5', false);
    SpacedVerdict(" 5   ", Lone('5', false));
  }

  /** " 1 " is valid and evaluates to 1. */
  lemma AcceptedLone()
    ensures Validator.WellFormed(Strip(" 1 ")) && VerdictOf(" 1 ") == Evaluated(1)
  {
    LonePieces();
    hide VerdictOf, Validator.WellFormed, Strip, NoSplitLiteral, Lone;
    LoneFacts('1', false);
    SpacedVerdict(" 1 ", Lone('1', false));
    PlainWellFormed(Lone('1', false));
  }

  /** "- 2" is valid and evaluates to -2. */
  lemma AcceptedSign()
    ensures Validator.WellFormed(Strip("- 2")) && VerdictOf("- 2") == Evaluated(-2)
  {
    LonePieces();
    hide VerdictOf, Validator.WellFormed, Strip, NoSplitLiteral, Lone;
    LoneFacts('2', true);
    SpacedVerdict("- 2", Lone('2', true));
    PlainWellFormed(Lone('2', true));
  }

  // ------------------------------------------------------------------------ "(3 - 1) * 2 + 3"

  /** "(3-1)*2+3". */
  function Grouped(): Expr {
    Add(Mul(Paren(Add(Single(Lit("3")), true, Single(Lit("1")))), Lit("2")), false, Single(Lit("3")))
  }

  lemma GroupedText()
    ensures ExprOk(Grouped()) && ExprPlain(Grouped()) && PrintExpr(Grouped()) == "(3-1)*2+3"
  {
    hide Lit, Paren, Mul, Single, Add;
    var d := Add(Single(Lit("3")), true, Single(Lit("1")));
    var t := Mul(Paren(d), Lit("2"));
    assert PrintExpr(Grouped()) == ['('] + ("3" + ['-'] + "1") + [')'] + ['*'] + "2" + ['+'] + "3";
    GroupedChars();
  }

  lemma GroupedChars()
    ensures ['('] + ("3" + ['-'] + "1") + [')'] + ['*'] + "2" + ['+'] + "3" == "(3-1)*2+3"
  {
  }

  lemma GroupedValue()
    ensures ExprOk(Grouped()) && ExprValue(Grouped()) == Ok(7)
  {
    hide Lit, Paren, Mul, Single, Add;
    SmallValues();
    var d := Add(Single(Lit("3")), true, Single(Lit("1")));
    assert ExprValue(d) == Ok(2);
    var t := Mul(Paren(d), Lit("2"));
    assert TermValue(t) == Ok(4);
  }

  /** The pieces of the raw text and their compressed forms. */
  lemma GroupedPieces()
    ensures NoSplitLiteral("(3 -") && NoSplitLiteral(" 1) *") && NoSplitLiteral(" 2 +") && NoSplitLiteral(" 3")
    ensures Strip("(3 -") == "(3-" && Strip(" 1) *") == "1)*" && Strip(" 2 +") == "2+" && Strip(" 3") == "3"
  {
    Piece("(3 -", "(3-");
    Piece(" 1) *", "1)*");
    Piece(" 2 +", "2+");
    Piece(" 3", "3");
  }

  lemma GroupedSpaced()
    ensures var x := "(3 -" + " 1) *" + " 2 +" + " 3";
      NoSplitLiteral(x) && Strip(x) == "(3-1)*2+3"
  {
    hide Strip, NoSplitLiteral;
    GroupedPieces();
    Join("(3 -", " 1) *", "(3-", "1)*");
    Join("(3 -" + " 1) *", " 2 +", "(3-1)*", "2+");
    Join("(3 -" + " 1) *" + " 2 +", " 3", "(3-1)*2+", "3");
  }

  /** "(3 - 1) * 2 + 3" evaluates to 7. */
  lemma EvaluateGrouped()
    ensures VerdictOf("(3 - 1) * 2 + 3") == Evaluated(7)
  {
    var x := "(3 -" + " 1) *" + " 2 +" + " 3";
    assert x == "(3 - 1) * 2 + 3";
    hide VerdictOf, Strip, NoSplitLiteral, Grouped;
    GroupedSpaced();
    GroupedText();
    GroupedValue();
    SpacedVerdict(x, Grouped());
  }

  // -------------------------------------------------------------------------------- " 1 *(2)"

  /** "1*(2)". */
  function TimesGroup(): Expr {
    Alone(Mul(Lit("1"), Paren(Alone(Single(Lit("2"))))))
  }

  lemma TimesGroupFacts()
    ensures ExprOk(TimesGroup()) && ExprPlain(TimesGroup())
    ensures PrintExpr(TimesGroup()) == "1*(2)" && ExprValue(TimesGroup()) == Ok(2)
  {
    hide Lit, Paren, Mul, Single, Alone;
    SmallValues();
    assert PrintExpr(TimesGroup()) == "1" + ['*'] + (['('] + "2" + [')']);
    TimesGroupChars();
  }

  lemma TimesGroupChars()
    ensures "1" + ['*'] + (['('] + "2" + [')']) == "1*(2)"
  {
  }

  /** " 1 *(2)" is valid and evaluates to 2. */
  lemma EvaluateTimesGroup()
    ensures Validator.WellFormed(Strip(" 1 *(2)"))
    ensures VerdictOf(" 1 *(2)") == Evaluated(2)
  {
    assert NoSplitLiteral(" 1 *") && NoSpace("(2)");
    Piece(" 1 *", "1*");
    Chunk("(2)");
    assert " 1 *" + "(2)" == " 1 *(2)" && "1*" + "(2)" == "1*(2)";
    hide VerdictOf, Validator.WellFormed, Strip, NoSplitLiteral, TimesGroup;
    TimesGroupFacts();
    Join(" 1 *", "(2)", "1*", "(2)");
    SpacedVerdict(" 1 *(2)", TimesGroup());
    PlainWellFormed(TimesGroup());
  }

  // ------------------------------------------------------------------- " d *\t(-2*9)+6*(8+2)"

  /** The raw text before the tab: " d *\t". */
  function MixedHead(d: char): seq<char> {
    [' ', d, ' ', '*', '\t']
  }

  lemma MixedHeadStrip(d: char)
    requires IsDigit(d)
    ensures Strip(MixedHead(d)) == [d, '*'] && NoSplitLiteral(MixedHead(d))
  {
    var h := MixedHead(d);
    assert StripFrom(h, 3) == ['*'] by {
      assert StripFrom(h, 4) == [];
    }
    assert StripFrom(h, 1) == [d, '*'] by {
      assert StripFrom(h, 2) == ['*'];
    }
    assert StripFrom(h, 0) == [d, '*'];
    Piece(h, [d, '*']);
  }

  /** "(2*9)", or "(-2*9)" with the sign. */
  function ProductText(negative: bool): seq<char> {
    if negative then "(-2*9)" else "(2*9)"
  }

  /** The raw text after the tab, which has no whitespace. */
  function MixedTail(negative: bool): seq<char> {
    ProductText(negative) + "+6*(8+2)"
  }

  function Product(negative: bool): Unit {
    Paren(Alone(Mul(if negative then Neg(Lit("2")) else Lit("2"), Lit("9"))))
  }

  lemma ProductFacts(negative: bool)
    ensures UnitOk(Product(negative)) && UnitPlain(Product(negative)) && Unsigned(Product(negative))
    ensures PrintUnit(Product(negative)) == ProductText(negative)
    ensures UnitValue(Product(negative)) == Ok(if negative then -18 else 18)
  {
    hide Lit, Paren, Mul, Alone;
    SmallValues();
    var two := if negative then Neg(Lit("2")) else Lit("2");
    assert UnitOk(two) && UnitPlain(two) && UnitValue(two) == Ok(if negative then -2 else 2);
    assert PrintUnit(two) == if negative then ['-'] + "2" else "2";
    assert PrintUnit(Product(negative)) == ['('] + (PrintUnit(two) + ['*'] + "9") + [')'];
    assert ['('] + (['-'] + "2" + ['*'] + "9") + [')'] == "(-2*9)";
    assert ['('] + ("2" + ['*'] + "9") + [')'] == "(2*9)";
  }

  /** "6*(8+2)". */
  function Sixfold(): Term {
    Mul(Lit("6"), Paren(Add(Single(Lit("8")), false, Single(Lit("2")))))
  }

  lemma SixfoldFacts()
    ensures TermOk(Sixfold()) && TermPlain(Sixfold()) && Unsigned(Sixfold().head)
    ensures PrintTerm(Sixfold()) == "6*(8+2)" && TermValue(Sixfold()) == Ok(60)
  {
    hide Lit, Paren, Mul, Single, Add;
    SmallValues();
    assert TermValue(Single(Lit("8"))) == Ok(8) && TermValue(Single(Lit("2"))) == Ok(2);
    assert PrintTerm(Sixfold()) == "6" + ['*'] + (['('] + ("8" + ['+'] + "2") + [')']);
    SixfoldChars();
  }

  lemma SixfoldChars()
    ensures "6" + ['*'] + (['('] + ("8" + ['+'] + "2") + [')']) == "6*(8+2)"
  {
  }

  /** "d*(2*9)+6*(8+2)", or "d*(-2*9)+6*(8+2)" with the sign. */
  function Mixed(d: char, negative: bool): Expr
    requires IsDigit(d)
  {
    DigitUnit(d);
    ProductFacts(negative);
    SixfoldFacts();
    Add(Mul(Lit([d]), Product(negative)), false, Sixfold())
  }

  /** A one-digit literal. */
  lemma DigitUnit(d: char)
    requires IsDigit(d)
    ensures AllDigits([d]) && DecimalValue([d]) == DigitValue(d)
  {
    assert [d][..0] == [];
  }

  lemma MixedFacts(d: char, negative: bool)
    requires IsDigit(d)
    ensures ExprOk(Mixed(d, negative)) && ExprPlain(Mixed(d, negative))
    ensures PrintExpr(Mixed(d, negative)) == [d, '*'] + MixedTail(negative)
  {
    hide Lit, Mul, Add, Product, Sixfold, ProductText;
    DigitUnit(d);
    ProductFacts(negative);
    SixfoldFacts();
    MixedChars(d, ProductText(negative));
    assert PrintExpr(Mixed(d, negative)) == [d] + ['*'] + ProductText(negative) + ['+'] + "6*(8+2)";
  }

  lemma MixedChars(d: char, product: seq<char>)
    ensures [d] + ['*'] + product + ['+'] + "6*(8+2)" == [d, '*'] + (product + "+6*(8+2)")
  {
  }

  lemma MixedValue(d: char, negative: bool)
    requires IsDigit(d)
    ensures ExprValue(Mixed(d, negative)) == Ok(DigitValue(d) * (if negative then -18 else 18) + 60)
  {
    hide Lit, Mul, Add, Product, Sixfold, ProductText, PrintExpr, PrintTerm, PrintUnit;
    DigitUnit(d);
    ProductFacts(negative);
    SixfoldFacts();
  }

  /** The raw text compresses to the text of the tree and splits no literal. */
  lemma MixedSpaced(d: char, negative: bool)
    requires IsDigit(d)
    ensures NoSplitLiteral(MixedHead(d) + MixedTail(negative))
    ensures Strip(MixedHead(d) + MixedTail(negative)) == [d, '*'] + MixedTail(negative)
  {
    var tail := MixedTail(negative);
    assert NoSpace(tail) && tail[0] == '(';
    hide Strip, NoSplitLiteral, MixedTail;
    MixedHeadStrip(d);
    Chunk(tail);
    Join(MixedHead(d), tail, [d, '*'], tail);
  }

  /** " 3 *\t(-2*9)+6*(8+2)" evaluates to 6. */
  lemma EvaluateMixed()
    ensures VerdictOf(" 3 *\t(-2*9)+6*(8+2)") == Evaluated(6)
  {
    assert MixedHead('3') + MixedTail(true) == " 3 *\t(-2*9)+6*(8+2)";
    hide VerdictOf, Strip, Mixed, MixedTail, MixedHead, NoSplitLiteral;
    MixedSpaced('3', true);
    MixedFacts('3', true);
    MixedValue('3', true);
    SpacedVerdict(MixedHead('3') + MixedTail(true), Mixed('3', true));
  }

  /** With 1 in place of 3, with or without the sign, the text is valid. */
  lemma AcceptedMixed()
    ensures Validator.WellFormed(Strip(" 1 *\t(2*9)+6*(8+2)"))
    ensures Validator.WellFormed(Strip(" 1 *\t(-2*9)+6*(8+2)"))
  {
    assert MixedHead('1') + MixedTail(false) == " 1 *\t(2*9)+6*(8+2)";
    assert MixedHead('1') + MixedTail(true) == " 1 *\t(-2*9)+6*(8+2)";
    hide Strip, Validator.WellFormed, Mixed, MixedTail, MixedHead, NoSplitLiteral;
    MixedSpaced('1', false);
    MixedFacts('1', false);
    PlainWellFormed(Mixed('1', false));
    MixedSpaced('1', true);
    MixedFacts('1', true);
    PlainWellFormed(Mixed('1', true));
  }

  // ------------------------------------------------------------ "(2-(1*2)*3)" after a brace

  /** "(2-(1*2)*3)". */
  function Offset(): Unit {
    Paren(Add(Single(Lit("2")), true, Mul(Paren(Alone(Mul(Lit("1"), Lit("2")))), Lit("3"))))
  }

  lemma OffsetFacts()
    ensures UnitOk(Offset()) && UnitPlain(Offset()) && Unsigned(Offset())
    ensures PrintUnit(Offset()) == "(2-(1*2)*3)" && UnitValue(Offset()) == Ok(-4)
  {
    hide Lit, Paren, Mul, Single, Alone, Add;
    SmallValues();
    assert UnitValue(Lit("1")) == Ok(1) && UnitValue(Lit("2")) == Ok(2) && UnitValue(Lit("3")) == Ok(3);
    var p := Mul(Lit("1"), Lit("2"));
    assert TermValue(p) == Ok(2);
    var q := Paren(Alone(p));
    assert UnitValue(q) == Ok(2);
    var r := Mul(q, Lit("3"));
    assert TermValue(r) == Ok(6);
    var e := Add(Single(Lit("2")), true, r);
    assert ExprValue(e) == Ok(-4);
    assert PrintUnit(Offset()) == ['('] + ("2" + ['-'] + ((['('] + ("1" + ['*'] + "2") + [')']) + ['*'] + "3")) + [')'];
    OffsetChars();
  }

  lemma OffsetChars()
    ensures ['('] + ("2" + ['-'] + ((['('] + ("1" + ['*'] + "2") + [')']) + ['*'] + "3")) + [')'] == "(2-(1*2)*3)"
  {
  }

  /** "(h+(2-(1*2)*3))" for a first term h. */
  function Opened(h: Term): (e: Expr)
    requires TermOk(h) && TermPlain(h)
    ensures ExprOk(e) && ExprPlain(e)
    ensures PrintExpr(e) == ['('] + (PrintTerm(h) + ['+'] + "(2-(1*2)*3)") + [')']
    ensures TermValue(h).Ok? ==> ExprValue(e) == Ok(TermValue(h).value - 4)
  {
    hide Offset;
    OffsetFacts();
    Wrap(Add(h, false, Single(Offset())))
  }

  /** "(4+(2-(1*2)*3))" is valid and evaluates to 0. */
  lemma EvaluateOpened()
    ensures Validator.WellFormed(Strip("(4+(2-(1*2)*3))"))
    ensures VerdictOf("(4+(2-(1*2)*3))") == Evaluated(0)
  {
    hide VerdictOf, Validator.WellFormed, Strip, Opened, Single, Lit;
    SmallValues();
    var e := Opened(Single(Lit("4")));
    assert PrintExpr(e) == ['('] + ("4" + ['+'] + "(2-(1*2)*3)") + [')'];
    OpenedChars();
    PlainWellFormed(e);
    PlainVerdict(e);
  }

  lemma OpenedChars()
    ensures ['('] + ("4" + ['+'] + "(2-(1*2)*3)") + [')'] == "(4+(2-(1*2)*3))"
    ensures ['('] + ("(1)" + ['+'] + "(2-(1*2)*3)") + [')'] == "((1)+(2-(1*2)*3))"
    ensures ['('] + (['+'] + "(2-(1*2)*3)") + [')'] == "(+(2-(1*2)*3))"
  {
  }

  /** "(+(2-(1*2)*3))". */
  function Raised(): Expr {
    OffsetFacts();
    Wrap(Alone(Single(Pos(Offset()))))
  }

  lemma RaisedFacts()
    ensures ExprOk(Raised()) && ExprPlain(Raised())
    ensures PrintExpr(Raised()) == "(+(2-(1*2)*3))" && ExprValue(Raised()) == Ok(-4)
  {
    hide Offset, Wrap, Alone, Single;
    OffsetFacts();
    var u := Pos(Offset());
    assert UnitOk(u) && UnitPlain(u);
    assert PrintUnit(u) == ['+'] + "(2-(1*2)*3)" && UnitValue(u) == Ok(-4);
    OpenedChars();
  }

  lemma RaisedChars()
    ensures NoSplitLiteral("( +") && NoSpace("(2-(1*2)*3))")
    ensures "( +" + "(2-(1*2)*3))" == "( +(2-(1*2)*3))"
    ensures "(+" + "(2-(1*2)*3))" == "(+(2-(1*2)*3))"
  {
  }

  /** "( +(2-(1*2)*3))" is valid and evaluates to -4. */
  lemma EvaluateRaised()
    ensures Validator.WellFormed(Strip("( +(2-(1*2)*3))"))
    ensures VerdictOf("( +(2-(1*2)*3))") == Evaluated(-4)
  {
    var tail := "(2-(1*2)*3))";
    RaisedChars();
    Piece("( +", "(+");
    Chunk(tail);
    hide VerdictOf, Validator.WellFormed, Strip, NoSplitLiteral, Raised;
    Join("( +", tail, "(+", tail);
    RaisedFacts();
    SpacedVerdict("( +" + tail, Raised());
    PlainWellFormed(Raised());
  }

  /** "(1)". */
  function One(): Term {
    Single(Paren(Alone(Single(Lit("1")))))
  }

  lemma OneFacts()
    ensures TermOk(One()) && TermPlain(One()) && PrintTerm(One()) == "(1)" && TermValue(One()) == Ok(1)
  {
    hide Lit, Paren, Alone, Single;
    SmallValues();
    assert UnitValue(Lit("1")) == Ok(1);
    assert PrintTerm(One()) == ['('] + "1" + [')'];
    assert ['('] + "1" + [')'] == "(1)";
  }

  lemma OneOpenedChars()
    ensures NoSplitLiteral("( ") && NoSpace("(1)+(2-(1*2)*3))")
    ensures "( " + "(1)+(2-(1*2)*3))" == "( (1)+(2-(1*2)*3))"
    ensures "(" + "(1)+(2-(1*2)*3))" == "((1)+(2-(1*2)*3))"
  {
  }

  /** "( (1)+(2-(1*2)*3))" is valid and evaluates to -3. */
  lemma EvaluateOneOpened()
    ensures Validator.WellFormed(Strip("( (1)+(2-(1*2)*3))"))
    ensures VerdictOf("( (1)+(2-(1*2)*3))") == Evaluated(-3)
  {
    var tail := "(1)+(2-(1*2)*3))";
    OneOpenedChars();
    Piece("( ", "(");
    Chunk(tail);
    hide VerdictOf, Validator.WellFormed, Strip, NoSplitLiteral, Opened, One;
    Join("( ", tail, "(", tail);
    OneFacts();
    OpenedChars();
    var e := Opened(One());
    SpacedVerdict("( " + tail, e);
    PlainWellFormed(e);
  }

  // ------------------------------------------------------- "( 4 +1)-2   +45 * 2     -1 +2+3"

  /** The term `t` added (or, when `minus`, subtracted) before the remaining terms. */
  function More(minus: bool, t: Term, rest: Sums): (s: Sums)
    requires TermOk(t) && TermPlain(t) && Unsigned(t.head) && SumsOk(rest) && SumsPlain(rest)
    ensures SumsOk(s) && SumsPlain(s)
    ensures PrintSums(s) == [if minus then '-' else '+'] + PrintTerm(t) + PrintSums(rest)
    ensures TermValue(t).Ok? ==> forall acc ::
      SumsValue(acc, s) == SumsValue(if minus then acc - TermValue(t).value else acc + TermValue(t).value, rest)
  {
    if minus then Minus(t, rest) else Plus(t, rest)
  }

  /** "(4+1)-2+45*2-1+2+3". */
  function Long(): Expr {
    var g := Paren(Add(Single(Lit("4")), false, Single(Lit("1"))));
    var tail := More(false, Single(Lit("2")), More(false, Single(Lit("3")), NoSum));
    Expr(Single(g), More(true, Single(Lit("2")), LongTail()))
  }

  /** "+45*2-1+2+3", the sums after "(4+1)-2". */
  function LongTail(): Sums {
    var tail := More(false, Single(Lit("2")), More(false, Single(Lit("3")), NoSum));
    More(false, Mul(Lit("45"), Lit("2")), More(true, Single(Lit("1")), tail))
  }

  lemma LongTailValue()
    ensures SumsOk(LongTail()) && SumsPlain(LongTail()) && SumsValue(3, LongTail()) == Ok(97)
  {
    hide Lit, Mul, Single, More;
    SmallValues();
    var t3 := More(false, Single(Lit("3")), NoSum);
    assert SumsValue(94, t3) == Ok(97);
    var t2 := More(false, Single(Lit("2")), t3);
    assert SumsValue(92, t2) == Ok(97);
    var t1 := More(true, Single(Lit("1")), t2);
    assert SumsValue(93, t1) == Ok(97);
    var t45 := Mul(Lit("45"), Lit("2"));
    assert TermValue(t45) == Ok(90);
  }

  lemma LongText()
    ensures ExprOk(Long()) && ExprPlain(Long()) && PrintExpr(Long()) == "(4+1)-2+45*2-1+2+3"
  {
    hide Lit, Paren, Mul, Single, Add, More;
    assert PrintExpr(Long()) == (['('] + ("4" + ['+'] + "1") + [')']) + (['-'] + "2" +
      (['+'] + ("45" + ['*'] + "2") + (['-'] + "1" + (['+'] + "2" + (['+'] + "3" + [])))));
    LongChars();
  }

  lemma LongChars()
    ensures (['('] + ("4" + ['+'] + "1") + [')']) + (['-'] + "2" +
      (['+'] + ("45" + ['*'] + "2") + (['-'] + "1" + (['+'] + "2" + (['+'] + "3" + []))))) ==
      "(4+1)-2+45*2-1+2+3"
  {
  }

  lemma LongValue()
    ensures ExprOk(Long()) && ExprValue(Long()) == Ok(97)
  {
    hide Lit, Paren, Mul, Single, Add, More;
    SmallValues();
    LongTailValue();
    hide LongTail;
    var g := Paren(Add(Single(Lit("4")), false, Single(Lit("1"))));
    assert UnitValue(g) == Ok(5);
    assert TermValue(Single(Lit("2"))) == Ok(2);
    assert SumsValue(5, More(true, Single(Lit("2")), LongTail())) == Ok(97);
  }

  /** The pieces of the raw text and their compressed forms. */
  lemma LongPiecesLeft()
    ensures NoSplitLiteral("( 4 +") && NoSplitLiteral("2   +")
    ensures Strip("( 4 +") == "(4+" && Strip("2   +") == "2+"
  {
    Piece("( 4 +", "(4+");
    Piece("2   +", "2+");
  }

  lemma LongPiecesMiddle()
    ensures NoSplitLiteral("45 *") && NoSplitLiteral(" 2     -")
    ensures Strip("45 *") == "45*" && Strip(" 2     -") == "2-"
  {
    Piece("45 *", "45*");
    Piece(" 2     -", "2-");
  }

  lemma LongPiecesRight()
    ensures NoSplitLiteral("1)-") && NoSplitLiteral("2+3")
    ensures Strip("1)-") == "1)-" && Strip("2+3") == "2+3"
  {
    Chunk("1)-");
    Chunk("2+3");
  }

  lemma LongPieceOne()
    ensures NoSplitLiteral("1 +") && Strip("1 +") == "1+"
  {
    Piece("1 +", "1+");
  }

  lemma LongSpaced()
    ensures var x := "( 4 +" + "1)-" + "2   +" + "45 *" + " 2     -" + "1 +" + "2+3";
      NoSplitLiteral(x) && Strip(x) == "(4+" + "1)-" + "2+" + "45*" + "2-" + "1+" + "2+3"
  {
    hide Strip, NoSplitLiteral;
    LongPiecesLeft();
    LongPiecesMiddle();
    LongPiecesRight();
    LongPieceOne();
    var a := "( 4 +" + "1)-";
    Join("( 4 +", "1)-", "(4+", "1)-");
    Join(a, "2   +", "(4+" + "1)-", "2+");
    Join(a + "2   +", "45 *", "(4+" + "1)-" + "2+", "45*");
    var b := a + "2   +" + "45 *";
    Join(b, " 2     -", "(4+" + "1)-" + "2+" + "45*", "2-");
    Join(b + " 2     -", "1 +", "(4+" + "1)-" + "2+" + "45*" + "2-", "1+");
    Join(b + " 2     -" + "1 +", "2+3", "(4+" + "1)-" + "2+" + "45*" + "2-" + "1+", "2+3");
  }

  lemma LongChars2()
    ensures "( 4 +" + "1)-" + "2   +" + "45 *" + " 2     -" + "1 +" + "2+3" ==
      "( 4 +1)-2   +45 * 2     -1 +2+3"
    ensures "(4+" + "1)-" + "2+" + "45*" + "2-" + "1+" + "2+3" == "(4+1)-2+45*2-1+2+3"
  {
  }

  /** "( 4 +1)-2   +45 * 2     -1 +2+3" is valid and evaluates to 97. */
  lemma EvaluateLong()
    ensures Validator.WellFormed(Strip("( 4 +1)-2   +45 * 2     -1 +2+3"))
    ensures VerdictOf("( 4 +1)-2   +45 * 2     -1 +2+3") == Evaluated(97)
  {
    hide VerdictOf, Validator.WellFormed, Strip, NoSplitLiteral, Long;
    LongChars2();
    LongSpaced();
    LongText();
    LongValue();
    SpacedVerdict("( 4 +1)-2   +45 * 2     -1 +2+3", Long());
    PlainWellFormed(Long());
  }

  // ------------------------------------ "(\t2 * ( 3 * ( 4 * ( 5 + 6 ) + 7 ) + 8 ) - 10 ) * 2"

  /** "d*(inner)+k", or "d*(inner)-k" when `minus`. */
  function Layer(d: seq<char>, inner: Expr, minus: bool, k: seq<char>): (e: Expr)
    requires d != [] && AllDigits(d) && k != [] && AllDigits(k) && ExprOk(inner) && ExprPlain(inner)
    ensures ExprOk(e) && ExprPlain(e)
    ensures PrintExpr(e) == d + ['*'] + (['('] + PrintExpr(inner) + [')']) + [if minus then '-' else '+'] + k
    ensures ExprValue(inner).Ok? ==>
      (var v := DecimalValue(d) * ExprValue(inner).value;
       ExprValue(e) == Ok(if minus then v - DecimalValue(k) else v + DecimalValue(k)))
  {
    Add(Mul(Lit(d), Paren(inner)), minus, Single(Lit(k)))
  }

  /** "(2*(3*(4*(5+6)+7)+8)-10)*2". */
  function Nested(): Expr {
    Alone(Mul(Paren(Layer("2", NestedInner(), true, "10")), Lit("2")))
  }

  /** "3*(4*(5+6)+7)+8", the expression inside the outer braces. */
  function NestedInner(): Expr {
    Layer("3", Layer("4", Add(Single(Lit("5")), false, Single(Lit("6"))), false, "7"), false, "8")
  }

  lemma NestedInnerFacts()
    ensures ExprOk(NestedInner()) && ExprPlain(NestedInner())
    ensures PrintExpr(NestedInner()) == "3*(4*(5+6)+7)+8" && ExprValue(NestedInner()) == Ok(161)
  {
    hide Lit, Single, Add, Layer;
    SmallValues();
    NestedChars();
    var e5 := Add(Single(Lit("5")), false, Single(Lit("6")));
    assert PrintExpr(e5) == "5+6" && ExprValue(e5) == Ok(11);
    var e4 := Layer("4", e5, false, "7");
    assert PrintExpr(e4) == "4*(5+6)+7" && ExprValue(e4) == Ok(51);
  }

  lemma NestedFacts()
    ensures ExprOk(Nested()) && ExprPlain(Nested())
    ensures PrintExpr(Nested()) == "(2*(3*(4*(5+6)+7)+8)-10)*2" && ExprValue(Nested()) == Ok(624)
  {
    NestedInnerFacts();
    hide Lit, Paren, Mul, Alone, Layer, NestedInner;
    SmallValues();
    NestedOuterChars();
    NestedTopChars();
    var e2 := Layer("2", NestedInner(), true, "10");
    assert PrintExpr(e2) == "2*(3*(4*(5+6)+7)+8)-10" && ExprValue(e2) == Ok(312);
  }

  lemma NestedChars()
    ensures "5" + ['+'] + "6" == "5+6"
    ensures "4" + ['*'] + (['('] + "5+6" + [')']) + ['+'] + "7" == "4*(5+6)+7"
    ensures "3" + ['*'] + (['('] + "4*(5+6)+7" + [')']) + ['+'] + "8" == "3*(4*(5+6)+7)+8"
  {
  }

  lemma NestedOuterChars()
    ensures "2" + ['*'] + (['('] + "3*(4*(5+6)+7)+8" + [')']) + ['-'] + "10" == "2*(3*(4*(5+6)+7)+8)-10"
  {
  }

  lemma NestedTopChars()
    ensures ['('] + "2*(3*(4*(5+6)+7)+8)-10" + [')'] + ['*'] + "2" == "(2*(3*(4*(5+6)+7)+8)-10)*2"
  {
  }

  /** The pieces of the raw text and their compressed forms. */
  lemma NestedPiecesLeft()
    ensures NoSplitLiteral("(\t2 *") && NoSplitLiteral(" ( 3 *")
    ensures Strip("(\t2 *") == "(2*" && Strip(" ( 3 *") == "(3*"
  {
    Piece("(\t2 *", "(2*");
    Piece(" ( 3 *", "(3*");
  }

  lemma NestedPiecesInner()
    ensures NoSplitLiteral(" ( 4 *") && NoSplitLiteral(" ( 5 +")
    ensures Strip(" ( 4 *") == "(4*" && Strip(" ( 5 +") == "(5+"
  {
    Piece(" ( 4 *", "(4*");
    Piece(" ( 5 +", "(5+");
  }

  lemma NestedPiecesMiddle()
    ensures NoSplitLiteral(" 6 )") && NoSplitLiteral(" + 7 )")
    ensures Strip(" 6 )") == "6)" && Strip(" + 7 )") == "+7)"
  {
    Piece(" 6 )", "6)");
    Piece(" + 7 )", "+7)");
  }

  lemma NestedPiecesRight()
    ensures NoSplitLiteral(" + 8 )") && NoSplitLiteral(" * 2")
    ensures Strip(" + 8 )") == "+8)" && Strip(" * 2") == "*2"
  {
    Piece(" + 8 )", "+8)");
    Piece(" * 2", "*2");
  }

  lemma NestedPieceTen()
    ensures NoSplitLiteral(" - 10 )") && Strip(" - 10 )") == "-10)"
  {
    Piece(" - 10 )", "-10)");
  }

  lemma NestedSpacedLeft()
    ensures var x := "(\t2 *" + " ( 3 *" + " ( 4 *" + " ( 5 +";
      NoSplitLiteral(x) && Strip(x) == "(2*" + "(3*" + "(4*" + "(5+"
  {
    hide Strip, NoSplitLiteral;
    NestedPiecesLeft();
    NestedPiecesInner();
    Join("(\t2 *", " ( 3 *", "(2*", "(3*");
    Join("(\t2 *" + " ( 3 *", " ( 4 *", "(2*" + "(3*", "(4*");
    Join("(\t2 *" + " ( 3 *" + " ( 4 *", " ( 5 +", "(2*" + "(3*" + "(4*", "(5+");
  }

  lemma NestedSpacedRight()
    ensures var x := " 6 )" + " + 7 )" + " + 8 )" + " - 10 )" + " * 2";
      NoSplitLiteral(x) && Strip(x) == "6)" + "+7)" + "+8)" + "-10)" + "*2"
  {
    hide Strip, NoSplitLiteral;
    NestedPiecesMiddle();
    NestedPiecesRight();
    NestedPieceTen();
    Join(" 6 )", " + 7 )", "6)", "+7)");
    Join(" 6 )" + " + 7 )", " + 8 )", "6)" + "+7)", "+8)");
    Join(" 6 )" + " + 7 )" + " + 8 )", " - 10 )", "6)" + "+7)" + "+8)", "-10)");
    Join(" 6 )" + " + 7 )" + " + 8 )" + " - 10 )", " * 2", "6)" + "+7)" + "+8)" + "-10)", "*2");
  }

  lemma NestedRawLeft()
    ensures "(\t2 *" + " ( 3 *" + " ( 4 *" + " ( 5 +" == "(\t2 * ( 3 * ( 4 * ( 5 +"
    ensures "(2*" + "(3*" + "(4*" + "(5+" == "(2*(3*(4*(5+"
  {
  }

  lemma NestedRawRight()
    ensures " 6 )" + " + 7 )" + " + 8 )" + " - 10 )" + " * 2" == " 6 ) + 7 ) + 8 ) - 10 ) * 2"
    ensures "6)" + "+7)" + "+8)" + "-10)" + "*2" == "6)+7)+8)-10)*2"
  {
  }

  lemma NestedRawWhole()
    ensures "(\t2 * ( 3 * ( 4 * ( 5 +" + " 6 ) + 7 ) + 8 ) - 10 ) * 2" ==
      "(\t2 * ( 3 * ( 4 * ( 5 + 6 ) + 7 ) + 8 ) - 10 ) * 2"
  {
    var w := "(\t2 * ( 3 * ( 4 * ( 5 + 6 ) + 7 ) + 8 ) - 10 ) * 2";
    assert w == w[..23] + w[23..];
    NestedRawHalves();
  }

  lemma NestedRawHalves()
    ensures "(\t2 * ( 3 * ( 4 * ( 5 + 6 ) + 7 ) + 8 ) - 10 ) * 2"[..23] == "(\t2 * ( 3 * ( 4 * ( 5 +"
    ensures "(\t2 * ( 3 * ( 4 * ( 5 + 6 ) + 7 ) + 8 ) - 10 ) * 2"[23..] == " 6 ) + 7 ) + 8 ) - 10 ) * 2"
  {
  }

  lemma NestedTextWhole()
    ensures "(2*(3*(4*(5+" + "6)+7)+8)-10)*2" == "(2*(3*(4*(5+6)+7)+8)-10)*2"
  {
  }

  /** "(\t2 * ( 3 * ( 4 * ( 5 + 6 ) + 7 ) + 8 ) - 10 ) * 2" evaluates to 624. */
  lemma EvaluateNested()
    ensures VerdictOf("(\t2 * ( 3 * ( 4 * ( 5 + 6 ) + 7 ) + 8 ) - 10 ) * 2") == Evaluated(624)
  {
    hide VerdictOf, Strip, NoSplitLiteral, Nested;
    var a := "(\t2 *" + " ( 3 *" + " ( 4 *" + " ( 5 +";
    var b := " 6 )" + " + 7 )" + " + 8 )" + " - 10 )" + " * 2";
    NestedSpacedLeft();
    NestedSpacedRight();
    assert a[|a| - 1] == '+';
    Join(a, b, "(2*" + "(3*" + "(4*" + "(5+", "6)" + "+7)" + "+8)" + "-10)" + "*2");
    NestedRawLeft();
    NestedRawRight();
    NestedRawWhole();
    NestedTextWhole();
    NestedFacts();
    SpacedVerdict(a + b, Nested());
  }

  // ------------------------------------------------------------------------- rejected texts

  /** " (1 " leaves a brace open: the constructor marks it invalid. */
  lemma RejectedOpen()
    ensures !Validator.WellFormed(Strip(" (1 "))
  {
    Piece(" (1 ", "(1");
    assert Braces.Net("(1", '(', ')') == 1 by {
      assert "(1"[..1] == "(" && "("[..0] == [];
    }
  }

  /** " 1 )" closes a brace that was never opened: the constructor marks it invalid. */
  lemma RejectedClose()
    ensures !Validator.WellFormed(Strip(" 1 )"))
  {
    Piece(" 1 )", "1)");
    assert Braces.Net("1)", '(', ')') == -1 by {
      assert "1)"[..1] == "1" && "1"[..0] == [];
    }
  }

  /** " 1 (2)" puts a digit before `(`: the constructor marks it invalid. */
  lemma RejectedDigitBrace()
    ensures !Validator.WellFormed(Strip(" 1 (2)"))
  {
    Piece(" 1 (2)", "1(2)");
    hide Validator.WellFormed;
    RejectedPairSamples();
  }

  /** " 1 *\t" followed by a text without whitespace compresses to "1*" followed by that text. */
  lemma HeadStrip(tail: seq<char>)
    requires NoSpace(tail)
    ensures Strip(MixedHead('1') + tail) == "1*" + tail
  {
    hide Strip;
    MixedHeadStrip('1');
    StripNoSpace(tail);
    StripConcat(MixedHead('1'), tail);
  }

  /** " 1 *\t(2*9)+6(8+2)" puts a digit before `(`: the constructor marks it invalid. */
  lemma RejectedMissingOperator()
    ensures !Validator.WellFormed(Strip(" 1 *\t(2*9)+6(8+2)"))
  {
    var tail := "(2*9)+6(8+2)";
    assert NoSpace(tail);
    assert " 1 *\t(2*9)+6(8+2)" == MixedHead('1') + tail;
    assert "1*" + tail == "1*(2*9)+6" + "(8+2)";
    hide Validator.WellFormed, Strip;
    HeadStrip(tail);
    Validator.BadPairRejects("1*(2*9)+6", "(8+2)");
  }

  /** " 1 *\t(-2*9)++6*(8+2)" has two operators in a row: the constructor marks it invalid. */
  lemma RejectedDoubleOperator()
    ensures !Validator.WellFormed(Strip(" 1 *\t(-2*9)++6*(8+2)"))
  {
    var tail := "(-2*9)++6*(8+2)";
    assert NoSpace(tail);
    assert " 1 *\t(-2*9)++6*(8+2)" == MixedHead('1') + tail;
    assert "1*" + tail == "1*(-2*9)++6*(8+2)";
    hide Validator.WellFormed, Strip;
    HeadStrip(tail);
    RejectedPairSamples();
  }
}
