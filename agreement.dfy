/** The fused evaluator agrees with the standard value of the grammar: wherever the text holds
    a written-out tree, followed by a character that may legally follow it, the evaluation
    functions read exactly that tree and give its value, or the same division-by-zero failure. */
module Agreement {
  import opened Outcomes
  import opened Lexical
  import opened Tokens
  import opened Evaluation
  import opened Grammar

  /** `s` occurs in `text` at `pos`. */
  predicate At(text: seq<char>, pos: nat, s: seq<char>) {
    pos + |s| <= |text| && forall i :: 0 <= i < |s| ==> text[pos + i] == s[i]
  }

  lemma AtSplit(text: seq<char>, pos: nat, a: seq<char>, b: seq<char>)
    requires At(text, pos, a + b)
    ensures At(text, pos, a) && At(text, pos + |a|, b)
  {
    forall i | 0 <= i < |a| ensures text[pos + i] == a[i] {
      assert (a + b)[i] == a[i];
    }
    forall i | 0 <= i < |b| ensures text[pos + |a| + i] == b[i] {
      assert (a + b)[|a| + i] == b[i];
    }
  }

  lemma AtSlice(text: seq<char>, pos: nat, s: seq<char>)
    requires At(text, pos, s)
    ensures text[pos..pos + |s|] == s
  {
    assert forall i :: 0 <= i < |s| ==> text[pos..pos + |s|][i] == s[i];
  }

  /** The parse result a tree value stands for, with the cursor at `end`. */
  function Expected(r: Result<int>, end: nat): (p: Partial)
    ensures Value(p) == r
    ensures p.Parsed? ==> p.next == end
  {
    match r
    case Ok(v) => Parsed(v, end)
    case Err(f) => Aborted(f)
  }

  /** What may follow a unit: the end of the text or an operator or brace, never a digit that
      would lengthen a literal. */
  predicate UnitFollows(text: seq<char>, end: nat) {
    end <= |text| && (end < |text| ==> IsNonDigit(text[end]))
  }

  /** What may follow a term: the end of the text, `+`, `-` or `)`. */
  predicate TermFollows(text: seq<char>, end: nat) {
    end <= |text| && (end < |text| ==> text[end] == '+' || text[end] == '-' || text[end] == ')')
  }

  /** What may follow an expression: the end of the text or `)`. */
  predicate ExprFollows(text: seq<char>, end: nat) {
    end <= |text| && (end < |text| ==> text[end] == ')')
  }

  /** How the text of a signed unit splits up. */
  lemma SignedParts(text: seq<char>, pos: nat, u: Unit)
    requires (u.Pos? || u.Neg?) && UnitOk(u) && At(text, pos, PrintUnit(u))
    ensures pos < |text| && text[pos] == (if u.Pos? then '+' else '-')
    ensures At(text, pos + 1, PrintUnit(u.operand))
    ensures |PrintUnit(u)| == 1 + |PrintUnit(u.operand)|
  {
    var sign := if u.Pos? then '+' else '-';
    AtSplit(text, pos, [sign], PrintUnit(u.operand));
    assert [sign][0] == sign;
  }

  /** How the text of a group splits up: the brace, the inner expression and the closing brace. */
  lemma GroupParts(text: seq<char>, pos: nat, u: Unit)
    requires u.Group? && UnitOk(u) && At(text, pos, PrintUnit(u))
    ensures pos < |text| && text[pos] == '('
    ensures At(text, pos + 1, PrintExpr(u.inner))
    ensures pos + 1 + |PrintExpr(u.inner)| < |text| && text[pos + 1 + |PrintExpr(u.inner)|] == ')'
    ensures |PrintUnit(u)| == 2 + |PrintExpr(u.inner)|
  {
    var inner := PrintExpr(u.inner);
    AtSplit(text, pos, ['('] + inner, [')']);
    AtSplit(text, pos, ['('], inner);
    assert ['('][0] == '(' && [')'][0] == ')';
  }

  /** How the text of a `*` or `/` step splits up, and what follows its unit. */
  lemma FactorParts(text: seq<char>, pos: nat, f: Factors)
    requires (f.Times? || f.Over?) && FactorsOk(f) && At(text, pos, PrintFactors(f))
    requires TermFollows(text, pos + |PrintFactors(f)|)
    ensures pos < |text| && text[pos] == (if f.Times? then '*' else '/')
    ensures At(text, pos + 1, PrintUnit(f.unit))
    ensures UnitFollows(text, pos + 1 + |PrintUnit(f.unit)|)
    ensures At(text, pos + 1 + |PrintUnit(f.unit)|, PrintFactors(f.rest))
    ensures |PrintFactors(f)| == 1 + |PrintUnit(f.unit)| + |PrintFactors(f.rest)|
  {
    var op := if f.Times? then '*' else '/';
    AtSplit(text, pos, [op] + PrintUnit(f.unit), PrintFactors(f.rest));
    AtSplit(text, pos, [op], PrintUnit(f.unit));
    assert [op][0] == op;
    FactorsShape(f.rest);
  }

  /** How the text of a `+` or `-` step splits up, and what follows its term. */
  lemma SumParts(text: seq<char>, pos: nat, s: Sums)
    requires (s.Plus? || s.Minus?) && SumsOk(s) && At(text, pos, PrintSums(s))
    requires ExprFollows(text, pos + |PrintSums(s)|)
    ensures pos < |text| && text[pos] == (if s.Plus? then '+' else '-')
    ensures At(text, pos + 1, PrintTerm(s.term))
    ensures TermFollows(text, pos + 1 + |PrintTerm(s.term)|)
    ensures At(text, pos + 1 + |PrintTerm(s.term)|, PrintSums(s.rest))
    ensures |PrintSums(s)| == 1 + |PrintTerm(s.term)| + |PrintSums(s.rest)|
  {
    var op := if s.Plus? then '+' else '-';
    AtSplit(text, pos, [op] + PrintTerm(s.term), PrintSums(s.rest));
    AtSplit(text, pos, [op], PrintTerm(s.term));
    assert [op][0] == op;
    SumsShape(s.rest);
  }

  /** How the text of a term splits up, and what follows its first unit. */
  lemma TermParts(text: seq<char>, pos: nat, t: Term)
    requires TermOk(t) && At(text, pos, PrintTerm(t))
    requires TermFollows(text, pos + |PrintTerm(t)|)
    ensures At(text, pos, PrintUnit(t.head))
    ensures UnitFollows(text, pos + |PrintUnit(t.head)|)
    ensures At(text, pos + |PrintUnit(t.head)|, PrintFactors(t.tail))
    ensures |PrintTerm(t)| == |PrintUnit(t.head)| + |PrintFactors(t.tail)|
  {
    AtSplit(text, pos, PrintUnit(t.head), PrintFactors(t.tail));
    FactorsShape(t.tail);
  }

  /** How the text of an expression splits up, and what follows its first term. */
  lemma ExprParts(text: seq<char>, pos: nat, e: Expr)
    requires ExprOk(e) && At(text, pos, PrintExpr(e))
    requires ExprFollows(text, pos + |PrintExpr(e)|)
    ensures At(text, pos, PrintTerm(e.head))
    ensures TermFollows(text, pos + |PrintTerm(e.head)|)
    ensures At(text, pos + |PrintTerm(e.head)|, PrintSums(e.tail))
    ensures |PrintExpr(e)| == |PrintTerm(e.head)| + |PrintSums(e.tail)|
  {
    AtSplit(text, pos, PrintTerm(e.head), PrintSums(e.tail));
    SumsShape(e.tail);
  }

  /** `getUnitTerm` reads a written-out unit and gives its value. */
  lemma {:induction false} UnitReads(text: seq<char>, pos: nat, u: Unit)
    requires UnitOk(u) && At(text, pos, PrintUnit(u))
    requires UnitFollows(text, pos + |PrintUnit(u)|)
    ensures UnitAt(text, pos) == Expected(UnitValue(u), pos + |PrintUnit(u)|)
    decreases u, 1
  {
    hide Next;
    match u
    case Literal(ds) =>
      AtSlice(text, pos, ds);
      NextLiteral(text, pos, ds);
    case Pos(_) => SignedReads(text, pos, u);
    case Neg(_) => SignedReads(text, pos, u);
    case Group(_) => GroupReads(text, pos, u);
  }

  /** A sign and the unit it applies to. */
  lemma {:induction false} SignedReads(text: seq<char>, pos: nat, u: Unit)
    requires (u.Pos? || u.Neg?) && UnitOk(u) && At(text, pos, PrintUnit(u))
    requires UnitFollows(text, pos + |PrintUnit(u)|)
    ensures UnitAt(text, pos) == Expected(UnitValue(u), pos + |PrintUnit(u)|)
    decreases u, 0
  {
    hide Next;
    SignedParts(text, pos, u);
    NextSymbol(text, pos);
    UnitReads(text, pos + 1, u.operand);
  }

  /** A parenthesised expression. */
  lemma {:induction false} GroupReads(text: seq<char>, pos: nat, u: Unit)
    requires u.Group? && UnitOk(u) && At(text, pos, PrintUnit(u))
    requires UnitFollows(text, pos + |PrintUnit(u)|)
    ensures UnitAt(text, pos) == Expected(UnitValue(u), pos + |PrintUnit(u)|)
    decreases u, 0
  {
    hide Next;
    GroupParts(text, pos, u);
    NextSymbol(text, pos);
    ExprReads(text, pos + 1, u.inner);
    NextSymbol(text, pos + 1 + |PrintExpr(u.inner)|);
  }

  /** The loop of `getTerm` reads the written-out remaining factors. */
  lemma {:induction false} FactorsReads(text: seq<char>, pos: nat, acc: int, f: Factors)
    requires FactorsOk(f) && At(text, pos, PrintFactors(f))
    requires TermFollows(text, pos + |PrintFactors(f)|)
    ensures TermLoop(text, Next(text, pos).token, Next(text, pos).next, acc)
         == Expected(FactorsValue(acc, f), pos + |PrintFactors(f)|)
    decreases f, 1
  {
    hide Next;
    if f.NoFactor? {
      if pos < |text| {
        NextSymbol(text, pos);
      } else {
        NextAtEnd(text, pos);
      }
    } else if f.Times? {
      TimesReads(text, pos, acc, f);
    } else {
      OverReads(text, pos, acc, f);
    }
  }

  /** One step of the loop of `getTerm`: `*`, its unit and the remaining factors. */
  lemma {:induction false} TimesReads(text: seq<char>, pos: nat, acc: int, f: Factors)
    requires f.Times? && FactorsOk(f) && At(text, pos, PrintFactors(f))
    requires TermFollows(text, pos + |PrintFactors(f)|)
    ensures TermLoop(text, Next(text, pos).token, Next(text, pos).next, acc)
         == Expected(FactorsValue(acc, f), pos + |PrintFactors(f)|)
    decreases f, 0
  {
    hide Next;
    FactorParts(text, pos, f);
    NextSymbol(text, pos);
    UnitReads(text, pos + 1, f.unit);
    match UnitValue(f.unit)
    case Err(_) =>
    case Ok(v) =>
      FactorsReads(text, pos + 1 + |PrintUnit(f.unit)|, acc * v, f.rest);
  }

  /** One step of the loop of `getTerm`: `/`, its unit and the remaining factors. */
  lemma {:induction false} OverReads(text: seq<char>, pos: nat, acc: int, f: Factors)
    requires f.Over? && FactorsOk(f) && At(text, pos, PrintFactors(f))
    requires TermFollows(text, pos + |PrintFactors(f)|)
    ensures TermLoop(text, Next(text, pos).token, Next(text, pos).next, acc)
         == Expected(FactorsValue(acc, f), pos + |PrintFactors(f)|)
    decreases f, 0
  {
    hide Next;
    FactorParts(text, pos, f);
    NextSymbol(text, pos);
    UnitReads(text, pos + 1, f.unit);
    match UnitValue(f.unit)
    case Err(_) =>
    case Ok(v) =>
      if v != 0 {
        FactorsReads(text, pos + 1 + |PrintUnit(f.unit)|, TruncDiv(acc, v), f.rest);
      }
  }

  /** `getTerm` reads a written-out term and gives its value. */
  lemma {:induction false} TermReads(text: seq<char>, pos: nat, t: Term)
    requires TermOk(t) && At(text, pos, PrintTerm(t))
    requires TermFollows(text, pos + |PrintTerm(t)|)
    ensures TermAt(text, pos) == Expected(TermValue(t), pos + |PrintTerm(t)|)
    decreases t, 0
  {
    hide Next;
    TermParts(text, pos, t);
    UnitReads(text, pos, t.head);
    match UnitValue(t.head)
    case Err(_) =>
    case Ok(v) =>
      FactorsReads(text, pos + |PrintUnit(t.head)|, v, t.tail);
  }

  /** The loop of `evaluate` reads the written-out remaining terms. */
  lemma {:induction false} SumsReads(text: seq<char>, pos: nat, acc: int, s: Sums)
    requires SumsOk(s) && At(text, pos, PrintSums(s))
    requires ExprFollows(text, pos + |PrintSums(s)|)
    ensures ExprLoop(text, Next(text, pos).token, Next(text, pos).next, acc)
         == Expected(SumsValue(acc, s), pos + |PrintSums(s)|)
    decreases s, 1
  {
    hide Next;
    if s.NoSum? {
      if pos < |text| {
        NextSymbol(text, pos);
      } else {
        NextAtEnd(text, pos);
      }
    } else if s.Plus? {
      PlusReads(text, pos, acc, s);
    } else {
      MinusReads(text, pos, acc, s);
    }
  }

  /** One step of the loop of `evaluate`: `+`, its term and the remaining terms. */
  lemma {:induction false} PlusReads(text: seq<char>, pos: nat, acc: int, s: Sums)
    requires s.Plus? && SumsOk(s) && At(text, pos, PrintSums(s))
    requires ExprFollows(text, pos + |PrintSums(s)|)
    ensures ExprLoop(text, Next(text, pos).token, Next(text, pos).next, acc)
         == Expected(SumsValue(acc, s), pos + |PrintSums(s)|)
    decreases s, 0
  {
    hide Next;
    SumParts(text, pos, s);
    NextSymbol(text, pos);
    TermReads(text, pos + 1, s.term);
    match TermValue(s.term)
    case Err(_) =>
    case Ok(v) =>
      SumsReads(text, pos + 1 + |PrintTerm(s.term)|, acc + v, s.rest);
  }

  /** One step of the loop of `evaluate`: `-`, its term and the remaining terms. */
  lemma {:induction false} MinusReads(text: seq<char>, pos: nat, acc: int, s: Sums)
    requires s.Minus? && SumsOk(s) && At(text, pos, PrintSums(s))
    requires ExprFollows(text, pos + |PrintSums(s)|)
    ensures ExprLoop(text, Next(text, pos).token, Next(text, pos).next, acc)
         == Expected(SumsValue(acc, s), pos + |PrintSums(s)|)
    decreases s, 0
  {
    hide Next;
    SumParts(text, pos, s);
    NextSymbol(text, pos);
    TermReads(text, pos + 1, s.term);
    match TermValue(s.term)
    case Err(_) =>
    case Ok(v) =>
      SumsReads(text, pos + 1 + |PrintTerm(s.term)|, acc - v, s.rest);
  }

  /** `evaluate(TokenStream&)` reads a written-out expression and gives its value. */
  lemma {:induction false} ExprReads(text: seq<char>, pos: nat, e: Expr)
    requires ExprOk(e) && At(text, pos, PrintExpr(e))
    requires ExprFollows(text, pos + |PrintExpr(e)|)
    ensures ExprAt(text, pos) == Expected(ExprValue(e), pos + |PrintExpr(e)|)
    decreases e, 0
  {
    hide Next;
    ExprParts(text, pos, e);
    TermReads(text, pos, e.head);
    match TermValue(e.head)
    case Err(_) =>
    case Ok(v) =>
      SumsReads(text, pos + |PrintTerm(e.head)|, v, e.tail);
  }

  /** On the whole written-out text, the evaluator gives the standard value and reads to the end. */
  lemma EvaluatesPrinted(e: Expr)
    requires ExprOk(e)
    ensures ExprAt(PrintExpr(e), 0) == Expected(ExprValue(e), |PrintExpr(e)|)
  {
    var s := PrintExpr(e);
    assert forall i :: 0 <= i < |s| ==> s[0 + i] == s[i];
    ExprReads(s, 0, e);
  }
}
