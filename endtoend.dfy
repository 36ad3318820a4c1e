/** The whole pipeline on written-out trees: the validator accepts them, and the calculator gives
    their standard value or fails with the same division by zero. */
module EndToEnd {
  import opened Outcomes
  import opened Lexical
  import opened Evaluation
  import opened Grammar
  import opened Agreement
  import opened Validity
  import opened Calculator
  import opened Spacing
  import opened Completeness

  /** The verdict a tree's standard value stands for. */
  function VerdictFor(r: Result<int>): (v: Verdict)
    ensures v != Invalid
    ensures r.Ok? <==> v.Evaluated?
  {
    match r
    case Ok(n) => Evaluated(n)
    case Err(f) => Failed(f)
  }

  /** A plain tree written out is valid, and evaluating it gives its standard value; the only
      failure is a division by zero. */
  lemma PlainVerdict(e: Expr)
    requires ExprOk(e) && ExprPlain(e)
    ensures VerdictOf(PrintExpr(e)) == VerdictFor(ExprValue(e))
    ensures !VerdictOf(PrintExpr(e)).Failed? || VerdictOf(PrintExpr(e)).failure == DivByZero
  {
    PlainWellFormed(e);
    EvaluatesPrinted(e);
  }

  /** Whitespace between the tokens of a written-out tree changes nothing: a raw text that
      compresses to the text of a plain tree, with no whitespace inside a literal, gets the
      tree's verdict. */
  lemma SpacedVerdict(raw: seq<char>, e: Expr)
    requires ExprOk(e) && ExprPlain(e)
    requires NoSplitLiteral(raw) && Strip(raw) == PrintExpr(e)
    ensures VerdictOf(raw) == VerdictFor(ExprValue(e))
  {
    WhitespaceIgnored(raw);
    PlainVerdict(e);
  }

  /** A calculator line with no whitespace inside a literal is evaluated to `v` exactly when
      its compressed text is the written-out text of a plain tree whose standard value is `v`. */
  lemma EvaluatedIffPlainTree(raw: seq<char>, v: int)
    requires NoSplitLiteral(raw)
    ensures VerdictOf(raw) == Evaluated(v) <==>
      exists e :: ExprOk(e) && ExprPlain(e) && PrintExpr(e) == Strip(raw) && ExprValue(e) == Ok(v)
  {
    if VerdictOf(raw) == Evaluated(v) {
      var s := Strip(raw);
      WhitespaceIgnored(raw);
      StripNoSpace(s);
      AcceptedEvaluated(s);
    }
    if exists e :: ExprOk(e) && ExprPlain(e) && PrintExpr(e) == Strip(raw) && ExprValue(e) == Ok(v) {
      var e :| ExprOk(e) && ExprPlain(e) && PrintExpr(e) == Strip(raw) && ExprValue(e) == Ok(v);
      SpacedVerdict(raw, e);
    }
  }
}
