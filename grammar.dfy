/** The grammar the evaluator implements, as trees with their standard values and the text that
    writes them out:
      Expr = Term (('+'|'-') Term)*
      Term = Unit (('*'|'/') Unit)*
      Unit = literal | '+' Unit | '-' Unit | '(' Expr ')'
    The repetitions are chains, so that both binary levels are left-associative by construction
    and `*`, `/` bind tighter than `+`, `-`. */
module Grammar {
  import opened Outcomes
  import opened Lexical
  import opened Evaluation

  datatype Expr = Expr(head: Term, tail: Sums)
  datatype Sums = NoSum | Plus(term: Term, rest: Sums) | Minus(term: Term, rest: Sums)
  datatype Term = Term(head: Unit, tail: Factors)
  datatype Factors = NoFactor | Times(unit: Unit, rest: Factors) | Over(unit: Unit, rest: Factors)
  datatype Unit = Literal(digits: seq<char>) | Pos(operand: Unit) | Neg(operand: Unit) | Group(inner: Expr)

  /** Every literal of the tree is a non-empty run of digits. */
  predicate ExprOk(e: Expr)
    decreases e
  {
    TermOk(e.head) && SumsOk(e.tail)
  }

  predicate SumsOk(s: Sums)
    decreases s
  {
    match s
    case NoSum => true
    case Plus(t, rest) => TermOk(t) && SumsOk(rest)
    case Minus(t, rest) => TermOk(t) && SumsOk(rest)
  }

  predicate TermOk(t: Term)
    decreases t
  {
    UnitOk(t.head) && FactorsOk(t.tail)
  }

  predicate FactorsOk(f: Factors)
    decreases f
  {
    match f
    case NoFactor => true
    case Times(u, rest) => UnitOk(u) && FactorsOk(rest)
    case Over(u, rest) => UnitOk(u) && FactorsOk(rest)
  }

  predicate UnitOk(u: Unit)
    decreases u
  {
    match u
    case Literal(ds) => ds != [] && AllDigits(ds)
    case Pos(v) => UnitOk(v)
    case Neg(v) => UnitOk(v)
    case Group(e) => ExprOk(e)
  }

  /** The standard value of an expression: terms are summed from the left. The only way it can
      fail is a division by zero. */
  function ExprValue(e: Expr): (r: Result<int>)
    requires ExprOk(e)
    ensures r.Err? ==> r.failure == DivByZero
    decreases e
  {
    match TermValue(e.head)
    case Err(f) => Err(f)
    case Ok(v) => SumsValue(v, e.tail)
  }

  /** The remaining terms added to or subtracted from `acc`, from the left. */
  function SumsValue(acc: int, s: Sums): (r: Result<int>)
    requires SumsOk(s)
    ensures r.Err? ==> r.failure == DivByZero
    decreases s
  {
    match s
    case NoSum => Ok(acc)
    case Plus(t, rest) =>
      (match TermValue(t)
       case Err(f) => Err(f)
       case Ok(v) => SumsValue(acc + v, rest))
    case Minus(t, rest) =>
      (match TermValue(t)
       case Err(f) => Err(f)
       case Ok(v) => SumsValue(acc - v, rest))
  }

  function TermValue(t: Term): (r: Result<int>)
    requires TermOk(t)
    ensures r.Err? ==> r.failure == DivByZero
    decreases t
  {
    match UnitValue(t.head)
    case Err(f) => Err(f)
    case Ok(v) => FactorsValue(v, t.tail)
  }

  /** The remaining units multiplying or dividing `acc`, from the left; division truncates
      toward zero and a zero divisor fails. */
  function FactorsValue(acc: int, f: Factors): (r: Result<int>)
    requires FactorsOk(f)
    ensures r.Err? ==> r.failure == DivByZero
    decreases f
  {
    match f
    case NoFactor => Ok(acc)
    case Times(u, rest) =>
      (match UnitValue(u)
       case Err(e) => Err(e)
       case Ok(v) => FactorsValue(acc * v, rest))
    case Over(u, rest) =>
      (match UnitValue(u)
       case Err(e) => Err(e)
       case Ok(v) => if v == 0 then Err(DivByZero) else FactorsValue(TruncDiv(acc, v), rest))
  }

  function UnitValue(u: Unit): (r: Result<int>)
    requires UnitOk(u)
    ensures r.Err? ==> r.failure == DivByZero
    decreases u
  {
    match u
    case Literal(ds) => Ok(DecimalValue(ds))
    case Pos(v) => UnitValue(v)
    case Neg(v) =>
      (match UnitValue(v)
       case Err(f) => Err(f)
       case Ok(n) => Ok(-n))
    case Group(e) => ExprValue(e)
  }

  /** A unit is written with a digit or a `)` last. */
  predicate EndsUnit(c: char) {
    IsDigit(c) || c == ')'
  }

  /** A unit, term or expression starts with a digit, a brace or a sign. */
  predicate StartsUnit(c: char) {
    IsDigit(c) || c == '(' || c == '+' || c == '-'
  }

  /** The text of an expression, without whitespace. */
  function PrintExpr(e: Expr): seq<char>
    requires ExprOk(e)
    decreases e
  {
    PrintTerm(e.head) + PrintSums(e.tail)
  }

  function PrintSums(s: Sums): seq<char>
    requires SumsOk(s)
    decreases s
  {
    match s
    case NoSum => []
    case Plus(t, rest) => ['+'] + PrintTerm(t) + PrintSums(rest)
    case Minus(t, rest) => ['-'] + PrintTerm(t) + PrintSums(rest)
  }

  function PrintTerm(t: Term): seq<char>
    requires TermOk(t)
    decreases t
  {
    PrintUnit(t.head) + PrintFactors(t.tail)
  }

  function PrintFactors(f: Factors): seq<char>
    requires FactorsOk(f)
    decreases f
  {
    match f
    case NoFactor => []
    case Times(u, rest) => ['*'] + PrintUnit(u) + PrintFactors(rest)
    case Over(u, rest) => ['/'] + PrintUnit(u) + PrintFactors(rest)
  }

  function PrintUnit(u: Unit): seq<char>
    requires UnitOk(u)
    decreases u
  {
    match u
    case Literal(ds) => ds
    case Pos(v) => ['+'] + PrintUnit(v)
    case Neg(v) => ['-'] + PrintUnit(v)
    case Group(e) => ['('] + PrintExpr(e) + [')']
  }

  /** The written-out expression is not empty, starts the way a unit starts and ends the way a
      unit ends. */
  lemma {:induction false} ExprShape(e: Expr)
    requires ExprOk(e)
    ensures |PrintExpr(e)| > 0 && StartsUnit(PrintExpr(e)[0])
    ensures EndsUnit(PrintExpr(e)[|PrintExpr(e)| - 1])
    decreases e, 1
  {
    TermShape(e.head);
    SumsShape(e.tail);
  }

  /** The remaining terms are empty, or start with `+` or `-` and end the way a unit ends. */
  lemma {:induction false} SumsShape(s: Sums)
    requires SumsOk(s)
    ensures var r := PrintSums(s); r == [] || ((r[0] == '+' || r[0] == '-') && EndsUnit(r[|r| - 1]))
    decreases s
  {
    if !s.NoSum? {
      TermShape(s.term);
      SumsShape(s.rest);
    }
  }

  lemma {:induction false} TermShape(t: Term)
    requires TermOk(t)
    ensures |PrintTerm(t)| > 0 && StartsUnit(PrintTerm(t)[0])
    ensures EndsUnit(PrintTerm(t)[|PrintTerm(t)| - 1])
    decreases t
  {
    UnitShape(t.head);
    FactorsShape(t.tail);
  }

  /** The remaining factors are empty, or start with `*` or `/` and end the way a unit ends. */
  lemma {:induction false} FactorsShape(f: Factors)
    requires FactorsOk(f)
    ensures var r := PrintFactors(f); r == [] || ((r[0] == '*' || r[0] == '/') && EndsUnit(r[|r| - 1]))
    decreases f
  {
    if !f.NoFactor? {
      UnitShape(f.unit);
      FactorsShape(f.rest);
    }
  }

  /** A literal or a group starts with a digit or `(`; a signed unit with its sign. */
  lemma {:induction false} UnitShape(u: Unit)
    requires UnitOk(u)
    ensures |PrintUnit(u)| > 0 && StartsUnit(PrintUnit(u)[0])
    ensures EndsUnit(PrintUnit(u)[|PrintUnit(u)| - 1])
    ensures u.Literal? || u.Group? ==> IsDigit(PrintUnit(u)[0]) || PrintUnit(u)[0] == '('
    decreases u
  {
    match u
    case Literal(ds) =>
    case Pos(v) => UnitShape(v);
    case Neg(v) => UnitShape(v);
    case Group(e) => ExprShape(e);
  }
}
