/** Which written-out trees the validator accepts. A sign may only stand where the text of an
    expression begins (after an opening brace or at the very start), because the validator rejects
    two operators in a row; a sign therefore never follows an operator and never applies to a
    signed unit. Every such tree is written out as a text `validate` accepts. */
module Validity {
  import opened Lexical
  import Braces
  import opened Validator
  import opened Grammar

  /** A unit that does not start with a sign. */
  predicate Unsigned(u: Unit) {
    u.Literal? || u.Group?
  }

  /** The only signed unit is the first of its expression, and it carries one sign. */
  predicate ExprPlain(e: Expr)
    decreases e
  {
    TermPlain(e.head) && SumsPlain(e.tail)
  }

  predicate SumsPlain(s: Sums)
    decreases s
  {
    match s
    case NoSum => true
    case Plus(t, rest) => Unsigned(t.head) && TermPlain(t) && SumsPlain(rest)
    case Minus(t, rest) => Unsigned(t.head) && TermPlain(t) && SumsPlain(rest)
  }

  predicate TermPlain(t: Term)
    decreases t
  {
    UnitPlain(t.head) && FactorsPlain(t.tail)
  }

  predicate FactorsPlain(f: Factors)
    decreases f
  {
    match f
    case NoFactor => true
    case Times(u, rest) => Unsigned(u) && UnitPlain(u) && FactorsPlain(rest)
    case Over(u, rest) => Unsigned(u) && UnitPlain(u) && FactorsPlain(rest)
  }

  predicate UnitPlain(u: Unit)
    decreases u
  {
    match u
    case Literal(_) => true
    case Pos(v) => Unsigned(v) && UnitPlain(v)
    case Neg(v) => Unsigned(v) && UnitPlain(v)
    case Group(e) => ExprPlain(e)
  }

  /** `s`, read after the character `prev`, passes the pair rules and has balanced braces. */
  predicate Accepted(prev: char, s: seq<char>) {
    PairsOk(prev, s) && Braces.Balanced(s, '(', ')')
  }

  lemma AcceptedConcat(prev: char, a: seq<char>, b: seq<char>)
    requires a != [] && Accepted(prev, a) && Accepted(a[|a| - 1], b)
    ensures Accepted(prev, a + b)
  {
    PairsOkConcat(prev, a, b);
    Braces.BalancedConcat(a, b, '(', ')');
  }

  /** An operator that may follow `prev`. */
  lemma OperatorAccepted(prev: char, op: char)
    requires IsOperator(op) && ValidPair(prev, op)
    ensures Accepted(prev, [op])
  {
    assert [op][1..] == [];
    Braces.NoBracesBalanced([op], '(', ')');
  }

  /** A run of digits after a brace or an operator. */
  lemma {:induction false} DigitsAccepted(prev: char, ds: seq<char>)
    requires prev == '(' || IsOperator(prev) || IsDigit(prev)
    requires AllDigits(ds)
    ensures Accepted(prev, ds)
    decreases |ds|
  {
    Braces.NoBracesBalanced(ds, '(', ')');
    if ds != [] {
      DigitsAccepted(ds[0], ds[1..]);
    }
  }

  /** A unit after `(` or an operator; after an operator it carries no sign. */
  lemma {:induction false} UnitAccepted(prev: char, u: Unit)
    requires UnitOk(u) && UnitPlain(u)
    requires prev == '(' || IsOperator(prev)
    requires IsOperator(prev) ==> Unsigned(u)
    ensures Accepted(prev, PrintUnit(u))
    decreases u, 1
  {
    match u
    case Literal(ds) =>
      DigitsAccepted(prev, ds);
    case Pos(v) =>
      OperatorAccepted(prev, '+');
      UnitAccepted('+', v);
      AcceptedConcat(prev, ['+'], PrintUnit(v));
    case Neg(v) =>
      OperatorAccepted(prev, '-');
      UnitAccepted('-', v);
      AcceptedConcat(prev, ['-'], PrintUnit(v));
    case Group(e) =>
      GroupAccepted(prev, u);
  }

  /** A parenthesised expression after `(` or an operator. */
  lemma {:induction false} GroupAccepted(prev: char, u: Unit)
    requires u.Group? && UnitOk(u) && UnitPlain(u)
    requires prev == '(' || IsOperator(prev)
    ensures Accepted(prev, PrintUnit(u))
    decreases u, 0
  {
    var inner := PrintExpr(u.inner);
    ExprAccepted(u.inner);
    ExprShape(u.inner);
    assert ['('][1..] == [];
    PairsOkConcat(prev, ['('], inner);
    assert (['('] + inner)[|inner|] == inner[|inner| - 1];
    assert [')'][1..] == [];
    PairsOkConcat(prev, ['('] + inner, [')']);
    Braces.BalancedWrap(inner, '(', ')');
  }

  lemma {:induction false} TermAccepted(prev: char, t: Term)
    requires TermOk(t) && TermPlain(t)
    requires prev == '(' || IsOperator(prev)
    requires IsOperator(prev) ==> Unsigned(t.head)
    ensures Accepted(prev, PrintTerm(t))
    decreases t
  {
    UnitAccepted(prev, t.head);
    UnitShape(t.head);
    var head := PrintUnit(t.head);
    FactorsAccepted(head[|head| - 1], t.tail);
    AcceptedConcat(prev, head, PrintFactors(t.tail));
  }

  /** The remaining factors after the last character of a unit. */
  lemma {:induction false} FactorsAccepted(prev: char, f: Factors)
    requires FactorsOk(f) && FactorsPlain(f)
    requires EndsUnit(prev)
    ensures Accepted(prev, PrintFactors(f))
    decreases f
  {
    if f.NoFactor? {
      Braces.NoBracesBalanced([], '(', ')');
    } else {
      var op := if f.Times? then '*' else '/';
      OperatorAccepted(prev, op);
      UnitAccepted(op, f.unit);
      AcceptedConcat(prev, [op], PrintUnit(f.unit));
      UnitShape(f.unit);
      var a := [op] + PrintUnit(f.unit);
      assert a[|a| - 1] == PrintUnit(f.unit)[|PrintUnit(f.unit)| - 1];
      FactorsAccepted(a[|a| - 1], f.rest);
      AcceptedConcat(prev, a, PrintFactors(f.rest));
    }
  }

  /** The remaining terms after the last character of a unit. */
  lemma {:induction false} SumsAccepted(prev: char, s: Sums)
    requires SumsOk(s) && SumsPlain(s)
    requires EndsUnit(prev)
    ensures Accepted(prev, PrintSums(s))
    decreases s
  {
    if s.NoSum? {
      Braces.NoBracesBalanced([], '(', ')');
    } else {
      var op := if s.Plus? then '+' else '-';
      OperatorAccepted(prev, op);
      TermAccepted(op, s.term);
      AcceptedConcat(prev, [op], PrintTerm(s.term));
      TermShape(s.term);
      var a := [op] + PrintTerm(s.term);
      assert a[|a| - 1] == PrintTerm(s.term)[|PrintTerm(s.term)| - 1];
      SumsAccepted(a[|a| - 1], s.rest);
      AcceptedConcat(prev, a, PrintSums(s.rest));
    }
  }

  /** An expression after `(`, which is also what the validator puts before the first character. */
  lemma {:induction false} ExprAccepted(e: Expr)
    requires ExprOk(e) && ExprPlain(e)
    ensures Accepted('(', PrintExpr(e))
    decreases e, 2
  {
    TermAccepted('(', e.head);
    TermShape(e.head);
    var head := PrintTerm(e.head);
    SumsAccepted(head[|head| - 1], e.tail);
    AcceptedConcat('(', head, PrintSums(e.tail));
  }

  /** Every plain tree is written out as a text the validator accepts, and that text has no
      whitespace, so compressing it changes nothing. */
  lemma PlainWellFormed(e: Expr)
    requires ExprOk(e) && ExprPlain(e)
    ensures WellFormed(PrintExpr(e))
    ensures Strip(PrintExpr(e)) == PrintExpr(e)
  {
    var s := PrintExpr(e);
    ExprAccepted(e);
    ExprShape(e);
    PairsOkAt('(', s);
    forall i | 0 <= i < |s| ensures !IsSpace(s[i]) {
      assert FitsAt('(', s, i);
      ClassesPartition(s[i]);
    }
    StripNoSpace(s);
  }
}
