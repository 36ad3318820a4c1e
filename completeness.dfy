/** The converse of the agreement: a text the validator accepts and the evaluator gets through
    is the written-out text of a plain tree, the evaluator reads all of it, and the value is the
    tree's standard value. The adjacency rules of `validatePair` are what make this hold: after a
    unit there is never a digit or `(`, so a literal never stands where `getTerm` expects an
    operator, and two operators never meet, so a sign only opens an expression. */
module Completeness {
  import opened Outcomes
  import opened Lexical
  import opened Tokens
  import opened Evaluation
  import opened Grammar
  import opened Agreement
  import opened Validity
  import opened Validator
  import Braces

  /** The character the validator puts before position `i`. */
  function Before(s: seq<char>, i: nat): char
    requires i <= |s|
  {
    if i == 0 then '(' else s[i - 1]
  }

  /** Every character of `s` fits after its predecessor, the first one after a virtual `(`:
      the pair rules of the validator, position by position. */
  predicate Fits(s: seq<char>) {
    forall i :: 0 <= i < |s| ==> FitsAt('(', s, i)
  }

  lemma AtJoin(text: seq<char>, pos: nat, a: seq<char>, b: seq<char>)
    requires At(text, pos, a) && At(text, pos + |a|, b)
    ensures At(text, pos, a + b)
  {
    forall i | 0 <= i < |a + b| ensures text[pos + i] == (a + b)[i] {
      if i >= |a| {
        assert text[pos + |a| + (i - |a|)] == b[i - |a|];
      }
    }
  }

  /** On a text that passes the pair rules there is no whitespace and no foreign character, so
      `nextToken` reads the sentinel exactly at the end, an operator or brace as itself, and a
      digit as the literal of the whole run of digits that starts there. */
  lemma NextIn(s: seq<char>, p: nat)
    requires Fits(s) && p <= |s|
    ensures p == |s| ==> Next(s, p) == Read(Sentinel, p)
    ensures p < |s| ==> IsDigit(s[p]) != IsNonDigit(s[p])
    ensures p < |s| && IsNonDigit(s[p]) ==> Next(s, p) == Read(Symbol(s[p]), p + 1)
    ensures p < |s| && IsDigit(s[p]) ==>
      var e := DigitRunEnd(s, p);
      p < e && AllDigits(s[p..e]) && Next(s, p) == Read(Token(s[p], DecimalValue(s[p..e])), e)
  {
    if p < |s| {
      assert FitsAt('(', s, p);
      ClassesPartition(s[p]);
      if IsDigit(s[p]) {
        var e := DigitRunEnd(s, p);
        DigitRunDigits(s, p);
        RunValueIsDecimal(s, p, e);
      }
    }
  }

  /** `getUnitTerm`, when it succeeds on such a text, has read a written-out plain unit, which
      carries no sign after an operator, and gives its value; what follows is not a digit. */
  lemma {:induction false} UnitTree(s: seq<char>, pos: nat) returns (u: Unit)
    requires Fits(s) && pos <= |s| && UnitAt(s, pos).Parsed?
    ensures UnitOk(u) && UnitPlain(u)
    ensures IsOperator(Before(s, pos)) ==> Unsigned(u)
    ensures At(s, pos, PrintUnit(u)) && UnitAt(s, pos).next == pos + |PrintUnit(u)|
    ensures UnitValue(u) == Ok(UnitAt(s, pos).value)
    ensures UnitAt(s, pos).next < |s| ==> IsNonDigit(s[UnitAt(s, pos).next])
    decreases |s| - pos, 1
  {
    NextIn(s, pos);
    hide Next;
    assert pos < |s|;
    if IsDigit(s[pos]) {
      var e := DigitRunEnd(s, pos);
      u := Literal(s[pos..e]);
      assert FitsAt('(', s, pos);
      if e < |s| {
        assert FitsAt('(', s, e);
      }
    } else if s[pos] == '+' || s[pos] == '-' {
      u := SignedTree(s, pos);
    } else {
      u := GroupTree(s, pos);
    }
  }

  /** A sign, which may only open an expression, and the unsigned unit it applies to. */
  lemma {:induction false} SignedTree(s: seq<char>, pos: nat) returns (u: Unit)
    requires Fits(s) && pos < |s| && (s[pos] == '+' || s[pos] == '-') && UnitAt(s, pos).Parsed?
    ensures UnitOk(u) && UnitPlain(u) && !IsOperator(Before(s, pos))
    ensures At(s, pos, PrintUnit(u)) && UnitAt(s, pos).next == pos + |PrintUnit(u)|
    ensures UnitValue(u) == Ok(UnitAt(s, pos).value)
    ensures UnitAt(s, pos).next < |s| ==> IsNonDigit(s[UnitAt(s, pos).next])
    decreases |s| - pos, 0
  {
    NextIn(s, pos);
    hide Next;
    assert FitsAt('(', s, pos);
    var v := UnitTree(s, pos + 1);
    u := if s[pos] == '+' then Pos(v) else Neg(v);
    AtJoin(s, pos, [s[pos]], PrintUnit(v));
    assert PrintUnit(u) == [s[pos]] + PrintUnit(v);
  }

  /** A parenthesised expression and its closing brace, after which no digit may follow. */
  lemma {:induction false} GroupTree(s: seq<char>, pos: nat) returns (u: Unit)
    requires Fits(s) && pos < |s| && s[pos] == '(' && UnitAt(s, pos).Parsed?
    ensures UnitOk(u) && UnitPlain(u) && Unsigned(u)
    ensures At(s, pos, PrintUnit(u)) && UnitAt(s, pos).next == pos + |PrintUnit(u)|
    ensures UnitValue(u) == Ok(UnitAt(s, pos).value)
    ensures UnitAt(s, pos).next < |s| ==> IsNonDigit(s[UnitAt(s, pos).next])
    decreases |s| - pos, 0
  {
    NextIn(s, pos);
    hide Next;
    var e := ExprTree(s, pos + 1);
    var c := pos + 1 + |PrintExpr(e)|;
    NextIn(s, c);
    assert c < |s| && s[c] == ')';
    u := Group(e);
    AtJoin(s, pos, ['('], PrintExpr(e));
    AtJoin(s, pos, ['('] + PrintExpr(e), [')']);
    if c + 1 < |s| {
      assert FitsAt('(', s, c + 1);
    }
  }

  /** The loop of `getTerm`, entered after a unit that ends at `q`, has read written-out plain
      factors; it stops at the end of the text or before `+`, `-` or `)`. */
  lemma {:induction false} FactorsTree(s: seq<char>, q: nat, acc: int) returns (f: Factors)
    requires Fits(s) && 0 < q <= |s| && EndsUnit(s[q - 1])
    requires q < |s| ==> IsNonDigit(s[q])
    requires TermLoop(s, Next(s, q).token, Next(s, q).next, acc).Parsed?
    ensures FactorsOk(f) && FactorsPlain(f) && At(s, q, PrintFactors(f))
    ensures var r := TermLoop(s, Next(s, q).token, Next(s, q).next, acc);
      r.next == q + |PrintFactors(f)| && FactorsValue(acc, f) == Ok(r.value) && TermFollows(s, r.next)
    decreases |s| - q, 2
  {
    NextIn(s, q);
    hide Next;
    if q == |s| {
      f := NoFactor;
    } else if s[q] == '*' || s[q] == '/' {
      if s[q] == '*' {
        f := TimesTree(s, q, acc);
      } else {
        f := OverTree(s, q, acc);
      }
    } else {
      f := NoFactor;
      assert FitsAt('(', s, q);
    }
  }

  /** How the loop of `getTerm` goes on after `*` or `/`: the unit after the operator is read,
      a divisor is not zero, and the loop continues after that unit with the new value. */
  lemma FactorStepReads(s: seq<char>, q: nat, acc: int)
    requires Fits(s) && 0 < q < |s| && (s[q] == '*' || s[q] == '/')
    requires TermLoop(s, Next(s, q).token, Next(s, q).next, acc).Parsed?
    ensures IsOperator(Before(s, q + 1)) && UnitAt(s, q + 1).Parsed?
    ensures s[q] == '/' ==> UnitAt(s, q + 1).value != 0
    ensures var u := UnitAt(s, q + 1);
      TermLoop(s, Next(s, q).token, Next(s, q).next, acc)
      == TermLoop(s, Next(s, u.next).token, Next(s, u.next).next,
                  if s[q] == '*' then acc * u.value else TruncDiv(acc, u.value))
  {
    NextSymbol(s, q);
  }

  /** How the loop of `evaluate` goes on after `+` or `-`: the term after the operator is read,
      and the loop continues after that term with the new value. */
  lemma SumStepReads(s: seq<char>, q: nat, acc: int)
    requires Fits(s) && 0 < q < |s| && (s[q] == '+' || s[q] == '-')
    requires ExprLoop(s, Next(s, q).token, Next(s, q).next, acc).Parsed?
    ensures IsOperator(Before(s, q + 1)) && TermAt(s, q + 1).Parsed?
    ensures var w := TermAt(s, q + 1);
      ExprLoop(s, Next(s, q).token, Next(s, q).next, acc)
      == ExprLoop(s, Next(s, w.next).token, Next(s, w.next).next,
                  if s[q] == '+' then acc + w.value else acc - w.value)
  {
    NextSymbol(s, q);
  }

  /** One step of that loop: `*`, an unsigned unit and the remaining factors. */
  lemma {:induction false} TimesTree(s: seq<char>, q: nat, acc: int) returns (f: Factors)
    requires Fits(s) && 0 < q < |s| && s[q] == '*'
    requires TermLoop(s, Next(s, q).token, Next(s, q).next, acc).Parsed?
    ensures FactorsOk(f) && FactorsPlain(f) && At(s, q, PrintFactors(f))
    ensures var r := TermLoop(s, Next(s, q).token, Next(s, q).next, acc);
      r.next == q + |PrintFactors(f)| && FactorsValue(acc, f) == Ok(r.value) && TermFollows(s, r.next)
    decreases |s| - q, 1
  {
    FactorStepReads(s, q, acc);
    hide *;
    var v := UnitTree(s, q + 1);
    var u := UnitAt(s, q + 1);
    var q' := q + 1 + |PrintUnit(v)|;
    UnitShape(v);
    AtLast(s, q + 1, PrintUnit(v));
    assert Unsigned(v);
    var acc' := acc * u.value;
    var rest := FactorsTree(s, q', acc');
    f := Times(v, rest);
    FactorStep(acc, f);
    StepJoin(s, q, PrintUnit(v), PrintFactors(rest));
  }

  /** One step of that loop: `/`, a non-zero unsigned unit and the remaining factors. */
  lemma {:induction false} OverTree(s: seq<char>, q: nat, acc: int) returns (f: Factors)
    requires Fits(s) && 0 < q < |s| && s[q] == '/'
    requires TermLoop(s, Next(s, q).token, Next(s, q).next, acc).Parsed?
    ensures FactorsOk(f) && FactorsPlain(f) && At(s, q, PrintFactors(f))
    ensures var r := TermLoop(s, Next(s, q).token, Next(s, q).next, acc);
      r.next == q + |PrintFactors(f)| && FactorsValue(acc, f) == Ok(r.value) && TermFollows(s, r.next)
    decreases |s| - q, 1
  {
    FactorStepReads(s, q, acc);
    hide *;
    var v := UnitTree(s, q + 1);
    var u := UnitAt(s, q + 1);
    var q' := q + 1 + |PrintUnit(v)|;
    UnitShape(v);
    AtLast(s, q + 1, PrintUnit(v));
    assert Unsigned(v);
    var acc' := TruncDiv(acc, u.value);
    var rest := FactorsTree(s, q', acc');
    f := Over(v, rest);
    FactorStep(acc, f);
    StepJoin(s, q, PrintUnit(v), PrintFactors(rest));
  }

  /** How a `*` or `/` step of a tree is made, written out, and what it does to the value so
      far. */
  lemma FactorStep(acc: int, f: Factors)
    requires (f.Times? || f.Over?) && UnitOk(f.unit) && FactorsOk(f.rest) && UnitValue(f.unit).Ok?
    requires f.Over? ==> UnitValue(f.unit).value != 0
    ensures FactorsOk(f)
    ensures FactorsPlain(f) <==> Unsigned(f.unit) && UnitPlain(f.unit) && FactorsPlain(f.rest)
    ensures PrintFactors(f) == [if f.Times? then '*' else '/'] + PrintUnit(f.unit) + PrintFactors(f.rest)
    ensures var w := UnitValue(f.unit).value;
      FactorsValue(acc, f) == FactorsValue(if f.Times? then acc * w else TruncDiv(acc, w), f.rest)
  {
  }

  /** How a `+` or `-` step of a tree is made, written out, and what it does to the value so
      far. */
  lemma SumStep(acc: int, m: Sums)
    requires (m.Plus? || m.Minus?) && TermOk(m.term) && SumsOk(m.rest) && TermValue(m.term).Ok?
    ensures SumsOk(m)
    ensures SumsPlain(m) <==> Unsigned(m.term.head) && TermPlain(m.term) && SumsPlain(m.rest)
    ensures PrintSums(m) == [if m.Plus? then '+' else '-'] + PrintTerm(m.term) + PrintSums(m.rest)
    ensures var w := TermValue(m.term).value;
      SumsValue(acc, m) == SumsValue(if m.Plus? then acc + w else acc - w, m.rest)
  {
  }

  /** Where a text occurs, its last character is found. */
  lemma AtLast(text: seq<char>, pos: nat, a: seq<char>)
    requires At(text, pos, a) && a != []
    ensures pos + |a| <= |text| && text[pos + |a| - 1] == a[|a| - 1]
  {
  }

  /** An operator followed by the texts of its operand and of what comes after. */
  lemma StepJoin(s: seq<char>, q: nat, a: seq<char>, b: seq<char>)
    requires q < |s| && At(s, q + 1, a) && At(s, q + 1 + |a|, b)
    ensures At(s, q, [s[q]] + a + b)
  {
    AtJoin(s, q, [s[q]], a);
    AtJoin(s, q, [s[q]] + a, b);
  }

  /** `getTerm`, when it succeeds on such a text, has read a written-out plain term. */
  lemma {:induction false} TermTree(s: seq<char>, pos: nat) returns (t: Term)
    requires Fits(s) && pos <= |s| && TermAt(s, pos).Parsed?
    ensures TermOk(t) && TermPlain(t)
    ensures IsOperator(Before(s, pos)) ==> Unsigned(t.head)
    ensures At(s, pos, PrintTerm(t)) && TermAt(s, pos).next == pos + |PrintTerm(t)|
    ensures TermValue(t) == Ok(TermAt(s, pos).value)
    ensures TermFollows(s, TermAt(s, pos).next)
    decreases |s| - pos, 3
  {
    var h := UnitTree(s, pos);
    var q := pos + |PrintUnit(h)|;
    UnitShape(h);
    assert s[q - 1] == PrintUnit(h)[|PrintUnit(h)| - 1];
    var f := FactorsTree(s, q, UnitAt(s, pos).value);
    t := Term(h, f);
    AtJoin(s, pos, PrintUnit(h), PrintFactors(f));
  }

  /** The loop of `evaluate`, entered after a term that ends at `q`, has read written-out plain
      remaining terms; it stops at the end of the text or before `)`. */
  lemma {:induction false} SumsTree(s: seq<char>, q: nat, acc: int) returns (m: Sums)
    requires Fits(s) && 0 < q <= |s| && EndsUnit(s[q - 1]) && TermFollows(s, q)
    requires ExprLoop(s, Next(s, q).token, Next(s, q).next, acc).Parsed?
    ensures SumsOk(m) && SumsPlain(m) && At(s, q, PrintSums(m))
    ensures var r := ExprLoop(s, Next(s, q).token, Next(s, q).next, acc);
      r.next == q + |PrintSums(m)| && SumsValue(acc, m) == Ok(r.value) && ExprFollows(s, r.next)
    decreases |s| - q, 4
  {
    NextIn(s, q);
    hide Next;
    if q < |s| && (s[q] == '+' || s[q] == '-') {
      if s[q] == '+' {
        m := PlusTree(s, q, acc);
      } else {
        m := MinusTree(s, q, acc);
      }
    } else {
      m := NoSum;
    }
  }

  /** One step of that loop: `+`, a term with an unsigned first unit and the remaining terms. */
  lemma {:induction false} PlusTree(s: seq<char>, q: nat, acc: int) returns (m: Sums)
    requires Fits(s) && 0 < q < |s| && s[q] == '+'
    requires ExprLoop(s, Next(s, q).token, Next(s, q).next, acc).Parsed?
    ensures SumsOk(m) && SumsPlain(m) && At(s, q, PrintSums(m))
    ensures var r := ExprLoop(s, Next(s, q).token, Next(s, q).next, acc);
      r.next == q + |PrintSums(m)| && SumsValue(acc, m) == Ok(r.value) && ExprFollows(s, r.next)
    decreases |s| - q, 3
  {
    SumStepReads(s, q, acc);
    hide *;
    var t := TermTree(s, q + 1);
    var w := TermAt(s, q + 1);
    var q' := q + 1 + |PrintTerm(t)|;
    TermShape(t);
    AtLast(s, q + 1, PrintTerm(t));
    assert Unsigned(t.head);
    var acc' := acc + w.value;
    var rest := SumsTree(s, q', acc');
    m := Plus(t, rest);
    SumStep(acc, m);
    StepJoin(s, q, PrintTerm(t), PrintSums(rest));
  }

  /** One step of that loop: `-`, a term with an unsigned first unit and the remaining terms. */
  lemma {:induction false} MinusTree(s: seq<char>, q: nat, acc: int) returns (m: Sums)
    requires Fits(s) && 0 < q < |s| && s[q] == '-'
    requires ExprLoop(s, Next(s, q).token, Next(s, q).next, acc).Parsed?
    ensures SumsOk(m) && SumsPlain(m) && At(s, q, PrintSums(m))
    ensures var r := ExprLoop(s, Next(s, q).token, Next(s, q).next, acc);
      r.next == q + |PrintSums(m)| && SumsValue(acc, m) == Ok(r.value) && ExprFollows(s, r.next)
    decreases |s| - q, 3
  {
    SumStepReads(s, q, acc);
    hide *;
    var t := TermTree(s, q + 1);
    var w := TermAt(s, q + 1);
    var q' := q + 1 + |PrintTerm(t)|;
    TermShape(t);
    AtLast(s, q + 1, PrintTerm(t));
    assert Unsigned(t.head);
    var acc' := acc - w.value;
    var rest := SumsTree(s, q', acc');
    m := Minus(t, rest);
    SumStep(acc, m);
    StepJoin(s, q, PrintTerm(t), PrintSums(rest));
  }

  /** `evaluate(TokenStream&)`, when it succeeds on such a text, has read a written-out plain
      expression, followed by the end of the text or `)`. */
  lemma {:induction false} ExprTree(s: seq<char>, pos: nat) returns (e: Expr)
    requires Fits(s) && pos <= |s| && ExprAt(s, pos).Parsed?
    ensures ExprOk(e) && ExprPlain(e)
    ensures At(s, pos, PrintExpr(e)) && ExprAt(s, pos).next == pos + |PrintExpr(e)|
    ensures ExprValue(e) == Ok(ExprAt(s, pos).value)
    ensures ExprFollows(s, ExprAt(s, pos).next)
    decreases |s| - pos, 5
  {
    var h := TermTree(s, pos);
    var q := pos + |PrintTerm(h)|;
    TermShape(h);
    assert s[q - 1] == PrintTerm(h)[|PrintTerm(h)| - 1];
    var m := SumsTree(s, q, TermAt(s, pos).value);
    e := Expr(h, m);
    AtJoin(s, pos, PrintTerm(h), PrintSums(m));
  }

  /** The pair rules, which hold on every text `validate` accepts, position by position. */
  lemma AcceptedFits(s: seq<char>)
    requires WellFormed(s)
    ensures Fits(s)
  {
    PairsOkAt('(', s);
  }

  /** A balanced text never holds a `)` right after a balanced prefix: that brace would close
      one never opened. */
  lemma NoCloseAfterBalanced(s: seq<char>, n: nat)
    requires Braces.Balanced(s, '(', ')') && n < |s| && Braces.Balanced(s[..n], '(', ')')
    ensures s[n] != ')'
  {
    Braces.NeverBelowZeroPrefix(s, n + 1, '(', ')');
    assert s[..n + 1][..n] == s[..n];
  }

  /** On a text `validate` accepts, a successful evaluation reads the whole text, and the text
      is a written-out plain tree whose standard value is the result. */
  lemma AcceptedEvaluated(s: seq<char>)
    requires WellFormed(s) && ExprAt(s, 0).Parsed?
    ensures ExprAt(s, 0).next == |s|
    ensures exists e :: ExprOk(e) && ExprPlain(e) && PrintExpr(e) == s && ExprValue(e) == Ok(ExprAt(s, 0).value)
  {
    AcceptedFits(s);
    var e := ExprTree(s, 0);
    var n := |PrintExpr(e)|;
    AtSlice(s, 0, PrintExpr(e));
    assert s[0..n] == s[..n];
    if n < |s| {
      ExprAccepted(e);
      NoCloseAfterBalanced(s, n);
    }
    assert s[..n] == s;
  }
}
