/** `Expression`: validates its text once, evaluates it on demand with the fused recursive-descent
    evaluator over a `TokenStream`, and caches the result. */
module Calculator {
  import opened Outcomes
  import opened Lexical
  import opened Tokens
  import opened Evaluation
  import Validator

  /** `std::numeric_limits<int>::min()`, returned when there is no value. */
  const IntMin: int := -0x8000_0000

  /** What an expression line comes to. */
  datatype Verdict = Invalid | Evaluated(value: int) | Failed(failure: Failure)

  /** The whole pipeline on one line: the compressed text is validated, and a valid line is
      evaluated over its raw text. */
  function VerdictOf(raw: seq<char>): Verdict {
    if !Validator.WellFormed(Strip(raw)) then Invalid
    else
      match ExprAt(raw, 0)
      case Parsed(v, _) => Evaluated(v)
      case Aborted(f) => Failed(f)
  }

  class Expression {
    /** The raw text, whitespace included. */
    const expression: seq<char>
    var valid: bool
    var evaluated: bool
    var value: int

    /** `valid` is settled by the validator and lowered by a failed evaluation; `evaluated`
        implies `valid` and that `value` is the result. */
    ghost predicate Valid()
      reads this
    {
      && (evaluated ==> valid)
      && (valid ==> VerdictOf(expression) != Invalid)
      && (evaluated ==> VerdictOf(expression) == Evaluated(value))
      && (!valid ==> !VerdictOf(expression).Evaluated?)
    }

    constructor (exp: seq<char>)
      ensures Valid() && expression == exp
      ensures valid == Validator.WellFormed(Strip(exp)) && !evaluated
    {
      expression := exp;
      valid := false;
      evaluated := false;
      value := 0;
      new;
      var ok := Validate(expression);
      valid := ok;
      evaluated := false;
    }

    /** The private `validate`: runs the validator on the compressed text unless the expression
        is already known to be valid. */
    method Validate(expr: seq<char>) returns (ok: bool)
      modifies this`valid
      ensures ok == valid
      ensures valid == (old(valid) || Validator.WellFormed(Strip(expr)))
    {
      if !valid {
        var compressed := Compress(expr);
        valid := Validator.Validate(compressed);
      }
      ok := valid;
    }

    /** `isValid`: a valid expression has passed the validator; an invalid one has no value. */
    function IsValid(): (b: bool)
      requires Valid()
      reads this
      ensures b ==> Validator.WellFormed(Strip(expression))
      ensures !b ==> !VerdictOf(expression).Evaluated?
    {
      valid
    }

    /** `isEvaluated`: an evaluated expression is valid and `value` is its result. */
    function IsEvaluated(): (b: bool)
      requires Valid()
      reads this
      ensures b ==> IsValid() && VerdictOf(expression) == Evaluated(value)
    {
      evaluated
    }

    /** The public `evaluate`: the cached value once evaluated; otherwise evaluates the raw text,
        caching the result, or on failure marks the expression invalid and returns `IntMin`. */
    method Evaluate() returns (r: int)
      requires Valid()
      modifies this
      ensures Valid()
      ensures old(valid) && old(evaluated) ==> r == value && unchanged(this)
      ensures !old(valid) ==> r == IntMin && unchanged(this)
      ensures old(valid) && !old(evaluated) ==>
        match VerdictOf(expression)
        case Evaluated(v) => r == v && valid && evaluated && value == v
        case _ => r == IntMin && !valid && !evaluated && value == old(value)
    {
      if valid {
        if !evaluated {
          var tokenStream := new TokenStream(expression);
          var res := EvaluateStream(tokenStream);
          if res.Ok? {
            value := res.value;
            evaluated := true;
            return value;
          }
          valid := false;
          evaluated := false;
        } else {
          return value;
        }
      }
      return IntMin;
    }

    /** The private `evaluate(TokenStream&)`: a term, then the loop over `+` and `-`. */
    method EvaluateStream(ts: TokenStream) returns (r: Result<int>)
      requires ts.Valid()
      modifies ts
      ensures ts.Valid()
      ensures r == Value(ExprAt(ts.text, old(ts.pos)))
      ensures r.Ok? ==> ts.pos == ExprAt(ts.text, old(ts.pos)).next
      decreases |ts.text| - ts.pos, 3
    {
      var term := GetTerm(ts);
      if term.Err? {
        return term;
      }
      var t := ts.NextToken();
      r := SumTerms(ts, t, term.value);
    }

    /** The loop of `evaluate`, from the token `t0` just read and the value `val0` so far: each
        `+` or `-` is followed by a term that is added or subtracted; the sentinel ends the loop,
        and any other token is put back and ends it. */
    method SumTerms(ts: TokenStream, t0: Token, val0: int) returns (r: Result<int>)
      requires ts.Valid() && (t0 != Sentinel ==> 0 < ts.pos)
      modifies ts
      ensures ts.Valid()
      ensures r == Value(ExprLoop(ts.text, t0, old(ts.pos), val0))
      ensures r.Ok? ==> ts.pos == ExprLoop(ts.text, t0, old(ts.pos), val0).next
      decreases |ts.text| - ts.pos, 2
    {
      ghost var start := ts.pos;
      ghost var goal := ExprLoop(ts.text, t0, start, val0);
      var t, val := t0, val0;
      while t != Sentinel
        invariant ts.Valid() && start <= ts.pos && (t != Sentinel ==> 0 < ts.pos)
        invariant goal == ExprLoop(ts.text, t, ts.pos, val)
        decreases |ts.text| - ts.pos
      {
        if t.kind == '+' || t.kind == '-' {
          var term := GetTerm(ts);
          if term.Err? {
            return term;
          }
          val := if t.kind == '+' then val + term.value else val - term.value;
          t := ts.NextToken();
        } else {
          ts.PutBack(t);
          return Ok(val);
        }
      }
      return Ok(val);
    }

    /** The private `getTerm`. */
    method GetTerm(ts: TokenStream) returns (r: Result<int>)
      requires ts.Valid()
      modifies ts
      ensures ts.Valid()
      ensures r == Value(TermAt(ts.text, old(ts.pos)))
      ensures r.Ok? ==> ts.pos == TermAt(ts.text, old(ts.pos)).next
      decreases |ts.text| - ts.pos, 1
    {
      ghost var start := ts.pos;
      ghost var goal := TermAt(ts.text, start);
      var unit := GetUnitTerm(ts);
      if unit.Err? {
        return unit;
      }
      var val := unit.value;
      var t := ts.NextToken();
      while t != Sentinel
        invariant ts.Valid() && start < ts.pos
        invariant goal == TermLoop(ts.text, t, ts.pos, val)
        decreases |ts.text| - ts.pos
      {
        if t.GetValue() == '*' as int {
          unit := GetUnitTerm(ts);
          if unit.Err? {
            return unit;
          }
          val := val * unit.value;
          t := ts.NextToken();
        } else if t.GetValue() == '/' as int {
          var i := GetUnitTerm(ts);
          if i.Err? {
            return i;
          }
          if i.value == 0 {
            return Err(DivByZero);
          }
          val := TruncDiv(val, i.value);
          t := ts.NextToken();
        } else {
          ts.PutBack(t);
          return Ok(val);
        }
      }
      return Ok(val);
    }

    /** The private `getUnitTerm`. */
    method GetUnitTerm(ts: TokenStream) returns (r: Result<int>)
      requires ts.Valid()
      modifies ts
      ensures ts.Valid()
      ensures r == Value(UnitAt(ts.text, old(ts.pos)))
      ensures r.Ok? ==> ts.pos == UnitAt(ts.text, old(ts.pos)).next
      decreases |ts.text| - ts.pos, 0
    {
      var t := ts.NextToken();
      if IsDigit(t.kind) {
        return Ok(t.GetValue());
      }
      if t.kind == '+' {
        r := GetUnitTerm(ts);
        return;
      }
      if t.kind == '-' {
        var u := GetUnitTerm(ts);
        if u.Err? {
          return u;
        }
        return Ok(-u.value);
      }
      if t.kind == '(' {
        var val := EvaluateStream(ts);
        if val.Err? {
          return val;
        }
        t := ts.NextToken();
        if t != Symbol(')') {
          return Err(MissingClose);
        }
        return val;
      }
      return Err(BadToken);
    }
  }
}
