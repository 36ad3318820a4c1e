/** The fused recursive-descent evaluator, stated as functions of the text and the cursor.
    Each function gives the value and the cursor afterwards, or the failure that aborts. */
module Evaluation {
  import opened Outcomes
  import opened Lexical
  import opened Tokens

  function Abs(x: int): nat {
    if x < 0 then -x else x
  }

  /** Integer division as C++ performs it: the quotient is truncated toward zero, so the
      remainder is smaller than the divisor in magnitude and has the sign of the dividend. */
  function TruncDiv(a: int, b: int): (q: int)
    requires b != 0
    ensures Abs(a - b * q) < Abs(b)
    ensures a - b * q == 0 || (a - b * q < 0 <==> a < 0)
  {
    var m := Abs(a) / Abs(b);
    assert Abs(a) - Abs(b) * m < Abs(b);
    if (a < 0) == (b < 0) then m else -m
  }

  /** What a parsing function yields: the value and the cursor after the text it read, or the
      failure that aborts the evaluation. */
  datatype Partial = Parsed(value: int, next: nat) | Aborted(failure: Failure)

  /** `evaluate(TokenStream&)`: Expr = Term (('+'|'-') Term)*. */
  function ExprAt(text: seq<char>, pos: nat): (r: Partial)
    requires pos <= |text|
    ensures r.Parsed? ==> pos < r.next <= |text|
    decreases |text| - pos, 4
  {
    var term := TermAt(text, pos);
    if term.Aborted? then term
    else ExprLoop(text, Next(text, term.next).token, Next(text, term.next).next, term.value)
  }

  /** The loop of `evaluate`: `t` is the token just read, `p` the cursor after it and `acc`
      the value so far. A token other than `+`, `-` or the sentinel ends the loop and is put
      back, which rewinds the cursor by one character. */
  function ExprLoop(text: seq<char>, t: Token, p: nat, acc: int): (r: Partial)
    requires p <= |text| && (t != Sentinel ==> 0 < p)
    ensures r.Parsed? ==> r.next <= |text|
    ensures r.Parsed? && t == Sentinel ==> r.next == p
    ensures r.Parsed? && t != Sentinel ==> p - 1 <= r.next
    decreases |text| - p, 3
  {
    if t == Sentinel then Parsed(acc, p)
    else if t.kind == '+' || t.kind == '-' then
      var term := TermAt(text, p);
      if term.Aborted? then term
      else
        var v := if t.kind == '+' then acc + term.value else acc - term.value;
        ExprLoop(text, Next(text, term.next).token, Next(text, term.next).next, v)
    else Parsed(acc, p - 1)
  }

  /** `getTerm`: Term = Unit (('*'|'/') Unit)*. */
  function TermAt(text: seq<char>, pos: nat): (r: Partial)
    requires pos <= |text|
    ensures r.Parsed? ==> pos < r.next <= |text|
    decreases |text| - pos, 2
  {
    var unit := UnitAt(text, pos);
    if unit.Aborted? then unit
    else TermLoop(text, Next(text, unit.next).token, Next(text, unit.next).next, unit.value)
  }

  /** The loop of `getTerm`. As in the source, the operator is recognised by `GetValue`, so a
      literal whose value is the code of `*` or `/` acts as that operator. */
  function TermLoop(text: seq<char>, t: Token, p: nat, acc: int): (r: Partial)
    requires p <= |text| && (t != Sentinel ==> 0 < p)
    ensures r.Parsed? ==> r.next <= |text|
    ensures r.Parsed? && t == Sentinel ==> r.next == p
    ensures r.Parsed? && t != Sentinel ==> p - 1 <= r.next
    decreases |text| - p, 1
  {
    if t == Sentinel then Parsed(acc, p)
    else if t.GetValue() == '*' as int || t.GetValue() == '/' as int then
      var unit := UnitAt(text, p);
      if unit.Aborted? then unit
      else if t.GetValue() == '/' as int && unit.value == 0 then Aborted(DivByZero)
      else
        var v := if t.GetValue() == '*' as int then acc * unit.value else TruncDiv(acc, unit.value);
        TermLoop(text, Next(text, unit.next).token, Next(text, unit.next).next, v)
    else Parsed(acc, p - 1)
  }

  /** `getUnitTerm`: Unit = literal | '+' Unit | '-' Unit | '(' Expr ')'. */
  function UnitAt(text: seq<char>, pos: nat): (r: Partial)
    requires pos <= |text|
    ensures r.Parsed? ==> pos < r.next <= |text|
    decreases |text| - pos, 0
  {
    var t, p := Next(text, pos).token, Next(text, pos).next;
    if IsDigit(t.kind) then Parsed(t.GetValue(), p)
    else if t.kind == '+' then UnitAt(text, p)
    else if t.kind == '-' then
      var unit := UnitAt(text, p);
      if unit.Aborted? then unit else Parsed(-unit.value, unit.next)
    else if t.kind == '(' then
      var inner := ExprAt(text, p);
      if inner.Aborted? then inner
      else if Next(text, inner.next).token != Symbol(')') then Aborted(MissingClose)
      else Parsed(inner.value, Next(text, inner.next).next)
    else Aborted(BadToken)
  }

  /** A parse result with the cursor dropped: what the stream methods return. */
  function Value(r: Partial): Result<int> {
    match r
    case Parsed(v, _) => Ok(v)
    case Aborted(f) => Err(f)
  }
}
