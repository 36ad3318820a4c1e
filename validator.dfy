/** `ExpressionValidator`: the structural filter run on the compressed text. */
module Validator {
  import opened Lexical
  import Braces

  /** `validatePair`: may `cur` follow `prev`? */
  predicate ValidPair(prev: char, cur: char) {
    if prev == ')' && IsDigit(cur) then false                       // ")digit"
    else if (prev == ')' || IsDigit(prev)) && cur == '(' then false // ")(" and "digit("
    else if (prev == '(' || IsOperator(prev)) && cur == ')' then false  // "()" and "op)"
    else if IsOperator(prev) && IsOperator(cur) then false          // "+-"
    else true
  }

  /** Every character of `s` is allowed and passes `ValidPair` after its predecessor, the first
      one after `prev`. */
  predicate PairsOk(prev: char, s: seq<char>)
    decreases |s|
  {
    s == [] || (IsAllowed(s[0]) && ValidPair(prev, s[0]) && PairsOk(s[0], s[1..]))
  }

  /** What `validate` accepts: a non-empty text with balanced braces whose characters and
      adjacent pairs pass, the first character having a virtual `(` before it. */
  predicate WellFormed(s: seq<char>) {
    |s| > 0 && Braces.Balanced(s, '(', ')') && PairsOk('(', s)
  }

  method Validate(expr: seq<char>) returns (ok: bool)
    ensures ok == WellFormed(expr)
  {
    if |expr| < 1 {
      return false;
    }
    var balanced := Braces.CheckBraceNesting(expr, '(', ')');
    if !balanced {
      return false;
    }
    var prev := '(';
    for i := 0 to |expr|
      invariant PairsOk('(', expr) == PairsOk(prev, expr[i..])
    {
      var cur := expr[i];
      assert expr[i..][0] == cur && expr[i..][1..] == expr[i + 1..];
      if !IsAllowed(cur) {
        return false;
      }
      if !ValidPair(prev, cur) {
        return false;
      }
      prev := cur;
    }
    return true;
  }

  /** Character `i` of `s` is allowed and may follow its predecessor (`prev` for the first). */
  predicate FitsAt(prev: char, s: seq<char>, i: int)
    requires 0 <= i < |s|
  {
    IsAllowed(s[i]) && ValidPair(if i == 0 then prev else s[i - 1], s[i])
  }

  /** The pair rules stated position by position: `PairsOk` holds exactly when every character
      fits at its place. */
  lemma {:induction false} PairsOkAt(prev: char, s: seq<char>)
    ensures PairsOk(prev, s) <==> forall i :: 0 <= i < |s| ==> FitsAt(prev, s, i)
    decreases |s|
  {
    if s != [] {
      var t := s[1..];
      PairsOkAt(s[0], t);
      if PairsOk(prev, s) {
        forall i | 0 <= i < |s| ensures FitsAt(prev, s, i) {
          if i > 0 {
            assert FitsAt(s[0], t, i - 1);
            assert t[i - 1] == s[i];
            assert i - 1 > 0 ==> t[i - 2] == s[i - 1];
          }
        }
      }
      if forall i :: 0 <= i < |s| ==> FitsAt(prev, s, i) {
        forall j | 0 <= j < |t| ensures FitsAt(s[0], t, j) {
          assert FitsAt(prev, s, j + 1);
          assert t[j] == s[j + 1];
          assert j > 0 ==> t[j - 1] == s[j];
        }
        assert FitsAt(prev, s, 0);
      }
    }
  }

  /** The rules split at any point of a text. */
  lemma {:induction false} PairsOkConcat(prev: char, a: seq<char>, b: seq<char>)
    requires a != []
    ensures PairsOk(prev, a + b) <==> PairsOk(prev, a) && PairsOk(a[|a| - 1], b)
    decreases |a|
  {
    assert (a + b)[0] == a[0];
    if |a| > 1 {
      assert (a + b)[1..] == a[1..] + b;
      PairsOkConcat(a[0], a[1..], b);
    } else {
      assert (a + b)[1..] == b;
    }
  }

  /** One adjacent pair that fails the rules anywhere in the text makes `validate` reject it. */
  lemma BadPairRejects(a: seq<char>, b: seq<char>)
    requires a != [] && b != [] && !ValidPair(a[|a| - 1], b[0])
    ensures !WellFormed(a + b)
  {
    PairsOkConcat('(', a, b);
  }

  /** What a well-formed text looks like: its first character is not `)`, no `)` is followed by
      a digit or `(`, no digit by `(`, no `(` or operator by `)`, and no two operators meet. */
  lemma WellFormedShape(s: seq<char>, i: int)
    requires WellFormed(s) && 0 <= i < |s| - 1
    ensures s[0] != ')'
    ensures s[i] == ')' ==> !IsDigit(s[i + 1]) && s[i + 1] != '('
    ensures IsDigit(s[i]) ==> s[i + 1] != '('
    ensures (s[i] == '(' || IsOperator(s[i])) ==> s[i + 1] != ')'
    ensures IsOperator(s[i]) ==> !IsOperator(s[i + 1])
  {
    PairsOkAt('(', s);
    assert FitsAt('(', s, 0);
    assert FitsAt('(', s, i + 1);
  }
}
