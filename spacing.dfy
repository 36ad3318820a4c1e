/** Whitespace and the evaluator. The validator looks at the compressed text while the evaluator
    reads the raw text and skips whitespace token by token. The two readings agree, position for
    position, unless whitespace splits a run of digits: compressing joins "1 2" into the literal
    12, while the stream reads the literals 1 and 2. */
module Spacing {
  import opened Outcomes
  import opened Lexical
  import opened Tokens
  import opened Evaluation
  import opened Calculator

  predicate AllSpace(s: seq<char>) {
    forall k :: 0 <= k < |s| ==> IsSpace(s[k])
  }

  /** No whitespace stands between two digits, so compressing joins no two literals. */
  predicate NoSplitLiteral(text: seq<char>) {
    forall i, j :: 0 <= i && i + 1 < j < |text| && IsDigit(text[i]) && IsDigit(text[j]) ==>
      !AllSpace(text[i + 1..j])
  }

  /** Whitespace never directly follows a digit. */
  predicate NoSpaceAfterDigit(text: seq<char>) {
    forall k :: 0 < k < |text| && IsSpace(text[k]) ==> !IsDigit(text[k - 1])
  }

  /** A literal ends before any whitespace, so no whitespace can split one. */
  lemma NoSpaceAfterDigitSplitsNone(text: seq<char>)
    requires NoSpaceAfterDigit(text)
    ensures NoSplitLiteral(text)
  {
    forall i, j | 0 <= i && i + 1 < j < |text| && IsDigit(text[i]) && IsDigit(text[j])
      ensures !AllSpace(text[i + 1..j])
    {
      assert text[i + 1..j][0] == text[i + 1];
    }
  }

  /** Where cursor `p` of the raw text lands in the compressed text: the number of characters
      before it that are not whitespace. */
  function Count(text: seq<char>, p: nat): (c: nat)
    requires p <= |text|
    ensures c <= |Strip(text)|
    ensures 0 < p && !IsSpace(text[p - 1]) ==> 0 < c
  {
    StripConcat(text[..p], text[p..]);
    assert text[..p] + text[p..] == text;
    assert 0 < p ==> text[..p][..p - 1] == text[..p - 1];
    |Strip(text[..p])|
  }

  lemma CountAll(text: seq<char>)
    ensures Count(text, |text|) == |Strip(text)|
  {
    assert text[..|text|] == text;
  }

  /** A character that is not whitespace is copied to the position the count gives. */
  lemma CountStep(text: seq<char>, p: nat)
    requires p < |text|
    ensures Count(text, p + 1) == if IsSpace(text[p]) then Count(text, p) else Count(text, p) + 1
    ensures !IsSpace(text[p]) ==>
      Count(text, p) < |Strip(text)| && Strip(text)[Count(text, p)] == text[p]
  {
    assert text[..p + 1][..p] == text[..p];
    StripConcat(text[..p + 1], text[p + 1..]);
    assert text[..p + 1] + text[p + 1..] == text;
  }

  lemma {:induction false} SpacesKeepCount(text: seq<char>, p: nat, q: nat)
    requires p <= q <= |text|
    requires forall i :: p <= i < q ==> IsSpace(text[i])
    ensures Count(text, q) == Count(text, p)
    decreases q - p
  {
    if p < q {
      CountStep(text, p);
      SpacesKeepCount(text, p + 1, q);
    }
  }

  /** Inside a run of digits (just after a digit) the rest of the run is the same in both texts. */
  lemma {:induction false} RunAfterDigit(text: seq<char>, p: nat)
    requires NoSplitLiteral(text)
    requires 0 < p <= |text| && IsDigit(text[p - 1])
    ensures var e := DigitRunEnd(text, p);
      && DigitRunEnd(Strip(text), Count(text, p)) == Count(text, e)
      && Count(text, e) == Count(text, p) + (e - p)
      && Strip(text)[Count(text, p)..Count(text, e)] == text[p..e]
    decreases |text| - p
  {
    hide Strip, Count;
    var s := Strip(text);
    var c := Count(text, p);
    if p == |text| {
      CountAll(text);
    } else if IsDigit(text[p]) {
      CountStep(text, p);
      RunAfterDigit(text, p + 1);
      var e := DigitRunEnd(text, p);
      assert s[c..Count(text, e)] == [s[c]] + s[c + 1..Count(text, e)];
      assert text[p..e] == [text[p]] + text[p + 1..e];
    } else if !IsSpace(text[p]) {
      CountStep(text, p);
    } else {
      var q := NextStart(text, p);
      SpacesKeepCount(text, p, q);
      if q == |text| {
        CountAll(text);
      } else {
        CountStep(text, q);
        assert AllSpace(text[p - 1 + 1..q]);
      }
    }
  }

  /** A literal in the raw text: the whole run of digits from `p`. */
  lemma RunRead(text: seq<char>, p: nat)
    requires p < |text| && IsDigit(text[p])
    ensures var e := DigitRunEnd(text, p);
      && p < e && e == DigitRunEnd(text, p + 1) && AllDigits(text[p..e])
      && Next(text, p) == Read(Token(text[p], DecimalValue(text[p..e])), e)
  {
    var e := DigitRunEnd(text, p);
    DigitRunDigits(text, p);
    NextLiteral(text, p, text[p..e]);
  }

  /** A literal is read the same way from both texts. */
  lemma NextLiteralStrip(text: seq<char>, p: nat)
    requires NoSplitLiteral(text) && p < |text| && IsDigit(text[p])
    requires Count(text, p) < |Strip(text)| && Strip(text)[Count(text, p)] == text[p]
    requires Count(text, p + 1) == Count(text, p) + 1
    ensures var r := Next(text, p);
      && Next(Strip(text), Count(text, p)) == Read(r.token, Count(text, r.next))
      && !IsSpace(text[r.next - 1])
  {
    hide Next, Strip, Count, NoSplitLiteral, DigitRunEnd;
    RunRead(text, p);
    var s := Strip(text);
    var c := Count(text, p);
    var e := DigitRunEnd(text, p);
    var digits := text[p..e];
    RunAfterDigit(text, p + 1);
    var ce := Count(text, e);
    assert s[c..ce] == [s[c]] + s[c + 1..ce];
    assert digits == [text[p]] + text[p + 1..e];
    NextLiteral(s, c, digits);
  }

  /** The stream reads the same token from the raw text as from the compressed text, and the
      cursors correspond; a token other than the sentinel ends on a character that is not
      whitespace. */
  lemma {:induction false} NextStrip(text: seq<char>, p: nat)
    requires NoSplitLiteral(text) && p <= |text|
    ensures var r := Next(text, p);
      && Next(Strip(text), Count(text, p)) == Read(r.token, Count(text, r.next))
      && (r.token != Sentinel ==> !IsSpace(text[r.next - 1]))
    decreases |text| - p
  {
    hide Strip, Count, NoSplitLiteral;
    if p == |text| {
      CountAll(text);
    } else if IsSpace(text[p]) {
      CountStep(text, p);
      NextStrip(text, p + 1);
    } else {
      CountStep(text, p);
      if IsAllowed(text[p]) && !IsNonDigit(text[p]) {
        NextLiteralStrip(text, p);
      }
    }
  }

  /** A result on the raw text and a result on the compressed text agree: the same failure, or
      the same value with corresponding cursors. */
  predicate Agree(text: seq<char>, r: Partial, s: Partial)
    requires r.Parsed? ==> r.next <= |text|
  {
    if r.Aborted? then s == r else s == Parsed(r.value, Count(text, r.next))
  }

  lemma {:induction false} ExprAtStrip(text: seq<char>, p: nat)
    requires NoSplitLiteral(text) && p <= |text|
    ensures Agree(text, ExprAt(text, p), ExprAt(Strip(text), Count(text, p)))
    decreases |text| - p, 4
  {
    hide Next, TermAt, ExprLoop, Strip, Count, NoSplitLiteral;
    TermAtStrip(text, p);
    var term := TermAt(text, p);
    if term.Parsed? {
      NextStrip(text, term.next);
      var n := Next(text, term.next);
      ExprLoopStrip(text, n.token, n.next, term.value);
    }
  }

  lemma {:induction false} ExprLoopStrip(text: seq<char>, t: Token, p: nat, acc: int)
    requires NoSplitLiteral(text) && p <= |text|
    requires t != Sentinel ==> 0 < p && !IsSpace(text[p - 1])
    ensures Agree(text, ExprLoop(text, t, p, acc), ExprLoop(Strip(text), t, Count(text, p), acc))
    decreases |text| - p, 3
  {
    hide Next, TermAt, Strip, Count, NoSplitLiteral;
    if t == Sentinel {
    } else if t.kind == '+' || t.kind == '-' {
      TermAtStrip(text, p);
      var term := TermAt(text, p);
      if term.Parsed? {
        NextStrip(text, term.next);
        var n := Next(text, term.next);
        var v := if t.kind == '+' then acc + term.value else acc - term.value;
        ExprLoopStrip(text, n.token, n.next, v);
      }
    } else {
      CountStep(text, p - 1);
    }
  }

  lemma {:induction false} TermAtStrip(text: seq<char>, p: nat)
    requires NoSplitLiteral(text) && p <= |text|
    ensures Agree(text, TermAt(text, p), TermAt(Strip(text), Count(text, p)))
    decreases |text| - p, 2
  {
    hide Next, UnitAt, TermLoop, Strip, Count, NoSplitLiteral;
    UnitAtStrip(text, p);
    var unit := UnitAt(text, p);
    if unit.Parsed? {
      NextStrip(text, unit.next);
      var n := Next(text, unit.next);
      TermLoopStrip(text, n.token, n.next, unit.value);
    }
  }

  lemma {:induction false} TermLoopStrip(text: seq<char>, t: Token, p: nat, acc: int)
    requires NoSplitLiteral(text) && p <= |text|
    requires t != Sentinel ==> 0 < p && !IsSpace(text[p - 1])
    ensures Agree(text, TermLoop(text, t, p, acc), TermLoop(Strip(text), t, Count(text, p), acc))
    decreases |text| - p, 1
  {
    hide Next, UnitAt, Strip, Count, NoSplitLiteral;
    if t == Sentinel {
    } else if t.GetValue() == '*' as int || t.GetValue() == '/' as int {
      UnitAtStrip(text, p);
      var unit := UnitAt(text, p);
      if unit.Parsed? && !(t.GetValue() == '/' as int && unit.value == 0) {
        NextStrip(text, unit.next);
        var n := Next(text, unit.next);
        var v := if t.GetValue() == '*' as int then acc * unit.value else TruncDiv(acc, unit.value);
        TermLoopStrip(text, n.token, n.next, v);
      }
    } else {
      CountStep(text, p - 1);
    }
  }

  lemma {:induction false} UnitAtStrip(text: seq<char>, p: nat)
    requires NoSplitLiteral(text) && p <= |text|
    ensures Agree(text, UnitAt(text, p), UnitAt(Strip(text), Count(text, p)))
    decreases |text| - p, 0
  {
    hide Next, ExprAt, Strip, Count, NoSplitLiteral;
    NextStrip(text, p);
    var n := Next(text, p);
    if IsDigit(n.token.kind) {
    } else if n.token.kind == '+' || n.token.kind == '-' {
      UnitAtStrip(text, n.next);
    } else if n.token.kind == '(' {
      ExprAtStrip(text, n.next);
      var inner := ExprAt(text, n.next);
      if inner.Parsed? {
        NextStrip(text, inner.next);
      }
    }
  }

  /** Unless whitespace splits a literal, evaluating the raw text gives the verdict that
      evaluating its compressed form gives: whitespace only separates tokens. */
  lemma WhitespaceIgnored(raw: seq<char>)
    requires NoSplitLiteral(raw)
    ensures VerdictOf(raw) == VerdictOf(Strip(raw))
  {
    ExprAtStrip(raw, 0);
    assert raw[..0] == [];
    StripNoSpace(Strip(raw));
  }
}
