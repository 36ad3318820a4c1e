/** `checkBraceNesting`: a stack scan over raw characters. */
module Braces {

  /** How one character moves the nesting depth; an opening brace is tested first. */
  function Step(c: char, open: char, close: char): int {
    if c == open then 1 else if c == close then -1 else 0
  }

  /** The nesting depth reached at the end of `s`. */
  function Net(s: seq<char>, open: char, close: char): int {
    if s == [] then 0 else Net(s[..|s| - 1], open, close) + Step(s[|s| - 1], open, close)
  }

  /** No prefix of `s` reaches a negative depth. */
  predicate NeverBelowZero(s: seq<char>, open: char, close: char) {
    s == [] || (NeverBelowZero(s[..|s| - 1], open, close) && Net(s, open, close) >= 0)
  }

  /** The running counter never goes negative and ends at zero. */
  predicate Balanced(s: seq<char>, open: char, close: char) {
    NeverBelowZero(s, open, close) && Net(s, open, close) == 0
  }

  lemma {:induction false} NeverBelowZeroPrefix(s: seq<char>, k: nat, open: char, close: char)
    requires k <= |s| && NeverBelowZero(s, open, close)
    ensures NeverBelowZero(s[..k], open, close)
    decreases |s|
  {
    if k < |s| {
      assert s[..|s| - 1][..k] == s[..k];
      NeverBelowZeroPrefix(s[..|s| - 1], k, open, close);
    } else {
      assert s[..k] == s;
    }
  }

  method CheckBraceNesting(str: seq<char>, openBrace: char, closedBrace: char) returns (ok: bool)
    ensures ok == Balanced(str, openBrace, closedBrace)
  {
    var st: seq<char> := [];
    for i := 0 to |str|
      invariant NeverBelowZero(str[..i], openBrace, closedBrace)
      invariant |st| == Net(str[..i], openBrace, closedBrace)
      invariant forall j :: 0 <= j < |st| ==> st[j] == openBrace
    {
      assert str[..i + 1][..i] == str[..i];
      var ch := str[i];
      if ch == openBrace {
        st := st + [openBrace];
      } else if ch == closedBrace {
        if |st| == 0 {
          if NeverBelowZero(str, openBrace, closedBrace) {
            NeverBelowZeroPrefix(str, i + 1, openBrace, closedBrace);
          }
          return false;
        }
        st := st[..|st| - 1];
      }
    }
    assert str[..|str|] == str;
    ok := |st| == 0;
  }

  function Count(s: seq<char>, c: char): nat {
    multiset(s)[c]
  }

  lemma {:induction false} NetCounts(s: seq<char>, open: char, close: char)
    requires open != close
    ensures Net(s, open, close) == Count(s, open) - Count(s, close)
  {
    if s != [] {
      assert s == s[..|s| - 1] + [s[|s| - 1]];
      NetCounts(s[..|s| - 1], open, close);
    }
  }

  /** With two distinct brace characters, balance means: no prefix has more closing than opening
      braces, and the two totals are equal. */
  lemma {:induction false} BalancedIffCounts(s: seq<char>, open: char, close: char)
    requires open != close
    ensures Balanced(s, open, close) <==>
      (forall k :: 0 <= k <= |s| ==> Count(s[..k], close) <= Count(s[..k], open))
      && Count(s, open) == Count(s, close)
  {
    NetCounts(s, open, close);
    if Balanced(s, open, close) {
      forall k | 0 <= k <= |s| ensures Count(s[..k], close) <= Count(s[..k], open) {
        NeverBelowZeroPrefix(s, k, open, close);
        NetCounts(s[..k], open, close);
        assert k > 0 ==> s[..k][..k - 1] == s[..k - 1];
      }
    }
    if (forall k :: 0 <= k <= |s| ==> Count(s[..k], close) <= Count(s[..k], open)) {
      PrefixCountsNeverBelowZero(s, open, close);
    }
  }

  lemma {:induction false} PrefixCountsNeverBelowZero(s: seq<char>, open: char, close: char)
    requires open != close
    requires forall k :: 0 <= k <= |s| ==> Count(s[..k], close) <= Count(s[..k], open)
    ensures NeverBelowZero(s, open, close)
  {
    if s != [] {
      var s' := s[..|s| - 1];
      forall k | 0 <= k <= |s'| ensures Count(s'[..k], close) <= Count(s'[..k], open) {
        assert s'[..k] == s[..k];
      }
      PrefixCountsNeverBelowZero(s', open, close);
      assert s[..|s|] == s;
      NetCounts(s, open, close);
    }
  }

  /** Depth adds up over concatenation. */
  lemma {:induction false} NetConcat(a: seq<char>, b: seq<char>, open: char, close: char)
    ensures Net(a + b, open, close) == Net(a, open, close) + Net(b, open, close)
    decreases |b|
  {
    if b == [] {
      assert a + b == a;
    } else {
      assert (a + b)[..|a + b| - 1] == a + b[..|b| - 1];
      NetConcat(a, b[..|b| - 1], open, close);
    }
  }

  lemma {:induction false} NeverBelowZeroConcat(a: seq<char>, b: seq<char>, open: char, close: char)
    requires NeverBelowZero(a, open, close) && Net(a, open, close) >= 0
    requires NeverBelowZero(b, open, close)
    ensures NeverBelowZero(a + b, open, close)
    decreases |b|
  {
    if b == [] {
      assert a + b == a;
    } else {
      var b' := b[..|b| - 1];
      assert (a + b)[..|a + b| - 1] == a + b';
      NeverBelowZeroConcat(a, b', open, close);
      NetConcat(a, b, open, close);
    }
  }

  /** A text without either brace character is balanced: the depth stays at zero. */
  lemma {:induction false} NoBracesBalanced(s: seq<char>, open: char, close: char)
    requires forall i :: 0 <= i < |s| ==> s[i] != open && s[i] != close
    ensures Balanced(s, open, close)
  {
    if s != [] {
      NoBracesBalanced(s[..|s| - 1], open, close);
    }
  }

  /** Putting two balanced texts side by side keeps them balanced. */
  lemma BalancedConcat(a: seq<char>, b: seq<char>, open: char, close: char)
    requires Balanced(a, open, close) && Balanced(b, open, close)
    ensures Balanced(a + b, open, close)
  {
    NeverBelowZeroConcat(a, b, open, close);
    NetConcat(a, b, open, close);
  }

  /** Wrapping a balanced text in a brace pair keeps it balanced. */
  lemma BalancedWrap(s: seq<char>, open: char, close: char)
    requires open != close && Balanced(s, open, close)
    ensures Balanced([open] + s + [close], open, close)
  {
    assert [open][..0] == [];
    assert Net([open], open, close) == 1;
    NetConcat([open], s, open, close);
    NeverBelowZeroConcat([open], s, open, close);
    var t := [open] + s;
    assert (t + [close])[..|t|] == t;
    assert Net(t + [close], open, close) == 0;
  }
}
