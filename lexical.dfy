/** Character classes of the calculator, decimal reading, and the whitespace stripper. */
module Lexical {

  const AllowedChars: set<char> := {'(', ')', '+', '-', '*', '/', '0', '1', '2', '3', '4', '5', '6', '7', '8', '9'}
  const Operators: set<char> := {'+', '-', '*', '/'}
  const NotDigits: set<char> := {'+', '-', '*', '/', '(', ')'}

  /** `isdigit` in the C locale. */
  predicate IsDigit(c: char) { '0' <= c <= '9' }

  /** `isOperator`, `isNonDigit` and `isAllowed`, written as comparisons; `ClassesAreTables`
      shows they are membership in the three tables above. */
  predicate IsOperator(c: char) { c == '+' || c == '-' || c == '*' || c == '/' }
  predicate IsNonDigit(c: char) { IsOperator(c) || c == '(' || c == ')' }
  predicate IsAllowed(c: char) { IsNonDigit(c) || IsDigit(c) }

  lemma ClassesAreTables(c: char)
    ensures IsOperator(c) <==> c in Operators
    ensures IsNonDigit(c) <==> c in NotDigits
    ensures IsAllowed(c) <==> c in AllowedChars
  {
  }

  /** `isspace` in the C locale: blank, tab, newline, vertical tab, form feed, carriage return. */
  predicate IsSpace(c: char) {
    c == ' ' || c == '\t' || c == '\n' || c == '\U{000B}' || c == '\U{000C}' || c == '\r'
  }

  /** The allowed characters are exactly the digits and the non-digit symbols, and these two
      classes are disjoint; the operators are non-digit symbols, the braces are the other two. */
  lemma ClassesPartition(c: char)
    ensures IsAllowed(c) <==> IsDigit(c) || IsNonDigit(c)
    ensures !(IsDigit(c) && IsNonDigit(c))
    ensures IsNonDigit(c) <==> IsOperator(c) || c == '(' || c == ')'
    ensures IsAllowed(c) ==> !IsSpace(c)
  {
  }

  predicate AllDigits(s: seq<char>) {
    forall i :: 0 <= i < |s| ==> IsDigit(s[i])
  }

  function DigitValue(c: char): (d: nat)
    requires IsDigit(c)
    ensures d < 10
  {
    c as int - '0' as int
  }

  /** The number a run of decimal digits denotes, read from the left as `>>` into an int does. */
  function DecimalValue(s: seq<char>): (n: nat)
    requires AllDigits(s)
  {
    if s == [] then 0 else 10 * DecimalValue(s[..|s| - 1]) + DigitValue(s[|s| - 1])
  }

  /** Leading zeros do not change the value that is read: "0013" denotes 13. */
  lemma {:induction false} LeadingZero(s: seq<char>)
    requires AllDigits(s)
    ensures AllDigits(['0'] + s) && DecimalValue(['0'] + s) == DecimalValue(s)
  {
    if s != [] {
      var t := ['0'] + s;
      assert t[..|t| - 1] == ['0'] + s[..|s| - 1];
      LeadingZero(s[..|s| - 1]);
    }
  }

  /** A run of `k` digits denotes a number below 10^k, so a longer run can only be larger
      when it does not start with zero. */
  function Pow10(k: nat): (p: nat)
    ensures p >= 1
  {
    if k == 0 then 1 else 10 * Pow10(k - 1)
  }

  lemma {:induction false} DecimalValueBound(s: seq<char>)
    requires AllDigits(s)
    ensures DecimalValue(s) < Pow10(|s|)
  {
    if s != [] {
      DecimalValueBound(s[..|s| - 1]);
    }
  }

  /** The text with every whitespace character removed; the specification of `compress`. */
  function Strip(s: seq<char>): (r: seq<char>)
    ensures |r| <= |s|
    ensures forall i :: 0 <= i < |r| ==> !IsSpace(r[i])
  {
    if s == [] then []
    else if IsSpace(s[|s| - 1]) then Strip(s[..|s| - 1])
    else Strip(s[..|s| - 1]) + [s[|s| - 1]]
  }

  /** `compress`: copies every character that is not whitespace, in order. */
  method Compress(expression: seq<char>) returns (ret: seq<char>)
    ensures ret == Strip(expression)
  {
    ret := [];
    for i := 0 to |expression|
      invariant ret == Strip(expression[..i])
    {
      assert expression[..i + 1][..i] == expression[..i];
      if !IsSpace(expression[i]) {
        ret := ret + [expression[i]];
      }
    }
    assert expression[..|expression|] == expression;
  }

  /** Stripping keeps the order of the kept characters: it distributes over concatenation. */
  lemma {:induction false} StripConcat(a: seq<char>, b: seq<char>)
    ensures Strip(a + b) == Strip(a) + Strip(b)
    decreases |b|
  {
    if b == [] {
      assert a + b == a;
    } else {
      var b' := b[..|b| - 1];
      assert (a + b)[..|a + b| - 1] == a + b';
      StripConcat(a, b');
    }
  }

  /** Stripping drops exactly the whitespace: every other character keeps its number of
      occurrences, and whitespace keeps none. */
  lemma {:induction false} StripCounts(s: seq<char>, c: char)
    ensures multiset(Strip(s))[c] == if IsSpace(c) then 0 else multiset(s)[c]
  {
    if s != [] {
      var s' := s[..|s| - 1];
      assert s == s' + [s[|s| - 1]];
      StripCounts(s', c);
    }
  }

  /** A text without whitespace is left as it is; in particular stripping is idempotent. */
  lemma {:induction false} StripNoSpace(s: seq<char>)
    requires forall i :: 0 <= i < |s| ==> !IsSpace(s[i])
    ensures Strip(s) == s
  {
    if s != [] {
      StripNoSpace(s[..|s| - 1]);
    }
  }
}
