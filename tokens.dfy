/** `Token` and `TokenStream`: a cursor over the text that yields one token at a time. */
module Tokens {
  import opened Lexical

  /** A token is a type character and a value, as in the source: a literal's type is its first
      digit and its value the number read; any other token carries its own character code. */
  datatype Token = Token(kind: char, val: int) {

    /** `getValue`: the value for a literal, the character code of the type otherwise. */
    function GetValue(): int {
      if IsDigit(kind) then val else kind as int
    }
  }

  /** The one-character constructor `Token(ch)`. */
  function Symbol(ch: char): Token {
    Token(ch, ch as int)
  }

  /** `dummyToken`: end of input, or a character that is not allowed. */
  const Sentinel: Token := Symbol('|')

  /** A symbol token reports its own character code, so `*` and `/` read as 42 and 47; a literal
      whose value is 42 reports the same number as `*`. */
  lemma SymbolValue(ch: char)
    requires IsNonDigit(ch)
    ensures Symbol(ch).GetValue() == ch as int
    ensures Symbol('*').GetValue() == 42 && Symbol('/').GetValue() == 47
    ensures Token('4', 42).GetValue() == Symbol('*').GetValue() && Token('4', 42) != Symbol('*')
  {
  }

  /** A token read from the text and the cursor after it. */
  datatype Read = Read(token: Token, next: nat)

  /** The end of the maximal run of digits that starts at `pos`. */
  function DigitRunEnd(text: seq<char>, pos: nat): (e: nat)
    requires pos <= |text|
    ensures pos <= e <= |text|
    ensures e < |text| ==> !IsDigit(text[e])
    decreases |text| - pos
  {
    if pos < |text| && IsDigit(text[pos]) then DigitRunEnd(text, pos + 1) else pos
  }

  /** Every character of the run is a digit. */
  lemma {:induction false} DigitRunDigits(text: seq<char>, pos: nat)
    requires pos <= |text|
    ensures forall i :: pos <= i < DigitRunEnd(text, pos) ==> IsDigit(text[i])
    decreases |text| - pos
  {
    if pos < |text| && IsDigit(text[pos]) {
      DigitRunDigits(text, pos + 1);
    }
  }

  /** The number the characters `text[pos..e]` denote when read as decimal digits in place,
      the way `>>` accumulates them. */
  function RunValue(text: seq<char>, pos: nat, e: nat): int
    requires pos <= e <= |text|
    decreases e - pos
  {
    if e == pos then 0 else 10 * RunValue(text, pos, e - 1) + (text[e - 1] as int - '0' as int)
  }

  /** Reading the digits in place gives their decimal value. */
  lemma {:induction false} RunValueIsDecimal(text: seq<char>, pos: nat, e: nat)
    requires pos <= e <= |text|
    requires forall i :: pos <= i < e ==> IsDigit(text[i])
    ensures AllDigits(text[pos..e]) && RunValue(text, pos, e) == DecimalValue(text[pos..e])
    decreases e - pos
  {
    if e > pos {
      RunValueIsDecimal(text, pos, e - 1);
      assert text[pos..e][..e - 1 - pos] == text[pos..e - 1];
    }
  }

  /** What `nextToken` returns from cursor `pos`, and where the cursor is afterwards. Whitespace
      is skipped; at the end of the text the sentinel is returned; a character that is not allowed
      is consumed and the sentinel returned; an operator or brace is a one-character token; a
      digit starts a literal that takes the whole run of digits. */
  function Next(text: seq<char>, pos: nat): (r: Read)
    requires pos <= |text|
    ensures pos <= r.next <= |text|
    ensures r.token != Sentinel ==> pos < r.next
    decreases |text| - pos
  {
    if pos == |text| then Read(Sentinel, pos)
    else if IsSpace(text[pos]) then Next(text, pos + 1)
    else if !IsAllowed(text[pos]) then Read(Sentinel, pos + 1)
    else if IsNonDigit(text[pos]) then Read(Symbol(text[pos]), pos + 1)
    else
      var e := DigitRunEnd(text, pos);
      Read(Token(text[pos], RunValue(text, pos, e)), e)
  }

  /** Past the last non-blank character only the sentinel is read, and the cursor stays at the end. */
  lemma {:induction false} NextAtEnd(text: seq<char>, pos: nat)
    requires pos <= |text|
    requires forall i :: pos <= i < |text| ==> IsSpace(text[i])
    ensures Next(text, pos) == Read(Sentinel, |text|)
    decreases |text| - pos
  {
    if pos < |text| {
      NextAtEnd(text, pos + 1);
    }
  }

  /** The token read starts at the first non-blank character: everything between the cursor and
      it is whitespace. */
  lemma {:induction false} NextStart(text: seq<char>, pos: nat) returns (p: nat)
    requires pos <= |text|
    ensures pos <= p <= |text| && forall i :: pos <= i < p ==> IsSpace(text[i])
    ensures p == |text| ==> Next(text, pos) == Read(Sentinel, p)
    ensures p < |text| ==> !IsSpace(text[p]) && Next(text, pos) == Next(text, p)
    decreases |text| - pos
  {
    if pos < |text| && IsSpace(text[pos]) {
      p := NextStart(text, pos + 1);
    } else {
      p := pos;
    }
  }

  /** An operator or brace is read as the one-character token of that character. */
  lemma NextSymbol(text: seq<char>, pos: nat)
    requires pos < |text| && IsNonDigit(text[pos])
    ensures Next(text, pos) == Read(Symbol(text[pos]), pos + 1)
  {
  }

  /** A run of digits that ends at `q` is the maximal run starting at `pos`. */
  lemma {:induction false} DigitRunEndAt(text: seq<char>, pos: nat, q: nat)
    requires pos <= q <= |text|
    requires forall i :: pos <= i < q ==> IsDigit(text[i])
    requires q < |text| ==> !IsDigit(text[q])
    ensures DigitRunEnd(text, pos) == q
    decreases q - pos
  {
    if pos < q {
      DigitRunEndAt(text, pos + 1, q);
    }
  }

  /** A maximal run of digits is read as one literal: its type is the first digit and its value
      the decimal reading of the whole run. */
  lemma NextLiteral(text: seq<char>, pos: nat, digits: seq<char>)
    requires pos + |digits| <= |text| && text[pos..pos + |digits|] == digits
    requires digits != [] && AllDigits(digits)
    requires pos + |digits| < |text| ==> !IsDigit(text[pos + |digits|])
    ensures Next(text, pos) == Read(Token(digits[0], DecimalValue(digits)), pos + |digits|)
  {
    var q := pos + |digits|;
    forall i | pos <= i < q ensures IsDigit(text[i]) {
      assert text[i] == digits[i - pos];
    }
    DigitRunEndAt(text, pos, q);
    RunValueIsDecimal(text, pos, q);
    assert text[pos] == digits[0];
  }

  /** After an operator or brace has been read, stepping back one character and reading again
      gives the same token and the same cursor: the rewind of `putBack` is exactly one character. */
  lemma PutBackRereads(text: seq<char>, pos: nat)
    requires pos <= |text|
    requires IsNonDigit(Next(text, pos).token.kind)
    ensures Next(text, pos).next >= 1
    ensures Next(text, Next(text, pos).next - 1) == Next(text, pos)
  {
    var p := NextStart(text, pos);
    assert text[p] == Next(text, pos).token.kind;
  }

  class TokenStream {
    /** The text the stream was built over. */
    const text: seq<char>
    /** The read cursor. */
    var pos: nat

    ghost predicate Valid()
      reads this
    {
      pos <= |text|
    }

    constructor (tokens: seq<char>)
      ensures Valid() && text == tokens && pos == 0
    {
      text := tokens;
      pos := 0;
    }

    /** `nextToken`. */
    method NextToken() returns (t: Token)
      requires Valid()
      modifies this`pos
      ensures Valid()
      ensures Next(text, old(pos)) == Read(t, pos)
    {
      var p := pos;
      while p < |text| && IsSpace(text[p])
        invariant pos <= p <= |text|
        invariant Next(text, p) == Next(text, pos)
      {
        p := p + 1;
      }
      if p == |text| {
        pos := p;
        return Sentinel;
      }
      var ch := text[p];
      if !IsAllowed(ch) {
        pos := p + 1;
        return Sentinel;
      }
      if IsNonDigit(ch) {
        pos := p + 1;
        return Symbol(ch);
      }
      var e, val := ReadInteger(p);
      pos := e;
      t := Token(ch, val);
    }

    /** The extraction `ss >> val` of an integer: the whole run of digits from `p` and its value. */
    method ReadInteger(p: nat) returns (e: nat, val: nat)
      requires p <= |text|
      ensures e == DigitRunEnd(text, p) && val == RunValue(text, p, e)
    {
      e, val := p, 0;
      while e < |text| && IsDigit(text[e])
        invariant p <= e <= |text|
        invariant DigitRunEnd(text, e) == DigitRunEnd(text, p)
        invariant val == RunValue(text, p, e)
      {
        val := val * 10 + DigitValue(text[e]);
        e := e + 1;
      }
    }

    /** `hasNextToken`: whether input is left. When it says no, only the sentinel can be read. */
    function HasNextToken(): (b: bool)
      requires Valid()
      reads this
      ensures !b ==> Next(text, pos).token == Sentinel
    {
      pos < |text|
    }

    /** `putBack`: rewinds the cursor by one character. */
    method PutBack(t: Token)
      requires Valid() && pos > 0
      modifies this`pos
      ensures Valid() && pos == old(pos) - 1
    {
      pos := pos - 1;
    }
  }
}
