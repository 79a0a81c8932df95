/** The lexer (ml/lex.c:73-235): a maximal-munch state machine, and numerals. */
module MlLexer {

  /** Kinds of token.  Bad stands for the place where the lexer gives up (exit(1)). */
  datatype Kind = Eof | Int | Word | Sym | Bad
  datatype Token = Token(kind: Kind, str: string)

  predicate IsSym(c: char) {
    || c == '<' || c == '>' || c == '+' || c == '-' || c == '*' || c == '/' || c == '(' || c == ')'
    || c == '=' || c == ':' || c == '|' || c == ';' || c == '.'
  }

  predicate IsLetter(c: char) {
    'A' <= c <= 'Z' || 'a' <= c <= 'z'
  }

  predicate IsDigit(c: char) {
    '0' <= c <= '9'
  }

  predicate IsSpace(c: char) {
    c == ' ' || c == '\t' || c == '\n' || c == '\r'
  }

  /** The kind of token that c starts. */
  function KindOf(c: char): Kind {
    if IsSym(c) then Sym else if IsLetter(c) then Word else if IsDigit(c) then Int else Bad
  }

  /** c goes on with a token of the kind: after a symbol only '>' and ':' do. */
  predicate Continues(kind: Kind, c: char) {
    match kind
    case Sym => c == '>' || c == ':'
    case Word => IsLetter(c)
    case Int => IsDigit(c)
    case _ => false
  }

  // ---------------------------------------------------------------- what a token is

  /** The first position from i on that is not white space. */
  function Skip(s: string, i: nat): (j: nat)
    requires i <= |s|
    ensures i <= j <= |s| && (j < |s| ==> !IsSpace(s[j]))
    decreases |s| - i
  {
    if i < |s| && IsSpace(s[i]) then Skip(s, i + 1) else i
  }

  /** The end of the longest run from i on that goes on with a token of the kind. */
  function Munch(kind: Kind, s: string, i: nat): (j: nat)
    requires i <= |s|
    ensures i <= j <= |s| && (j < |s| ==> !Continues(kind, s[j]))
    ensures forall k :: i <= k < j ==> Continues(kind, s[k])
    decreases |s| - i
  {
    if i < |s| && Continues(kind, s[i]) then Munch(kind, s, i + 1) else i
  }

  datatype Lexeme = Lexeme(token: Token, next: nat) | Unrecognised

  /** The token that starts at or after i, and where it ends. */
  function LexAt(s: string, i: nat): (r: Lexeme)
    requires i <= |s|
    ensures r.Lexeme? ==> i <= r.next <= |s| && (r.token.kind != Eof ==> i < r.next) && r.token.kind != Bad
  {
    var j := Skip(s, i);
    if j == |s| then Lexeme(Token(Eof, ""), j)
    else if KindOf(s[j]) == Bad then Unrecognised
    else var k := Munch(KindOf(s[j]), s, j + 1); Lexeme(Token(KindOf(s[j]), s[j..k]), k)
  }

  /** All tokens from i on, up to the end or to the first character the lexer does not know. */
  function Tokens(s: string, i: nat): (ts: seq<Token>)
    requires i <= |s|
    ensures |ts| > 0
    decreases |s| - i
  {
    match LexAt(s, i)
    case Unrecognised => [Token(Bad, "")]
    case Lexeme(t, next) => if t.kind == Eof then [t] else [t] + Tokens(s, next)
  }

  /** Past the last token there is only the end. */
  lemma EndStays(s: string, i: nat)
    requires i <= |s| && LexAt(s, i).Lexeme? && LexAt(s, i).token.kind == Eof
    ensures LexAt(s, i) == Lexeme(Token(Eof, ""), |s|) && LexAt(s, |s|) == LexAt(s, i)
  {
  }

  lemma SpaceStartsNothing(c: char)
    ensures IsSpace(c) ==> KindOf(c) == Bad
  {
  }

  // ---------------------------------------------------------------- the state machine

  /** The lexer is within the token that starts at j. */
  ghost predicate InToken(s: string, j: nat, index: nat, t: Token) {
    && j < index <= |s|
    && t.kind == KindOf(s[j]) && t.str == s[j..index]
    && t.kind != Bad && t.kind != Eof
    && Munch(t.kind, s, index) == Munch(t.kind, s, j + 1)
  }

  function StateKind(state: int): Kind {
    if state == 1 then Sym else if state == 2 then Word else Int
  }

  lemma TokenStarts(s: string, j: nat, kind: Kind)
    requires j < |s| && kind == KindOf(s[j]) && kind != Bad && kind != Eof
    ensures InToken(s, j, j + 1, Token(kind, [s[j]]))
  {
    hide KindOf, Munch;
    assert s[j..j + 1] == [s[j]];
  }

  lemma TokenGrows(s: string, j: nat, index: nat, t: Token)
    requires index < |s| && InToken(s, j, index, t) && Continues(t.kind, s[index])
    ensures InToken(s, j, index + 1, Token(t.kind, t.str + [s[index]]))
  {
    hide KindOf, Continues;
    assert s[j..index + 1] == s[j..index] + [s[index]];
  }

  lemma TokenEnds(s: string, i: nat, j: nat, index: nat, t: Token)
    requires i <= |s| && j == Skip(s, i) && InToken(s, j, index, t)
    requires index == |s| || !Continues(t.kind, s[index])
    ensures LexAt(s, i) == Lexeme(t, index)
  {
    hide Skip, Continues, KindOf;
  }

  /** Which characters go on with the token in each state. */
  lemma StateContinues(state: int, c: char)
    ensures state == 1 ==> (Continues(StateKind(state), c) <==> c == '>' || c == ':')
    ensures state == 2 ==> (Continues(StateKind(state), c) <==> IsLetter(c))
    ensures state != 1 && state != 2 ==> (Continues(StateKind(state), c) <==> IsDigit(c))
  {
    hide IsLetter, IsDigit;
  }

  class Lexer {
    const file: string
    var index: nat
    var numTokens: nat

    constructor (file: string)
      ensures this.file == file && index == 0
    {
      this.file, this.index, this.numTokens := file, 0, 0;
    }

    /** lex: state 0 is before the token, states 1 to 3 are within a symbol, a word and a number, and
        state 5 is after it. */
    method Lex() returns (ok: bool, t: Token)
      requires index <= |file|
      modifies this
      ensures index <= |file| && numTokens == old(numTokens) + 1
      ensures ok <==> LexAt(file, old(index)).Lexeme?
      ensures ok ==> LexAt(file, old(index)) == Lexeme(t, index)
    {
      hide IsSym, IsLetter, IsDigit, IsSpace, Munch, InToken, Continues;
      t := Token(Eof, "");
      numTokens := numTokens + 1;
      var state := 0;
      ghost var j := Skip(file, index);
      while index < |file|
        invariant index <= |file| && numTokens == old(numTokens) + 1 && j == Skip(file, old(index))
        invariant state == 0 || state == 1 || state == 2 || state == 3
        invariant state == 0 ==> t == Token(Eof, "") && Skip(file, index) == j
        invariant state != 0 ==> InToken(file, j, index, t) && t.kind == StateKind(state)
        decreases |file| - index
      {
        var c := file[index];
        SpaceStartsNothing(c);
        if state == 0 {
          if IsSym(c) {
            t := Token(Sym, [c]);
            index := index + 1;
            state := 1;
            TokenStarts(file, j, Sym);
          } else if IsLetter(c) {
            t := Token(Word, [c]);
            index := index + 1;
            state := 2;
            TokenStarts(file, j, Word);
          } else if IsDigit(c) {
            t := Token(Int, [c]);
            index := index + 1;
            state := 3;
            TokenStarts(file, j, Int);
          } else if IsSpace(c) {
            index := index + 1;
          } else {
            return false, t;
          }
        } else {
          StateContinues(state, c);
          if Continues(t.kind, c) {
            TokenGrows(file, j, index, t);
          }
          if state == 1 {
            if c == '>' || c == ':' {
              t := t.(str := t.str + [c]);
              index := index + 1;
            } else {
              state := 5;
            }
          } else if state == 2 {
            if IsLetter(c) {
              t := t.(str := t.str + [c]);
              index := index + 1;
            } else {
              state := 5;
            }
          } else {
            if IsDigit(c) {
              t := t.(str := t.str + [c]);
              index := index + 1;
            } else {
              state := 5;
            }
          }
        }
        if state == 5 {
          break;
        }
      }
      ok := true;
      if t.kind != Eof {
        TokenEnds(file, old(index), j, index, t);
      }
    }
  }

  // ---------------------------------------------------------------- numerals

  function Digit(d: nat): char
    requires d < 10
  {
    '0' + d as char
  }

  function DigitValue(c: char): int {
    c as int - '0' as int
  }

  /** The decimal numeral of n. */
  function Numeral(n: nat): (s: string)
    ensures |s| > 0 && (forall i :: 0 <= i < |s| ==> IsDigit(s[i]))
  {
    if n < 10 then [Digit(n)] else Numeral(n / 10) + [Digit(n % 10)]
  }

  /** The number a string of digits stands for. */
  function NumeralValue(s: string): int {
    if s == [] then 0 else 10 * NumeralValue(s[..|s| - 1]) + DigitValue(s[|s| - 1])
  }

  lemma {:induction false} NumeralRoundTrip(n: nat)
    ensures NumeralValue(Numeral(n)) == n
  {
    if n >= 10 {
      NumeralRoundTrip(n / 10);
      assert Numeral(n)[..|Numeral(n)| - 1] == Numeral(n / 10);
    } else {
      assert Numeral(n)[..0] == [];
    }
  }

  /** A numeral starts with '0' only if it is "0". */
  lemma {:induction false} NoLeadingZero(n: nat)
    ensures Numeral(n)[0] == '0' <==> n == 0
    ensures Numeral(0) == "0"
  {
    if n >= 10 {
      NoLeadingZero(n / 10);
      assert Numeral(n)[0] == Numeral(n / 10)[0];
    }
  }

  /** The k-th value of the divisor in ml_itoa, counted from the end: 1 is the last one before 0. */
  predicate DivisorAt(k: int, j: int) {
    || (k == 0 && j == 0) || (k == 1 && j == 1) || (k == 2 && j == 10) || (k == 3 && j == 100)
    || (k == 4 && j == 1000) || (k == 5 && j == 10000) || (k == 6 && j == 100000) || (k == 7 && j == 1000000)
    || (k == 8 && j == 10000000) || (k == 9 && j == 100000000) || (k == 10 && j == 1000000000)
  }

  /** What is left of num above the digits still to be written. */
  function Prefix(num: nat, j: int): int
    requires j >= 0
  {
    if j == 0 then num else num / (10 * j)
  }

  lemma DivisorStep(num: nat, k: int, j: int)
    requires DivisorAt(k, j) && k > 0
    ensures num / j >= 0 && DivisorAt(k - 1, j / 10) && Prefix(num, j / 10) == num / j &&
              Prefix(num, j) == (num / j) / 10
  {
  }

  /** The digits of p have been written, or none if p is 0. */
  ghost predicate DigitsWritten(s: string, p: int) {
    if p <= 0 then s == [] else s == Numeral(p)
  }

  lemma NextDigit(s: string, p: nat, c: char)
    requires DigitsWritten(s, p / 10) && c == Digit(p % 10) && p != 0
    ensures DigitsWritten(s + [c], p)
  {
  }

  /** ml_itoa: the digits of an unsigned number from the first non-zero one on, into a buffer of 11. */
  method Itoa(num: nat, buf: array<char>) returns (len: nat)
    requires num < 0x1_0000_0000 && buf.Length >= 11
    modifies buf
    ensures len < buf.Length && buf[..len] == Numeral(num) && buf[len] == '\0'
  {
    var i := 0;
    if num != 0 {
      var j := 1000000000;
      ghost var k := 10;
      while j != 0
        invariant DivisorAt(k, j) && 0 <= k <= 10 && 0 <= i <= 10 - k
        invariant DigitsWritten(buf[..i], Prefix(num, j))
        decreases k
      {
        DivisorStep(num, k, j);
        if num / j != 0 {
          NextDigit(buf[..i], num / j, Digit((num / j) % 10));
          buf[i] := Digit((num / j) % 10);
          i := i + 1;
          assert buf[..i] == buf[..i - 1] + [Digit((num / j) % 10)];
        }
        j := j / 10;
        k := k - 1;
      }
    } else {
      buf[i] := '0';
      i := i + 1;
      assert buf[..i] == Numeral(0);
    }
    buf[i] := '\0';
    len := i;
  }
}
