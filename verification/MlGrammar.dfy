/** What the parser computes (ml/parse.c), as functions on the tokens still to be read. */
module MlGrammar {
  import opened MlSyntax
  import opened MlLexer

  /** A parse ends with a value and the tokens after it, or with exit(1). */
  datatype Parse<T> = Ok(value: T, rest: seq<Token>) | Fail

  /** The operator of each parsing function, loosest first; level 8 is parse_base_expr. */
  function OpAt(level: nat): Operator
    requires level < 8
  {
    [Cons, Greater, Less, Add, Sub, Mul, Div, Apply][level]
  }

  function LevelOf(op: Operator): (level: nat)
    ensures level < 8 && OpAt(level) == op
  {
    match op
    case Cons => 0
    case Greater => 1
    case Less => 2
    case Add => 3
    case Sub => 4
    case Mul => 5
    case Div => 6
    case Apply => 7
  }

  /** parse_tok_eq with a string, on the token at hand. */
  predicate IsTok(ts: seq<Token>, kind: Kind, str: string) {
    |ts| > 0 && ts[0] == Token(kind, str)
  }

  predicate IsKind(ts: seq<Token>, kind: Kind) {
    |ts| > 0 && ts[0].kind == kind
  }

  /** parser_is_at_start_of_expression */
  predicate AtStart(ts: seq<Token>) {
    || (IsKind(ts, Word) && !IsTok(ts, Word, "then") && !IsTok(ts, Word, "else"))
    || IsTok(ts, Sym, "(")
    || IsKind(ts, Int)
  }

  /** The token at hand goes on with a chain of the level's operator. */
  predicate GoesOn(level: nat, ts: seq<Token>)
    requires level < 8
  {
    if OpAt(level) == Apply then AtStart(ts) else IsTok(ts, Sym, OpAt(level).Symbol())
  }

  /** parse_get_next_tok: fails if the lexer does not know the next character. */
  function Advance(ts: seq<Token>): (r: Parse<()>)
    ensures r.Ok? ==> |ts| > 1 && r.rest == ts[1..]
  {
    if |ts| < 2 || ts[1].kind == Bad then Fail else Ok((), ts[1..])
  }

  /** parse_get_next_tok followed by parse_eof_error. */
  function AdvanceWithin(ts: seq<Token>): (r: Parse<()>)
    ensures r.Ok? ==> |ts| > 1 && r.rest == ts[1..]
  {
    if !Advance(ts).Ok? || IsKind(Advance(ts).rest, Eof) then Fail else Advance(ts)
  }

  /** parse_eof_error and parse_expect, then parse_get_next_tok and parse_eof_error. */
  function Expect(ts: seq<Token>, kind: Kind, str: string): (r: Parse<()>)
    ensures r.Ok? ==> |ts| > 1 && r.rest == ts[1..]
  {
    if IsTok(ts, kind, str) then AdvanceWithin(ts) else Fail
  }

  /** parse_num: the value of the digits in a 32-bit int. */
  function IntValue(str: string): int {
    if str == [] then 0
    else Wrap(Wrap(IntValue(str[..|str| - 1]) * 10) + DigitValue(str[|str| - 1]))
  }

  /** The parsing functions from parse_cons (level 0) down to parse_app (level 7), and parse_base_expr. */
  function ParseLevel(level: nat, ts: seq<Token>): (r: Parse<Expr>)
    requires level <= 8
    ensures r.Ok? ==> |r.rest| < |ts|
    decreases |ts|, 10 - level
  {
    if level == 8 then ParseBase(ts)
    else
      var a := ParseLevel(level + 1, ts);
      if a.Ok? then ParseChain(level, a.value, a.rest) else Fail
  }

  /** The loop of PARSE_OP_DEFINE with `acc` parsed so far. */
  function ParseChain(level: nat, acc: Expr, ts: seq<Token>): (r: Parse<Expr>)
    requires level < 8
    ensures r.Ok? ==> |r.rest| <= |ts|
    decreases |ts|, 11
  {
    if !GoesOn(level, ts) then Ok(acc, ts)
    else
      var next := if OpAt(level) == Apply then Ok((), ts) else AdvanceWithin(ts);
      if !next.Ok? then Fail
      else
        var b := ParseLevel(level + 1, next.rest);
        if !b.Ok? then Fail else ParseChain(level, Op(OpAt(level), acc, b.value), b.rest)
  }

  function ParseBase(ts: seq<Token>): (r: Parse<Expr>)
    ensures r.Ok? ==> |r.rest| < |ts|
    decreases |ts|, 1
  {
    if IsTok(ts, Word, "if") then ParseIf(ts)
    else if IsTok(ts, Word, "fn") then ParseFn(ts)
    else if IsKind(ts, Word) then
      var next := Advance(ts);
      if next.Ok? then Ok(Name(ts[0].str), next.rest) else Fail
    else if IsKind(ts, Int) then
      var next := Advance(ts);
      if next.Ok? then Ok(Num(IntValue(ts[0].str)), next.rest) else Fail
    else if IsTok(ts, Sym, "(") then
      var next := Advance(ts);
      if !next.Ok? then Fail else
      var e := ParseLevel(0, next.rest);
      if !e.Ok? || !IsTok(e.rest, Sym, ")") then Fail else
      var last := Advance(e.rest);
      if last.Ok? then Ok(e.value, last.rest) else Fail
    else Fail
  }

  function ParseIf(ts: seq<Token>): (r: Parse<Expr>)
    ensures r.Ok? ==> |r.rest| < |ts|
    decreases |ts|, 0
  {
    var n1 := AdvanceWithin(ts);
    if !n1.Ok? then Fail else
    var c := ParseLevel(0, n1.rest);
    if !c.Ok? then Fail else
    var n2 := Expect(c.rest, Word, "then");
    if !n2.Ok? then Fail else
    var t := ParseLevel(0, n2.rest);
    if !t.Ok? then Fail else
    var n3 := Expect(t.rest, Word, "else");
    if !n3.Ok? then Fail else
    var f := ParseLevel(0, n3.rest);
    if !f.Ok? then Fail else
    Ok(If(c.value, t.value, f.value), f.rest)
  }

  function ParseFn(ts: seq<Token>): (r: Parse<Expr>)
    ensures r.Ok? ==> |r.rest| < |ts|
    decreases |ts|, 0
  {
    var n1 := AdvanceWithin(ts);
    if !n1.Ok? || !IsKind(n1.rest, Word) then Fail else
    var n2 := AdvanceWithin(n1.rest);
    if !n2.Ok? then Fail else
    var n3 := Expect(n2.rest, Sym, ".");
    if !n3.Ok? then Fail else
    var body := ParseLevel(0, n3.rest);
    if !body.Ok? then Fail else
    Ok(Fn(n1.rest[0].str, body.value), body.rest)
  }
}
