/** The parser as it runs (ml/parse.c): one token at hand, the lexer behind it, and recursive functions
    that advance both.  Each is shown to compute what the grammar says of the tokens left to read;
    in particular parsing ends on every text. */
module MlParser {
  import opened MlSyntax
  import opened MlLexer
  import opened MlGrammar
  import opened MlSource

  class Parser {
    const lexer: Lexer
    var tok: Token

    ghost predicate Valid()
      reads this, lexer
    {
      && lexer.index <= |lexer.file| && tok.kind != Bad
      && (tok.kind == Eof ==> tok == Token(Eof, "") && LexAt(lexer.file, lexer.index) == Lexeme(tok, lexer.index))
    }

    /** The tokens left to read, with the one at hand. */
    ghost function Left(): (ts: seq<Token>)
      requires Valid()
      reads this, lexer
      ensures |ts| > 0 && ts[0] == tok
    {
      if tok.kind == Eof then [tok] else [tok] + Tokens(lexer.file, lexer.index)
    }

    /** lex_read_string; parse_init reads the first token. */
    constructor (text: string)
      ensures fresh(lexer) && lexer.file == text && lexer.index == 0
    {
      lexer := new Lexer(text);
      tok := Token(Eof, "");
    }

    /** parse_get_next_tok; false stands for exit(1) in the lexer.  At the end of the text the end is read
        again. */
    method GetNextTok() returns (ok: bool)
      requires Valid()
      modifies this, lexer
      ensures old(tok).kind == Eof ==> ok && Valid() && Left() == old(Left())
      ensures old(tok).kind != Eof ==> (ok <==> Advance(old(Left())).Ok?)
      ensures old(tok).kind != Eof && ok ==> Valid() && Left() == Advance(old(Left())).rest
    {
      ghost var before, end := Left(), tok.kind == Eof;
      ok := ReadTok();
      if ok && !end {
        assert before[1..] == Left();
      }
    }

    /** The next token from the lexer becomes the one at hand. */
    method ReadTok() returns (ok: bool)
      requires lexer.index <= |lexer.file|
      modifies this, lexer
      ensures ok <==> Tokens(lexer.file, old(lexer.index))[0].kind != Bad
      ensures ok ==> Valid() && Left() == Tokens(lexer.file, old(lexer.index))
    {
      var t;
      ok, t := lexer.Lex();
      if ok {
        if t.kind == Eof {
          EndStays(lexer.file, old(lexer.index));
        }
        tok := t;
      }
    }

    /** parse_get_next_tok and parse_eof_error. */
    method GetNextTokWithin() returns (ok: bool)
      requires Valid() && tok.kind != Eof
      modifies this, lexer
      ensures ok <==> AdvanceWithin(old(Left())).Ok?
      ensures ok ==> Valid() && Left() == AdvanceWithin(old(Left())).rest
    {
      ok := GetNextTok();
      ok := ok && tok.kind != Eof;
    }

    /** parse_tok_eq with a string. */
    predicate TokEq(kind: Kind, str: string)
      reads this
    {
      tok.kind == kind && tok.str == str
    }

    /** parser_is_at_start_of_expression */
    predicate AtStartOfExpression()
      reads this
    {
      (tok.kind == Word && !TokEq(Word, "then") && !TokEq(Word, "else")) || TokEq(Sym, "(") || tok.kind == Int
    }

    /** parse_num */
    method ParseNum() returns (ok: bool, num: int)
      requires Valid() && tok.kind == Int
      modifies this, lexer
      ensures ok <==> Advance(old(Left())).Ok?
      ensures ok ==> Valid() && num == IntValue(old(tok.str)) && Left() == Advance(old(Left())).rest
    {
      num := 0;
      var i := 0;
      while i < |tok.str|
        invariant i <= |tok.str| && num == IntValue(tok.str[..i])
      {
        assert tok.str[..i + 1][..i] == tok.str[..i];
        num := Wrap(num * 10);
        num := Wrap(num + DigitValue(tok.str[i]));
        i := i + 1;
      }
      assert tok.str[..i] == tok.str;
      ok := GetNextTok();
    }

    /** parse_cons down to parse_app (levels 0 to 7) and parse_base_expr (level 8): PARSE_OP_DEFINE, whose
        loop rebuilds `expr` around each further operand. */
    method ParseOp(level: nat) returns (ok: bool, expr: Expr)
      requires Valid() && level <= 8
      modifies this, lexer
      ensures ok <==> ParseLevel(level, old(Left())).Ok?
      ensures ok ==> Valid() && ParseLevel(level, old(Left())) == Ok(expr, Left())
      decreases |Left()|, 10 - level
    {
      hide Tokens, Advance, AdvanceWithin;
      if level == 8 {
        ok, expr := ParseBaseExpr();
        return;
      }
      ghost var ts := Left();
      ok, expr := ParseOp(level + 1);
      if !ok {
        return;
      }
      var op := OpAt(level);
      while true
        invariant ok && Valid() && |Left()| < |ts|
        invariant ParseLevel(level, ts) == ParseChain(level, expr, Left())
        decreases |Left()|
      {
        if op != Apply {
          if !TokEq(Sym, op.Symbol()) { break; }
          ok := GetNextTokWithin();
          if !ok { return; }
        } else {
          if !AtStartOfExpression() { break; }
        }
        var b;
        ok, b := ParseOp(level + 1);
        if !ok { return; }
        expr := Op(op, expr, b);
      }
    }

    /** parse_base_expr */
    method ParseBaseExpr() returns (ok: bool, expr: Expr)
      requires Valid()
      modifies this, lexer
      ensures ok <==> ParseBase(old(Left())).Ok?
      ensures ok ==> Valid() && ParseBase(old(Left())) == Ok(expr, Left())
      decreases |Left()|, 1
    {
      hide Tokens, Advance, ParseIf, ParseFn, ParseLevel;
      expr := Num(0);
      if TokEq(Word, "if") {
        ok, expr := ParseIfExpr();
      } else if TokEq(Word, "fn") {
        ok, expr := ParseFnExpr();
      } else if tok.kind == Word {
        expr := Name(tok.str);
        ok := GetNextTok();
      } else if tok.kind == Int {
        var num;
        ok, num := ParseNum();
        expr := Num(num);
      } else if TokEq(Sym, "(") {
        ok := GetNextTok();
        if !ok { return; }
        ok, expr := ParseOp(0);
        if !ok { return; }
        if !TokEq(Sym, ")") { return false, expr; }
        ok := GetNextTok();
      } else {
        ok := false;
      }
    }

    /** parse_if */
    method ParseIfExpr() returns (ok: bool, expr: Expr)
      requires Valid() && tok.kind != Eof
      modifies this, lexer
      ensures ok <==> ParseIf(old(Left())).Ok?
      ensures ok ==> Valid() && ParseIf(old(Left())) == Ok(expr, Left())
      decreases |Left()|, 0
    {
      hide Tokens, Advance, AdvanceWithin, ParseLevel;
      expr := Num(0);
      ok := GetNextTokWithin();
      if !ok { return; }
      var cond, thn, els;
      ok, cond := ParseOp(0);
      if !ok { return; }
      ok := ExpectTok(Word, "then");
      if !ok { return; }
      ok, thn := ParseOp(0);
      if !ok { return; }
      ok := ExpectTok(Word, "else");
      if !ok { return; }
      ok, els := ParseOp(0);
      if !ok { return; }
      expr := If(cond, thn, els);
    }

    /** parse_eof_error, parse_expect, parse_get_next_tok and parse_eof_error. */
    method ExpectTok(kind: Kind, str: string) returns (ok: bool)
      requires Valid() && kind != Eof
      modifies this, lexer
      ensures ok <==> Expect(old(Left()), kind, str).Ok?
      ensures ok ==> Valid() && Left() == Expect(old(Left()), kind, str).rest
    {
      if !TokEq(kind, str) {
        return false;
      }
      ok := GetNextTokWithin();
    }

    /** parse_fn */
    method ParseFnExpr() returns (ok: bool, expr: Expr)
      requires Valid() && tok.kind != Eof
      modifies this, lexer
      ensures ok <==> ParseFn(old(Left())).Ok?
      ensures ok ==> Valid() && ParseFn(old(Left())) == Ok(expr, Left())
      decreases |Left()|, 0
    {
      hide Tokens, Advance, AdvanceWithin, ParseLevel;
      expr := Num(0);
      ok := GetNextTokWithin();
      if !ok { return; }
      if tok.kind != Word { return false, expr; }
      var name := tok.str;
      ok := GetNextTokWithin();
      if !ok { return; }
      ok := ExpectTok(Sym, ".");
      if !ok { return; }
      var body;
      ok, body := ParseOp(0);
      if !ok { return; }
      expr := Fn(name, body);
    }
  }

  /** lex_read_string, parse_init and parse: a program text is parsed, or the interpreter exits. */
  method ParseText(text: string) returns (ok: bool, expr: Expr)
    ensures ok <==> ParseSource(text).Ok?
    ensures ok ==> ParseSource(text).value == expr
  {
    var p := new Parser(text);
    expr := Num(0);
    ok := p.ReadTok();
    if !ok { return; }
    ok, expr := p.ParseOp(0);
  }
}
