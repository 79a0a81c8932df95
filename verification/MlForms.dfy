/** The concrete syntax that the parser accepts, with parentheses wherever a writer may put them: the
    parser accepts exactly the forms that fit, and gives what they mean. */
module MlForms {
  import opened MlSyntax
  import opened MlLexer
  import opened MlGrammar

  /** An expression as it is written down. */
  datatype Form =
    | NameForm(name: string)
    | NumForm(digits: string)
    | OpForm(op: Operator, a: Form, b: Form)
    | IfForm(cond: Form, thn: Form, els: Form)
    | FnForm(param: string, body: Form)
    | Group(inner: Form)

  function SymTok(str: string): Token { Token(Sym, str) }
  function WordTok(str: string): Token { Token(Word, str) }

  /** The tokens for an operator; application has none. */
  function OpTokens(op: Operator): seq<Token> {
    if op == Apply then [] else [SymTok(op.Symbol())]
  }

  function Written(f: Form): (ts: seq<Token>)
    ensures |ts| > 0
  {
    match f
    case NameForm(x) => [WordTok(x)]
    case NumForm(d) => [Token(Int, d)]
    case OpForm(op, a, b) => Written(a) + OpTokens(op) + Written(b)
    case IfForm(c, t, e) =>
      [WordTok("if")] + Written(c) + [WordTok("then")] + Written(t) + [WordTok("else")] + Written(e)
    case FnForm(x, body) => [WordTok("fn"), WordTok(x), SymTok(".")] + Written(body)
    case Group(g) => [SymTok("(")] + Written(g) + [SymTok(")")]
  }

  function Meaning(f: Form): Expr {
    match f
    case NameForm(x) => Name(x)
    case NumForm(d) => Num(IntValue(d))
    case OpForm(op, a, b) => Op(op, Meaning(a), Meaning(b))
    case IfForm(c, t, e) => If(Meaning(c), Meaning(t), Meaning(e))
    case FnForm(x, body) => Fn(x, Meaning(body))
    case Group(g) => Meaning(g)
  }

  function Leftmost(f: Form): Form {
    if f.OpForm? then Leftmost(f.a) else f
  }

  /** f does not start with one of the words that end the arguments of a function. */
  predicate Argument(f: Form) {
    Leftmost(f) != NameForm("then") && Leftmost(f) != NameForm("else")
  }

  /** f may stand as an operand of the given level; `last` says that nothing that could go on with an
      expression follows.  The left operand of an operator is of the operator's level and the right one
      a level tighter.  `if` and `fn` reach as far to the right as they can, so they may only come last.
      `then` and `else` are names where an expression has to start, but no arguments of a function. */
  predicate Fits(level: nat, f: Form, last: bool)
    decreases f
  {
    match f
    case NameForm(x) => x != "if" && x != "fn"
    case NumForm(_) => true
    case OpForm(op, a, b) =>
      && level <= LevelOf(op) && Fits(LevelOf(op), a, false) && Fits(LevelOf(op) + 1, b, last)
      && (op == Apply ==> Argument(b))
    case IfForm(c, t, e) => last && Fits(0, c, true) && Fits(0, t, true) && Fits(0, e, true)
    case FnForm(_, body) => last && Fits(0, body, true)
    case Group(g) => Fits(0, g, true)
  }

  /** No chain of the given level or a tighter one goes on with the token at hand. */
  ghost predicate Stops(level: nat, ts: seq<Token>) {
    forall l :: level <= l < 8 ==> !GoesOn(l, ts)
  }

  /** What may follow an expression: some token that the lexer knows. */
  predicate Follow(ts: seq<Token>) {
    |ts| > 0 && ts[0].kind != Bad
  }

  // ---------------------------------------------------------------- tokens at the borders

  predicate Starter(t: Token) {
    t.kind == Word || t.kind == Int || t == SymTok("(")
  }

  /** What is written down starts with a token that can start an expression. */
  lemma {:induction false} FirstToken(level: nat, f: Form, last: bool)
    requires Fits(level, f, last)
    ensures Starter(Written(f)[0]) && Written(f)[0] == Written(Leftmost(f))[0]
    ensures Fits(8, Leftmost(f), true)
    decreases f
  {
    match f
    case OpForm(op, a, b) =>
      FirstToken(LevelOf(op), a, false);
      assert Written(f)[0] == Written(a)[0];
    case _ =>
  }

  lemma AtomStarts(f: Form)
    requires Fits(8, f, true)
    ensures AtStart([Written(f)[0]]) <==> f != NameForm("then") && f != NameForm("else")
  {
  }

  lemma WrittenStarts(level: nat, f: Form, last: bool, rest: seq<Token>)
    requires Fits(level, f, last)
    ensures Follow(Written(f) + rest) && !IsKind(Written(f) + rest, Eof)
    ensures AtStart(Written(f) + rest) <==> Argument(f)
  {
    hide Written, Fits;
    FirstToken(level, f, last);
    assert (Written(f) + rest)[0] == Written(f)[0];
    AtomStarts(Leftmost(f));
  }

  /** The operator's own token stops everything tighter. */
  lemma OpStops(op: Operator, rest: seq<Token>)
    requires op != Apply
    ensures Stops(LevelOf(op) + 1, [SymTok(op.Symbol())] + rest)
    ensures GoesOn(LevelOf(op), [SymTok(op.Symbol())] + rest)
  {
    var ts := [SymTok(op.Symbol())] + rest;
    assert ts[0] == SymTok(op.Symbol());
    forall l | LevelOf(op) < l < 8 ensures !GoesOn(l, ts) {
    }
  }

  /** `)`, `then`, `else` and the end of the program stop every chain. */
  lemma EndStops(t: Token, rest: seq<Token>)
    requires t in {Token(Sym, ")"), Token(Word, "then"), Token(Word, "else"), Token(Eof, "")}
    ensures Stops(0, [t] + rest) && Follow([t] + rest)
  {
    assert ([t] + rest)[0] == t;
  }

  lemma AdvanceOver(t: Token, rest: seq<Token>)
    requires Follow(rest)
    ensures Advance([t] + rest) == Ok((), rest)
    ensures !IsKind(rest, Eof) ==> AdvanceWithin([t] + rest) == Ok((), rest)
  {
    assert ([t] + rest)[1..] == rest;
  }

  // ---------------------------------------------------------------- every form that fits is accepted

  function Rank(level: nat, f: Form): int {
    if f.OpForm? then LevelOf(f.op) - level + 1 else 9 - level
  }

  /** The heart of it: a form that fits as an operand of a level is parsed, at that level, up to where the
      level's chain goes on with it. */
  lemma {:induction false} OperandAccepted(level: nat, f: Form, last: bool, rest: seq<Token>)
    requires level <= 8 && Fits(level, f, last) && Follow(rest) && Stops(level + 1, rest) && (last ==> Stops(0, rest))
    ensures level < 8 ==> ParseLevel(level, Written(f) + rest) == ParseChain(level, Meaning(f), rest)
    ensures level == 8 ==> ParseLevel(level, Written(f) + rest) == Ok(Meaning(f), rest)
    decreases f, Rank(level, f)
  {
    hide Written, Meaning, AtStart, ParseBase;
    if level == 8 {
      AtomAccepted(f, last, rest);
    } else if f.OpForm? && LevelOf(f.op) == level {
      ChainAccepted(f, last, rest);
    } else {
      OperandAccepted(level + 1, f, last, rest);
    }
  }

  /** One step of a chain whose right operand is at hand. */
  lemma ChainStep(op: Operator, acc: Expr, b: Expr, right: seq<Token>, rest: seq<Token>)
    requires Follow(right) && !IsKind(right, Eof) && (op == Apply ==> AtStart(right))
    requires ParseLevel(LevelOf(op) + 1, right) == Ok(b, rest)
    ensures ParseChain(LevelOf(op), acc, OpTokens(op) + right) == ParseChain(LevelOf(op), Op(op, acc, b), rest)
  {
    hide ParseLevel, AdvanceWithin, AtStart;
    if op == Apply {
      assert OpTokens(op) + right == right;
    } else {
      OpStops(op, right);
      AdvanceOver(SymTok(op.Symbol()), right);
    }
  }

  /** Where the chain of its level stops, an operand is all there is. */
  lemma RightOperand(level: nat, b: Expr, right: seq<Token>, rest: seq<Token>)
    requires level <= 8 && Stops(level, rest)
    requires if level < 8 then ParseLevel(level, right) == ParseChain(level, b, rest)
             else ParseLevel(level, right) == Ok(b, rest)
    ensures ParseLevel(level, right) == Ok(b, rest)
  {
    hide ParseLevel;
  }

  /** A chain: the left operand, the operator and the right operand. */
  lemma {:induction false} ChainAccepted(f: Form, last: bool, rest: seq<Token>)
    requires f.OpForm? && Fits(LevelOf(f.op), f, last) && Follow(rest) && Stops(LevelOf(f.op) + 1, rest)
    requires last ==> Stops(0, rest)
    ensures ParseLevel(LevelOf(f.op), Written(f) + rest) == ParseChain(LevelOf(f.op), Meaning(f), rest)
    decreases f, 0, 0
  {
    hide ParseLevel, ParseChain, AtStart;
    var k := LevelOf(f.op);
    var right := Written(f.b) + rest;
    var tail := OpTokens(f.op) + right;
    assert Written(f) + rest == Written(f.a) + tail;
    WrittenStarts(k + 1, f.b, last, rest);
    OperandAccepted(k + 1, f.b, last, rest);
    RightOperand(k + 1, Meaning(f.b), right, rest);
    ChainStep(f.op, Meaning(f.a), Meaning(f.b), right, rest);
    if f.op != Apply {
      OpStops(f.op, right);
    } else {
      assert tail == right;
    }
    OperandAccepted(k, f.a, false, tail);
  }

  lemma NameAccepted(x: string, rest: seq<Token>)
    requires x != "if" && x != "fn" && Follow(rest)
    ensures ParseBase([WordTok(x)] + rest) == Ok(Name(x), rest)
  {
    AdvanceOver(WordTok(x), rest);
    assert ([WordTok(x)] + rest)[0] == WordTok(x);
  }

  lemma NumAccepted(d: string, rest: seq<Token>)
    requires Follow(rest)
    ensures ParseBase([Token(Int, d)] + rest) == Ok(Num(IntValue(d)), rest)
  {
    hide IntValue, Advance;
    AdvanceOver(Token(Int, d), rest);
    assert ([Token(Int, d)] + rest)[0] == Token(Int, d);
  }

  lemma GroupAccepted(e: Expr, inner: seq<Token>, rest: seq<Token>)
    requires Follow(rest) && Follow(inner)
    requires ParseLevel(0, inner) == Ok(e, [SymTok(")")] + rest)
    ensures ParseBase([SymTok("(")] + inner) == Ok(e, rest)
  {
    hide ParseLevel, ParseIf, ParseFn, Advance;
    AdvanceOver(SymTok("("), inner);
    AdvanceOver(SymTok(")"), rest);
    assert ([SymTok("(")] + inner)[0] == SymTok("(");
    assert ([SymTok(")")] + rest)[0] == SymTok(")");
  }

  /** What parse_base_expr accepts. */
  lemma {:induction false} AtomAccepted(f: Form, last: bool, rest: seq<Token>)
    requires Fits(8, f, last) && Follow(rest) && (last ==> Stops(0, rest))
    ensures ParseBase(Written(f) + rest) == Ok(Meaning(f), rest)
    decreases f, Rank(8, f), 0
  {
    hide ParseBase, ParseLevel, Follow, AtStart, GoesOn;
    match f
    case NameForm(x) =>
      NameAccepted(x, rest);
    case NumForm(d) =>
      NumAccepted(d, rest);
    case IfForm(_, _, _) =>
      IfAccepted(f, rest);
    case FnForm(_, _) =>
      FnAccepted(f, rest);
    case Group(g) =>
      var close := [SymTok(")")] + rest;
      assert Written(f) + rest == [SymTok("(")] + (Written(g) + close);
      WrittenStarts(0, g, true, close);
      EndStops(SymTok(")"), rest);
      FormAccepted(g, close);
      GroupAccepted(Meaning(g), Written(g) + close, rest);
  }

  lemma {:induction false} IfAccepted(f: Form, rest: seq<Token>)
    requires f.IfForm? && Fits(8, f, true) && Follow(rest) && Stops(0, rest)
    ensures ParseBase(Written(f) + rest) == Ok(Meaning(f), rest)
    decreases f, 0
  {
    hide ParseLevel, Advance, AdvanceWithin, AtStart, GoesOn;
    var ts3 := Written(f.els) + rest;
    var ts2 := Written(f.thn) + ([WordTok("else")] + ts3);
    var ts1 := Written(f.cond) + ([WordTok("then")] + ts2);
    var ts := [WordTok("if")] + ts1;
    assert Written(f) + rest == ts;
    WrittenStarts(0, f.cond, true, [WordTok("then")] + ts2);
    WrittenStarts(0, f.thn, true, [WordTok("else")] + ts3);
    WrittenStarts(0, f.els, true, rest);
    AdvanceOver(WordTok("if"), ts1);
    AdvanceOver(WordTok("then"), ts2);
    AdvanceOver(WordTok("else"), ts3);
    EndStops(WordTok("then"), ts2);
    EndStops(WordTok("else"), ts3);
    FormAccepted(f.cond, [WordTok("then")] + ts2);
    FormAccepted(f.thn, [WordTok("else")] + ts3);
    FormAccepted(f.els, rest);
    assert ts[0] == WordTok("if");
    assert ParseIf(ts) == Ok(Meaning(f), rest);
  }

  lemma {:induction false} FnAccepted(f: Form, rest: seq<Token>)
    requires f.FnForm? && Fits(8, f, true) && Follow(rest) && Stops(0, rest)
    ensures ParseBase(Written(f) + rest) == Ok(Meaning(f), rest)
    decreases f, 0
  {
    hide ParseLevel, Advance, AdvanceWithin, AtStart, GoesOn;
    var ts3 := Written(f.body) + rest;
    var ts2 := [SymTok(".")] + ts3;
    var ts1 := [WordTok(f.param)] + ts2;
    var ts := [WordTok("fn")] + ts1;
    assert Written(f) + rest == ts;
    WrittenStarts(0, f.body, true, rest);
    AdvanceOver(WordTok("fn"), ts1);
    AdvanceOver(WordTok(f.param), ts2);
    AdvanceOver(SymTok("."), ts3);
    FormAccepted(f.body, rest);
    assert ts[0] == WordTok("fn") && ts1[0] == WordTok(f.param) && ts2[0] == SymTok(".");
    assert ParseFn(ts) == Ok(Meaning(f), rest);
  }

  /** A form that fits, before anything that can follow an expression, is parsed to what it means. */
  lemma {:induction false} FormAccepted(f: Form, rest: seq<Token>)
    requires Fits(0, f, true) && Follow(rest) && Stops(0, rest)
    ensures ParseLevel(0, Written(f) + rest) == Ok(Meaning(f), rest)
    decreases f, 12
  {
    hide ParseLevel, AtStart;
    OperandAccepted(0, f, true, rest);
  }

  // ---------------------------------------------------------------- nothing else is accepted

  /** f is a form of the level that is written at the start of ts, with rest after it. */
  ghost predicate Reads(level: nat, f: Form, e: Expr, ts: seq<Token>, rest: seq<Token>) {
    && Fits(level, f, Stops(0, rest)) && Meaning(f) == e && ts == Written(f) + rest
    && Follow(rest) && Stops(level, rest)
  }

  lemma FitsLooser(level: nat, f: Form, last: bool)
    requires Fits(level + 1, f, last)
    ensures Fits(level, f, last)
  {
  }

  lemma AdvanceSplits(ts: seq<Token>)
    requires Advance(ts).Ok?
    ensures ts == [ts[0]] + Advance(ts).rest && Follow(Advance(ts).rest)
  {
  }

  /** Whatever a parsing function accepts is a form of its level. */
  lemma {:induction false} LevelReflects(level: nat, ts: seq<Token>) returns (f: Form)
    requires level <= 8 && ParseLevel(level, ts).Ok?
    ensures var r := ParseLevel(level, ts); Reads(level, f, r.value, ts, r.rest)
    decreases |ts|, 10 - level
  {
    hide Fits, Meaning, Written, ParseBase, ParseChain, AtStart, Follow;
    if level == 8 {
      f := BaseReflects(ts);
    } else {
      var a := ParseLevel(level + 1, ts);
      f := LevelReflects(level + 1, ts);
      FitsLooser(level, f, Stops(0, a.rest));
      f := ChainReflects(level, f, a.rest);
    }
  }

  /** A chain that goes on after form g is a form that starts with g. */
  lemma {:induction false} ChainReflects(level: nat, g: Form, ts: seq<Token>) returns (f: Form)
    requires level < 8 && ParseChain(level, Meaning(g), ts).Ok?
    requires Fits(level, g, Stops(0, ts)) && Follow(ts) && Stops(level + 1, ts)
    ensures var r := ParseChain(level, Meaning(g), ts); Reads(level, f, r.value, Written(g) + ts, r.rest)
    decreases |ts|, 11
  {
    hide ParseLevel, AtStart, Fits, Written, GoesOn, AdvanceWithin, OpTokens;
    if !GoesOn(level, ts) {
      StopsHere(level, ts);
      f := g;
    } else {
      var op := OpAt(level);
      LevelIs(op, level);
      OperatorSplits(level, ts);
      var next := if op == Apply then ts else AdvanceWithin(ts).rest;
      var b := LevelReflects(level + 1, next);
      var r := ParseLevel(level + 1, next);
      ChainFits(op, g, b, ts, next, r.rest);
      f := ChainReflects(level, OpForm(op, g, b), r.rest);
    }
  }

  lemma StopsHere(level: nat, ts: seq<Token>)
    requires level < 8 && !GoesOn(level, ts) && Stops(level + 1, ts)
    ensures Stops(level, ts)
  {
  }

  lemma LevelIs(op: Operator, level: nat)
    requires level < 8 && OpAt(level) == op
    ensures LevelOf(op) == level
  {
  }

  lemma OperatorSplits(level: nat, ts: seq<Token>)
    requires level < 8 && GoesOn(level, ts) && (OpAt(level) == Apply || AdvanceWithin(ts).Ok?)
    ensures !Stops(0, ts) && (OpAt(level) == Apply ==> AtStart(ts))
    ensures ts == OpTokens(OpAt(level)) + if OpAt(level) == Apply then ts else AdvanceWithin(ts).rest
  {
    hide AtStart;
    if OpAt(level) != Apply {
      assert ts == [ts[0]] + ts[1..];
    }
  }

  /** A chain g that goes on with an operator and the operand b. */
  lemma ChainFits(op: Operator, g: Form, b: Form, ts: seq<Token>, next: seq<Token>, rest: seq<Token>)
    requires Fits(LevelOf(op), g, false) && Fits(LevelOf(op) + 1, b, Stops(0, rest))
    requires ts == OpTokens(op) + next && next == Written(b) + rest && (op == Apply ==> AtStart(ts))
    ensures Fits(LevelOf(op), OpForm(op, g, b), Stops(0, rest))
    ensures Written(g) + ts == Written(OpForm(op, g, b)) + rest
  {
    hide AtStart, Stops, Fits, LevelOf, Written, OpTokens;
    OpFits(op, g, b, ts, next, rest);
    OpWritten(op, g, b, ts, next, rest);
  }

  lemma OpFits(op: Operator, g: Form, b: Form, ts: seq<Token>, next: seq<Token>, rest: seq<Token>)
    requires Fits(LevelOf(op), g, false) && Fits(LevelOf(op) + 1, b, Stops(0, rest))
    requires ts == OpTokens(op) + next && next == Written(b) + rest && (op == Apply ==> AtStart(ts))
    ensures Fits(LevelOf(op), OpForm(op, g, b), Stops(0, rest))
  {
    hide AtStart, Stops, LevelOf, Written;
    WrittenStarts(LevelOf(op) + 1, b, Stops(0, rest), rest);
    if op == Apply {
      assert ts == next;
    }
  }

  lemma OpWritten(op: Operator, g: Form, b: Form, ts: seq<Token>, next: seq<Token>, rest: seq<Token>)
    requires ts == OpTokens(op) + next && next == Written(b) + rest
    ensures Written(g) + ts == Written(OpForm(op, g, b)) + rest
  {
    hide OpTokens;
  }

  lemma {:induction false} BaseReflects(ts: seq<Token>) returns (f: Form)
    requires ParseBase(ts).Ok?
    ensures var r := ParseBase(ts); Reads(8, f, r.value, ts, r.rest)
    decreases |ts|, 1
  {
    hide ParseLevel, ParseIf, ParseFn, AtStart, Follow, Advance, GoesOn;
    if IsTok(ts, Word, "if") {
      f := IfReflects(ts);
    } else if IsTok(ts, Word, "fn") {
      f := FnReflects(ts);
    } else if IsKind(ts, Word) {
      AdvanceSplits(ts);
      f := NameForm(ts[0].str);
    } else if IsKind(ts, Int) {
      AdvanceSplits(ts);
      f := NumForm(ts[0].str);
    } else {
      AdvanceSplits(ts);
      var e := ParseLevel(0, Advance(ts).rest);
      var g := LevelReflects(0, Advance(ts).rest);
      AdvanceSplits(e.rest);
      EndStops(SymTok(")"), Advance(e.rest).rest);
      f := Group(g);
      assert ts == Written(f) + Advance(e.rest).rest;
    }
  }

  lemma {:induction false} IfReflects(ts: seq<Token>) returns (f: Form)
    requires IsTok(ts, Word, "if") && ParseIf(ts).Ok?
    ensures var r := ParseIf(ts); Reads(8, f, r.value, ts, r.rest)
    decreases |ts|, 0
  {
    hide ParseLevel, AtStart, Follow, Advance, GoesOn, Written;
    var n1 := AdvanceWithin(ts);
    AdvanceSplits(ts);
    var c := ParseLevel(0, n1.rest);
    var fc := LevelReflects(0, n1.rest);
    AdvanceSplits(c.rest);
    var n2 := AdvanceWithin(c.rest);
    EndStops(WordTok("then"), n2.rest);
    var t := ParseLevel(0, n2.rest);
    var ft := LevelReflects(0, n2.rest);
    AdvanceSplits(t.rest);
    var n3 := AdvanceWithin(t.rest);
    EndStops(WordTok("else"), n3.rest);
    var fe := LevelReflects(0, n3.rest);
    f := IfForm(fc, ft, fe);
    IfWritten(fc, ft, fe, ts, n1.rest, c.rest, n2.rest, t.rest, n3.rest, ParseIf(ts).rest);
  }

  lemma IfWritten(c: Form, t: Form, e: Form, ts: seq<Token>, n1: seq<Token>, r1: seq<Token>, n2: seq<Token>,
                  r2: seq<Token>, n3: seq<Token>, rest: seq<Token>)
    requires ts == [WordTok("if")] + n1 && n1 == Written(c) + r1
    requires r1 == [WordTok("then")] + n2 && n2 == Written(t) + r2
    requires r2 == [WordTok("else")] + n3 && n3 == Written(e) + rest
    ensures ts == Written(IfForm(c, t, e)) + rest
  {
    var u1 := [WordTok("if")] + Written(c);
    assert ts == u1 + r1;
    var u2 := u1 + [WordTok("then")];
    assert ts == u2 + n2;
    var u3 := u2 + Written(t);
    assert ts == u3 + r2;
    var u4 := u3 + [WordTok("else")];
    assert ts == u4 + n3;
    assert ts == u4 + Written(e) + rest;
  }

  lemma FnWritten(x: string, body: Form, ts: seq<Token>, n1: seq<Token>, n2: seq<Token>, n3: seq<Token>,
                  rest: seq<Token>)
    requires ts == [WordTok("fn")] + n1 && n1 == [WordTok(x)] + n2 && n2 == [SymTok(".")] + n3
    requires n3 == Written(body) + rest
    ensures ts == Written(FnForm(x, body)) + rest
  {
    assert ts == [WordTok("fn"), WordTok(x), SymTok(".")] + n3;
  }

  lemma {:induction false} FnReflects(ts: seq<Token>) returns (f: Form)
    requires IsTok(ts, Word, "fn") && ParseFn(ts).Ok?
    ensures var r := ParseFn(ts); Reads(8, f, r.value, ts, r.rest)
    decreases |ts|, 0
  {
    hide ParseLevel, AtStart, Follow, Advance, GoesOn, Written;
    AdvanceSplits(ts);
    var n1 := AdvanceWithin(ts);
    AdvanceSplits(n1.rest);
    var n2 := AdvanceWithin(n1.rest);
    AdvanceSplits(n2.rest);
    var n3 := AdvanceWithin(n2.rest);
    var body := LevelReflects(0, n3.rest);
    f := FnForm(n1.rest[0].str, body);
    FnWritten(n1.rest[0].str, body, ts, n1.rest, n2.rest, n3.rest, ParseFn(ts).rest);
  }

  /** The parser accepts a stream of tokens, as e with rest left, exactly if e is the meaning of a form
      that fits and is written before rest, and rest can follow an expression. */
  lemma ParserExact(ts: seq<Token>, e: Expr, rest: seq<Token>)
    ensures ParseLevel(0, ts) == Ok(e, rest) <==>
            exists f :: Fits(0, f, true) && Meaning(f) == e && ts == Written(f) + rest && Follow(rest) && Stops(0, rest)
  {
    hide ParseLevel, Fits, Meaning, Written, Follow, Stops;
    if ParseLevel(0, ts) == Ok(e, rest) {
      var f := LevelReflects(0, ts);
    }
    if f :| Fits(0, f, true) && Meaning(f) == e && ts == Written(f) + rest && Follow(rest) && Stops(0, rest) {
      FormAccepted(f, rest);
    }
  }
}
