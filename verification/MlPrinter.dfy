/** Ways to write an expression down: with as few parentheses as the grammar allows or with all of them,
    and chains of operators without any. */
module MlPrinter {
  import opened MlSyntax
  import opened MlLexer
  import opened MlGrammar
  import opened MlForms

  predicate IsKeyword(x: string) {
    x == "if" || x == "then" || x == "else" || x == "fn"
  }

  predicate IsName(x: string) {
    x != [] && (forall i :: 0 <= i < |x| ==> IsLetter(x[i])) && !IsKeyword(x)
  }

  /** Expressions that have a concrete syntax: names are not keywords, and there are no negative
      numerals. */
  predicate Printable(e: Expr) {
    match e
    case If(c, t, f) => Printable(c) && Printable(t) && Printable(f)
    case Name(x) => IsName(x)
    case Num(n) => 0 <= n < 0x8000_0000
    case Op(_, a, b) => Printable(a) && Printable(b)
    case Fn(x, body) => IsName(x) && Printable(body)
  }

  /** The digits of a number, read by parse_num. */
  lemma {:induction false} NumeralParses(n: nat)
    requires n < 0x8000_0000
    ensures IntValue(Numeral(n)) == n
  {
    if n >= 10 {
      NumeralParses(n / 10);
      assert Numeral(n)[..|Numeral(n)| - 1] == Numeral(n / 10);
    } else {
      assert Numeral(n)[..0] == [];
    }
  }

  /** Reading one more digit, modulo 2^32. */
  lemma DigitsAccumulate(d: string, c: char)
    requires '0' <= c <= '9'
    ensures -0x8000_0000 <= IntValue(d + [c]) < 0x8000_0000
    ensures (IntValue(d + [c]) - (10 * IntValue(d) + (c as int - '0' as int))) % 0x1_0000_0000 == 0
    ensures IntValue([]) == 0
  {
    hide Wrap;
    assert (d + [c])[..|d + [c]| - 1] == d;
    WrapTwice(IntValue(d), c as int - '0' as int);
  }

  lemma WrapTwice(v: int, d: int)
    ensures (Wrap(Wrap(v * 10) + d) - (10 * v + d)) % 0x1_0000_0000 == 0
  {
    hide Wrap;
    var w := Wrap(v * 10);
    var k := (w - v * 10) / 0x1_0000_0000;
    var l := (Wrap(w + d) - (w + d)) / 0x1_0000_0000;
    assert Wrap(w + d) - (10 * v + d) == (k + l) * 0x1_0000_0000;
  }

  function NumeralOf(n: int): string {
    Numeral(if n >= 0 then n else 0)
  }

  // ---------------------------------------------------------------- all parentheses

  /** e with parentheses around every proper part. */
  function Full(e: Expr): Form {
    match e
    case Name(x) => NameForm(x)
    case Num(n) => NumForm(NumeralOf(n))
    case Op(op, a, b) => OpForm(op, Group(Full(a)), Group(Full(b)))
    case If(c, t, f) => IfForm(Group(Full(c)), Group(Full(t)), Group(Full(f)))
    case Fn(x, body) => FnForm(x, Group(Full(body)))
  }

  lemma {:induction false} FullMeans(e: Expr)
    requires Printable(e)
    ensures Fits(0, Full(e), true) && Meaning(Full(e)) == e
  {
    match e
    case Name(_) =>
    case Num(n) =>
      NumeralParses(n);
    case Op(op, a, b) =>
      FullMeans(a);
      FullMeans(b);
      assert Written(Group(Full(b)))[0] == SymTok("(");
    case If(c, t, f) =>
      FullMeans(c);
      FullMeans(t);
      FullMeans(f);
    case Fn(_, body) =>
      FullMeans(body);
  }

  // ---------------------------------------------------------------- few parentheses

  /** e stands without parentheses as an operand of the given level. */
  predicate Bare(level: nat, e: Expr) {
    e.Name? || e.Num? || (e.Op? && level <= LevelOf(e.op))
  }

  /** e with parentheses only where an operator needs them: around looser operators, and around `if` and
      `fn` as operands. */
  function Minimal(e: Expr): Form
    decreases e, 0
  {
    match e
    case Name(x) => NameForm(x)
    case Num(n) => NumForm(NumeralOf(n))
    case Op(op, a, b) => OpForm(op, MinimalAt(LevelOf(op), a), MinimalAt(LevelOf(op) + 1, b))
    case If(c, t, f) => IfForm(Minimal(c), Minimal(t), Minimal(f))
    case Fn(x, body) => FnForm(x, Minimal(body))
  }

  /** e as an operand of the given level. */
  function MinimalAt(level: nat, e: Expr): Form
    decreases e, 1
  {
    if Bare(level, e) then Minimal(e) else Group(Minimal(e))
  }

  lemma {:induction false} MinimalMeans(e: Expr)
    requires Printable(e)
    ensures Fits(0, Minimal(e), true) && Meaning(Minimal(e)) == e
    ensures e.Op? ==> Fits(LevelOf(e.op), Minimal(e), false)
    decreases e, 0
  {
    match e
    case Name(_) =>
    case Num(n) =>
      NumeralParses(n);
    case Op(op, a, b) =>
      MinimalAtMeans(LevelOf(op), a);
      MinimalAtMeans(LevelOf(op) + 1, b);
    case If(c, t, f) =>
      MinimalMeans(c);
      MinimalMeans(t);
      MinimalMeans(f);
    case Fn(_, body) =>
      MinimalMeans(body);
  }

  lemma {:induction false} MinimalAtMeans(level: nat, e: Expr)
    requires Printable(e)
    ensures Fits(level, MinimalAt(level, e), false) && Fits(level, MinimalAt(level, e), true)
    ensures Meaning(MinimalAt(level, e)) == e
    ensures level == 8 ==> Argument(MinimalAt(level, e))
    decreases e, 1
  {
    MinimalMeans(e);
    if e.Op? && Bare(level, e) {
      FitsAtOwn(level, Minimal(e));
    }
  }

  lemma FitsAtOwn(level: nat, f: Form)
    requires f.OpForm? && Fits(LevelOf(f.op), f, false) && Fits(0, f, true) && level <= LevelOf(f.op)
    ensures Fits(level, f, false) && Fits(level, f, true)
  {
  }

  /** Both ways of writing an expression down are parsed back to it, up to the end. */
  lemma PrintParseRoundTrip(e: Expr)
    requires Printable(e)
    ensures ParseLevel(0, Written(Minimal(e)) + [Token(Eof, "")]) == Ok(e, [Token(Eof, "")])
    ensures ParseLevel(0, Written(Full(e)) + [Token(Eof, "")]) == Ok(e, [Token(Eof, "")])
  {
    hide ParseLevel, Written, Meaning, Minimal, Full, Fits;
    EndStops(Token(Eof, ""), []);
    assert [Token(Eof, "")] + [] == [Token(Eof, "")];
    MinimalMeans(e);
    FormAccepted(Minimal(e), [Token(Eof, "")]);
    FullMeans(e);
    FormAccepted(Full(e), [Token(Eof, "")]);
  }

  // ---------------------------------------------------------------- chains

  /** The operands fs, one after the other, applied to acc from the left. */
  function LeftFold(op: Operator, acc: Expr, fs: seq<Form>): Expr
    decreases |fs|
  {
    if fs == [] then acc else LeftFold(op, Op(op, acc, Meaning(fs[0])), fs[1..])
  }

  /** op f1 op f2 ... without parentheses around the chain. */
  function ChainTokens(op: Operator, fs: seq<Form>): seq<Token> {
    if fs == [] then [] else OpTokens(op) + Written(fs[0]) + ChainTokens(op, fs[1..])
  }

  /** f can be the right operand of op and be followed by another one. */
  predicate Link(op: Operator, f: Form) {
    Fits(LevelOf(op) + 1, f, false) && (op == Apply ==> Argument(f))
  }

  /** A chain of one operator, however long, becomes the left-associated tree. */
  lemma {:induction false} ChainsAssociateLeft(op: Operator, f: Form, fs: seq<Form>, rest: seq<Token>)
    requires Fits(LevelOf(op), f, false) && (forall i :: 0 <= i < |fs| ==> Link(op, fs[i]))
    requires Follow(rest) && Stops(LevelOf(op), rest)
    ensures ParseLevel(LevelOf(op), Written(f) + (ChainTokens(op, fs) + rest)) == Ok(LeftFold(op, Meaning(f), fs), rest)
    decreases |fs|
  {
    hide ParseLevel, Written, OpTokens, AtStart, GoesOn, Follow, LevelOf;
    if fs == [] {
      assert ChainTokens(op, fs) + rest == rest;
      OperandAccepted(LevelOf(op), f, false, rest);
      RightOperand(LevelOf(op), Meaning(f), Written(f) + rest, rest);
    } else {
      var g := OpForm(op, f, fs[0]);
      assert Link(op, fs[0]);
      LinkWritten(op, f, fs, rest);
      ChainsAssociateLeft(op, g, fs[1..], rest);
    }
  }

  lemma LinkWritten(op: Operator, f: Form, fs: seq<Form>, rest: seq<Token>)
    requires fs != []
    ensures Written(f) + (ChainTokens(op, fs) + rest) ==
            Written(OpForm(op, f, fs[0])) + (ChainTokens(op, fs[1..]) + rest)
  {
    hide OpTokens;
  }

  // ---------------------------------------------------------------- precedence

  /** An operand that fits anywhere. */
  predicate Operand(f: Form) {
    Fits(8, f, false) && Argument(f)
  }

  /** Two operators in a row without parentheses: the tighter one takes the operand between them, and of
      equally tight ones, which are the same, the first. */
  lemma TwoOperators(p: Operator, q: Operator, x: Form, y: Form, z: Form, rest: seq<Token>)
    requires Operand(x) && Operand(y) && Operand(z) && Follow(rest) && Stops(0, rest)
    ensures ParseLevel(0, Written(x) + OpTokens(p) + Written(y) + OpTokens(q) + Written(z) + rest) ==
            Ok(if LevelOf(p) < LevelOf(q) then Op(p, Meaning(x), Op(q, Meaning(y), Meaning(z)))
               else Op(q, Op(p, Meaning(x), Meaning(y)), Meaning(z)), rest)
  {
    hide ParseLevel, Follow, Stops, OpTokens;
    var f := if LevelOf(p) < LevelOf(q) then OpForm(p, x, OpForm(q, y, z)) else OpForm(q, OpForm(p, x, y), z);
    TwoFit(p, q, x, y, z);
    FormAccepted(f, rest);
    assert Written(f) + rest == Written(x) + OpTokens(p) + Written(y) + OpTokens(q) + Written(z) + rest;
  }

  lemma TwoFit(p: Operator, q: Operator, x: Form, y: Form, z: Form)
    requires Operand(x) && Operand(y) && Operand(z)
    ensures var f := if LevelOf(p) < LevelOf(q) then OpForm(p, x, OpForm(q, y, z)) else OpForm(q, OpForm(p, x, y), z);
            Fits(0, f, true)
  {
    hide Written, Operand;
    OperandFits(x);
    OperandFits(y);
    OperandFits(z);
    if LevelOf(p) < LevelOf(q) {
      assert Fits(LevelOf(p) + 1, OpForm(q, y, z), true);
      assert p != Apply;
    } else {
      assert Fits(LevelOf(q), OpForm(p, x, y), false);
    }
  }

  lemma OperandFits(f: Form)
    requires Operand(f)
    ensures forall level: nat, last: bool :: level <= 8 ==> Fits(level, f, last)
    ensures Argument(f)
  {
    hide Written;
  }

  /** Unlike in arithmetic, `+` is looser than `-` and `*` looser than `/`, so that x - y + z and x / y * z
      associate to the left but x + y - z and x * y / z to the right. */
  lemma PlusAndTimesAreLooser(x: Form, y: Form, z: Form, rest: seq<Token>)
    requires Operand(x) && Operand(y) && Operand(z) && Follow(rest) && Stops(0, rest)
    ensures ParseLevel(0, Written(x) + [SymTok("+")] + Written(y) + [SymTok("-")] + Written(z) + rest) ==
            Ok(Op(Add, Meaning(x), Op(Sub, Meaning(y), Meaning(z))), rest)
    ensures ParseLevel(0, Written(x) + [SymTok("-")] + Written(y) + [SymTok("+")] + Written(z) + rest) ==
            Ok(Op(Add, Op(Sub, Meaning(x), Meaning(y)), Meaning(z)), rest)
    ensures ParseLevel(0, Written(x) + [SymTok("*")] + Written(y) + [SymTok("/")] + Written(z) + rest) ==
            Ok(Op(Mul, Meaning(x), Op(Div, Meaning(y), Meaning(z))), rest)
    ensures ParseLevel(0, Written(x) + [SymTok("/")] + Written(y) + [SymTok("*")] + Written(z) + rest) ==
            Ok(Op(Mul, Op(Div, Meaning(x), Meaning(y)), Meaning(z)), rest)
  {
    hide ParseLevel, Follow, Stops, Operand, Written, Meaning;
    PlusLooserThanMinus(x, y, z, rest);
    TimesLooserThanDivide(x, y, z, rest);
  }

  /** `::` is looser than `>` ... */
  lemma ConsLooserThanGreater(x: Form, y: Form, z: Form, rest: seq<Token>)
    requires Operand(x) && Operand(y) && Operand(z) && Follow(rest) && Stops(0, rest)
    ensures ParseLevel(0, Written(x) + [SymTok("::")] + Written(y) + [SymTok(">")] + Written(z) + rest) ==
            Ok(Op(Cons, Meaning(x), Op(Greater, Meaning(y), Meaning(z))), rest)
    ensures ParseLevel(0, Written(x) + [SymTok(">")] + Written(y) + [SymTok("::")] + Written(z) + rest) ==
            Ok(Op(Cons, Op(Greater, Meaning(x), Meaning(y)), Meaning(z)), rest)
  {
    hide ParseLevel, Follow, Stops, Operand, Written, Meaning;
    TwoOperators(Cons, Greater, x, y, z, rest);
    TwoOperators(Greater, Cons, x, y, z, rest);
  }

  /** ... which is looser than `<` ... */
  lemma GreaterLooserThanLess(x: Form, y: Form, z: Form, rest: seq<Token>)
    requires Operand(x) && Operand(y) && Operand(z) && Follow(rest) && Stops(0, rest)
    ensures ParseLevel(0, Written(x) + [SymTok(">")] + Written(y) + [SymTok("<")] + Written(z) + rest) ==
            Ok(Op(Greater, Meaning(x), Op(Less, Meaning(y), Meaning(z))), rest)
    ensures ParseLevel(0, Written(x) + [SymTok("<")] + Written(y) + [SymTok(">")] + Written(z) + rest) ==
            Ok(Op(Greater, Op(Less, Meaning(x), Meaning(y)), Meaning(z)), rest)
  {
    hide ParseLevel, Follow, Stops, Operand, Written, Meaning;
    TwoOperators(Greater, Less, x, y, z, rest);
    TwoOperators(Less, Greater, x, y, z, rest);
  }

  /** ... which is looser than `+` ... */
  lemma LessLooserThanPlus(x: Form, y: Form, z: Form, rest: seq<Token>)
    requires Operand(x) && Operand(y) && Operand(z) && Follow(rest) && Stops(0, rest)
    ensures ParseLevel(0, Written(x) + [SymTok("<")] + Written(y) + [SymTok("+")] + Written(z) + rest) ==
            Ok(Op(Less, Meaning(x), Op(Add, Meaning(y), Meaning(z))), rest)
    ensures ParseLevel(0, Written(x) + [SymTok("+")] + Written(y) + [SymTok("<")] + Written(z) + rest) ==
            Ok(Op(Less, Op(Add, Meaning(x), Meaning(y)), Meaning(z)), rest)
  {
    hide ParseLevel, Follow, Stops, Operand, Written, Meaning;
    TwoOperators(Less, Add, x, y, z, rest);
    TwoOperators(Add, Less, x, y, z, rest);
  }

  /** ... which is looser than `-` ... */
  lemma PlusLooserThanMinus(x: Form, y: Form, z: Form, rest: seq<Token>)
    requires Operand(x) && Operand(y) && Operand(z) && Follow(rest) && Stops(0, rest)
    ensures ParseLevel(0, Written(x) + [SymTok("+")] + Written(y) + [SymTok("-")] + Written(z) + rest) ==
            Ok(Op(Add, Meaning(x), Op(Sub, Meaning(y), Meaning(z))), rest)
    ensures ParseLevel(0, Written(x) + [SymTok("-")] + Written(y) + [SymTok("+")] + Written(z) + rest) ==
            Ok(Op(Add, Op(Sub, Meaning(x), Meaning(y)), Meaning(z)), rest)
  {
    hide ParseLevel, Follow, Stops, Operand, Written, Meaning;
    TwoOperators(Add, Sub, x, y, z, rest);
    TwoOperators(Sub, Add, x, y, z, rest);
  }

  /** ... which is looser than `*` ... */
  lemma MinusLooserThanTimes(x: Form, y: Form, z: Form, rest: seq<Token>)
    requires Operand(x) && Operand(y) && Operand(z) && Follow(rest) && Stops(0, rest)
    ensures ParseLevel(0, Written(x) + [SymTok("-")] + Written(y) + [SymTok("*")] + Written(z) + rest) ==
            Ok(Op(Sub, Meaning(x), Op(Mul, Meaning(y), Meaning(z))), rest)
    ensures ParseLevel(0, Written(x) + [SymTok("*")] + Written(y) + [SymTok("-")] + Written(z) + rest) ==
            Ok(Op(Sub, Op(Mul, Meaning(x), Meaning(y)), Meaning(z)), rest)
  {
    hide ParseLevel, Follow, Stops, Operand, Written, Meaning;
    TwoOperators(Sub, Mul, x, y, z, rest);
    TwoOperators(Mul, Sub, x, y, z, rest);
  }

  /** ... which is looser than `/` ... */
  lemma TimesLooserThanDivide(x: Form, y: Form, z: Form, rest: seq<Token>)
    requires Operand(x) && Operand(y) && Operand(z) && Follow(rest) && Stops(0, rest)
    ensures ParseLevel(0, Written(x) + [SymTok("*")] + Written(y) + [SymTok("/")] + Written(z) + rest) ==
            Ok(Op(Mul, Meaning(x), Op(Div, Meaning(y), Meaning(z))), rest)
    ensures ParseLevel(0, Written(x) + [SymTok("/")] + Written(y) + [SymTok("*")] + Written(z) + rest) ==
            Ok(Op(Mul, Op(Div, Meaning(x), Meaning(y)), Meaning(z)), rest)
  {
    hide ParseLevel, Follow, Stops, Operand, Written, Meaning;
    TwoOperators(Mul, Div, x, y, z, rest);
    TwoOperators(Div, Mul, x, y, z, rest);
  }

  /** ... which is looser than application. */
  lemma DivideLooserThanApplication(x: Form, y: Form, z: Form, rest: seq<Token>)
    requires Operand(x) && Operand(y) && Operand(z) && Follow(rest) && Stops(0, rest)
    ensures ParseLevel(0, Written(x) + [SymTok("/")] + Written(y) + Written(z) + rest) ==
            Ok(Op(Div, Meaning(x), Op(Apply, Meaning(y), Meaning(z))), rest)
    ensures ParseLevel(0, Written(x) + Written(y) + [SymTok("/")] + Written(z) + rest) ==
            Ok(Op(Div, Op(Apply, Meaning(x), Meaning(y)), Meaning(z)), rest)
  {
    hide ParseLevel, Follow, Stops, Operand, Written, Meaning;
    TwoOperators(Div, Apply, x, y, z, rest);
    assert Written(x) + [SymTok("/")] + Written(y) + [] + Written(z) + rest ==
           Written(x) + [SymTok("/")] + Written(y) + Written(z) + rest;
    TwoOperators(Apply, Div, x, y, z, rest);
    assert Written(x) + [] + Written(y) + [SymTok("/")] + Written(z) + rest ==
           Written(x) + Written(y) + [SymTok("/")] + Written(z) + rest;
  }

  /** Between operators that are not neighbours: x + y * z and x * y + z are as in arithmetic. */
  lemma PlusLooserThanTimes(x: Form, y: Form, z: Form, rest: seq<Token>)
    requires Operand(x) && Operand(y) && Operand(z) && Follow(rest) && Stops(0, rest)
    ensures ParseLevel(0, Written(x) + [SymTok("+")] + Written(y) + [SymTok("*")] + Written(z) + rest) ==
            Ok(Op(Add, Meaning(x), Op(Mul, Meaning(y), Meaning(z))), rest)
    ensures ParseLevel(0, Written(x) + [SymTok("*")] + Written(y) + [SymTok("+")] + Written(z) + rest) ==
            Ok(Op(Add, Op(Mul, Meaning(x), Meaning(y)), Meaning(z)), rest)
  {
    hide ParseLevel, Follow, Stops, Operand, Written, Meaning;
    TwoOperators(Add, Mul, x, y, z, rest);
    TwoOperators(Mul, Add, x, y, z, rest);
  }
}
