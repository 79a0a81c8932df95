/** The round trip down to characters: a form written out as program text, with white space as the writer
    likes it, lexed and parsed. */
module MlSource {
  import opened MlSyntax
  import opened MlLexer
  import opened MlGrammar
  import opened MlForms
  import opened MlPrinter

  // ---------------------------------------------------------------- text

  /** The text of a list of tokens: a gap before each, and one at the end. */
  function Text(ts: seq<Token>, gaps: seq<string>): string
    requires |gaps| == |ts| + 1
  {
    if ts == [] then gaps[0] else gaps[0] + ts[0].str + Text(ts[1..], gaps[1..])
  }

  predicate Blank(gap: string) {
    forall i :: 0 <= i < |gap| ==> IsSpace(gap[i])
  }

  /** The text of the token is one of its kind. */
  ghost predicate Lexable(t: Token) {
    && t.str != [] && t.kind in {Sym, Word, Int} && KindOf(t.str[0]) == t.kind
    && forall i :: 1 <= i < |t.str| ==> Continues(t.kind, t.str[i])
  }

  ghost predicate AllLexable(ts: seq<Token>) {
    forall i :: 0 <= i < |ts| ==> Lexable(ts[i])
  }

  /** The gaps are white space, and there is some wherever the next token would go on with the one before
      it. */
  ghost predicate Spaced(ts: seq<Token>, gaps: seq<string>) {
    && |gaps| == |ts| + 1 && (forall i :: 0 <= i < |gaps| ==> Blank(gaps[i]))
    && forall i :: 1 <= i < |ts| && gaps[i] == [] && ts[i].str != [] ==> !Continues(ts[i - 1].kind, ts[i].str[0])
  }

  // ---------------------------------------------------------------- lexing it

  lemma {:induction false} MunchTo(kind: Kind, s: string, i: nat, j: nat)
    requires i <= j <= |s| && (j < |s| ==> !Continues(kind, s[j]))
    requires forall k :: i <= k < j ==> Continues(kind, s[k])
    ensures Munch(kind, s, i) == j
    decreases j - i
  {
    if i < j {
      MunchTo(kind, s, i + 1, j);
    }
  }

  lemma {:induction false} SkipTo(s: string, i: nat, j: nat)
    requires i <= j <= |s| && (j < |s| ==> !IsSpace(s[j]))
    requires forall k :: i <= k < j ==> IsSpace(s[k])
    ensures Skip(s, i) == j
    decreases j - i
  {
    if i < j {
      SkipTo(s, i + 1, j);
    }
  }

  /** The lexer finds a token that starts at j, after white space from i on, and with which nothing goes
      on. */
  lemma LexOne(s: string, i: nat, j: nat, t: Token)
    requires Lexable(t) && i <= j && j + |t.str| <= |s| && s[j..j + |t.str|] == t.str
    requires forall k :: i <= k < j ==> IsSpace(s[k])
    requires j + |t.str| < |s| ==> !Continues(t.kind, s[j + |t.str|])
    ensures LexAt(s, i) == Lexeme(t, j + |t.str|)
  {
    hide IsSpace, IsSym, IsLetter, IsDigit, Skip, Munch;
    var n := |t.str|;
    assert forall k :: j <= k < j + n ==> s[k] == t.str[k - j];
    assert s[j] == t.str[0];
    SpaceStartsNothing(s[j]);
    SkipTo(s, i, j);
    forall k | j + 1 <= k < j + n ensures Continues(t.kind, s[k]) {
      assert s[k] == t.str[k - j];
    }
    MunchTo(t.kind, s, j + 1, j + n);
  }

  lemma LexNext(before: string, gap: string, t: Token, after: string)
    requires Lexable(t) && Blank(gap) && (after != [] ==> !Continues(t.kind, after[0]))
    ensures var s := before + gap + t.str + after;
            Tokens(s, |before|) == [t] + Tokens(s, |before + gap + t.str|)
  {
    hide Lexable, LexAt, Skip, IsSpace;
    var s := before + gap + t.str + after;
    var j := |before| + |gap|;
    assert |before + gap + t.str| == j + |t.str|;
    assert s[j..j + |t.str|] == t.str;
    forall k | |before| <= k < j ensures IsSpace(s[k]) {
      assert s[k] == gap[k - |before|];
    }
    LexOne(s, |before|, j, t);
    LexableKind(t);
  }

  lemma LexableKind(t: Token)
    requires Lexable(t)
    ensures t.kind != Eof && t.kind != Bad && t.str != []
  {
  }

  lemma EndOfText(before: string, gap: string)
    requires Blank(gap)
    ensures Tokens(before + gap, |before|) == [Token(Eof, "")]
  {
    hide IsSpace;
    var s := before + gap;
    forall k | |before| <= k < |s| ensures IsSpace(s[k]) {
      assert s[k] == gap[k - |before|];
    }
    SkipTo(s, |before|, |s|);
  }

  lemma SpaceContinuesNothing(kind: Kind, c: char)
    ensures IsSpace(c) ==> !Continues(kind, c)
  {
  }

  /** What follows a token in a spaced text does not go on with it. */
  lemma NextDoesNotContinue(ts: seq<Token>, gaps: seq<string>)
    requires AllLexable(ts) && Spaced(ts, gaps) && ts != []
    ensures var after := Text(ts[1..], gaps[1..]); after != [] ==> !Continues(ts[0].kind, after[0])
  {
    hide Lexable, Continues, IsSpace;
    var after := Text(ts[1..], gaps[1..]);
    if gaps[1] != [] {
      assert Blank(gaps[1]) && after[0] == gaps[1][0];
      SpaceContinuesNothing(ts[0].kind, after[0]);
    } else if |ts| > 1 {
      LexableKind(ts[1]);
      assert after[0] == ts[1].str[0];
    }
  }

  lemma SpacedRest(ts: seq<Token>, gaps: seq<string>)
    requires AllLexable(ts) && Spaced(ts, gaps) && ts != []
    ensures AllLexable(ts[1..]) && Spaced(ts[1..], gaps[1..]) && Blank(gaps[0])
  {
    hide Lexable, Continues, Blank;
  }

  /** Tokens written out are lexed as the same tokens and the end. */
  lemma {:induction false} TextLexed(before: string, ts: seq<Token>, gaps: seq<string>)
    requires AllLexable(ts) && Spaced(ts, gaps)
    ensures Tokens(before + Text(ts, gaps), |before|) == ts + [Token(Eof, "")]
    decreases |ts|
  {
    hide Lexable, Tokens, Spaced, AllLexable, Blank, Continues;
    SpacedGaps(ts, gaps);
    if ts == [] {
      EndOfText(before, gaps[0]);
    } else {
      assert Lexable(ts[0]) by { FirstLexable(ts); }
      SpacedRest(ts, gaps);
      NextDoesNotContinue(ts, gaps);
      var next := before + gaps[0] + ts[0].str;
      var after := Text(ts[1..], gaps[1..]);
      assert before + Text(ts, gaps) == next + after;
      LexNext(before, gaps[0], ts[0], after);
      TextLexed(next, ts[1..], gaps[1..]);
      assert ts + [Token(Eof, "")] == [ts[0]] + (ts[1..] + [Token(Eof, "")]);
    }
  }

  lemma SpacedGaps(ts: seq<Token>, gaps: seq<string>)
    requires Spaced(ts, gaps)
    ensures |gaps| == |ts| + 1 && Blank(gaps[0])
  {
    hide Blank;
  }

  lemma FirstLexable(ts: seq<Token>)
    requires AllLexable(ts) && ts != []
    ensures Lexable(ts[0])
  {
  }

  // ---------------------------------------------------------------- which forms can be written out

  /** Names are of letters and numerals of digits. */
  predicate Spelt(f: Form) {
    match f
    case NameForm(x) => x != [] && forall i :: 0 <= i < |x| ==> IsLetter(x[i])
    case NumForm(d) => d != [] && forall i :: 0 <= i < |d| ==> IsDigit(d[i])
    case OpForm(_, a, b) => Spelt(a) && Spelt(b)
    case IfForm(c, t, e) => Spelt(c) && Spelt(t) && Spelt(e)
    case FnForm(x, body) => x != [] && (forall i :: 0 <= i < |x| ==> IsLetter(x[i])) && Spelt(body)
    case Group(g) => Spelt(g)
  }

  lemma LexableConcat(a: seq<Token>, b: seq<Token>)
    requires AllLexable(a) && AllLexable(b)
    ensures AllLexable(a + b)
  {
  }

  lemma NameLexable(x: string)
    requires x != [] && forall i :: 0 <= i < |x| ==> IsLetter(x[i])
    ensures AllLexable([WordTok(x)])
  {
    assert KindOf(x[0]) == Word;
  }

  lemma DigitsLexable(d: string)
    requires d != [] && forall i :: 0 <= i < |d| ==> IsDigit(d[i])
    ensures AllLexable([Token(Int, d)])
  {
    assert KindOf(d[0]) == Int;
  }

  lemma SymLexable(c: char)
    requires IsSym(c)
    ensures AllLexable([SymTok([c])])
  {
  }

  lemma OpLexable(op: Operator)
    ensures AllLexable(OpTokens(op))
  {
    match op
    case Cons =>
      var t := SymTok("::");
      assert Lexable(t) by {
        assert t.str[0] == ':' && t.str[1] == ':';
      }
      assert OpTokens(op) == [t];
    case Greater => SymLexable('>');
    case Less => SymLexable('<');
    case Add => SymLexable('+');
    case Sub => SymLexable('-');
    case Mul => SymLexable('*');
    case Div => SymLexable('/');
    case Apply =>
  }

  lemma WordsLexable()
    ensures AllLexable([WordTok("if")]) && AllLexable([WordTok("then")]) && AllLexable([WordTok("else")])
    ensures AllLexable([WordTok("fn")])
  {
    hide Lexable, AllLexable;
    NameLexable("if");
    NameLexable("then");
    NameLexable("else");
    NameLexable("fn");
  }

  lemma BracketsLexable()
    ensures AllLexable([SymTok(".")]) && AllLexable([SymTok("(")]) && AllLexable([SymTok(")")])
  {
    hide Lexable, AllLexable;
    SymLexable('.');
    SymLexable('(');
    SymLexable(')');
  }

  /** The lexer can read every token of such a form. */
  lemma {:induction false} WrittenLexable(f: Form)
    requires Spelt(f)
    ensures AllLexable(Written(f))
  {
    hide Lexable, AllLexable, IsLetter, IsDigit;
    WordsLexable();
    BracketsLexable();
    match f
    case NameForm(x) =>
      NameLexable(x);
    case NumForm(d) =>
      DigitsLexable(d);
    case OpForm(op, a, b) =>
      OpLexable(op);
      WrittenLexable(a);
      WrittenLexable(b);
      LexableConcat(Written(a), OpTokens(op));
      LexableConcat(Written(a) + OpTokens(op), Written(b));
    case IfForm(c, t, e) =>
      WrittenLexable(c);
      WrittenLexable(t);
      WrittenLexable(e);
      LexableConcat([WordTok("if")], Written(c));
      LexableConcat([WordTok("if")] + Written(c), [WordTok("then")]);
      LexableConcat([WordTok("if")] + Written(c) + [WordTok("then")], Written(t));
      LexableConcat([WordTok("if")] + Written(c) + [WordTok("then")] + Written(t), [WordTok("else")]);
      LexableConcat([WordTok("if")] + Written(c) + [WordTok("then")] + Written(t) + [WordTok("else")], Written(e));
    case FnForm(x, body) =>
      NameLexable(x);
      WrittenLexable(body);
      LexableConcat([WordTok("fn")], [WordTok(x)]);
      LexableConcat([WordTok("fn")] + [WordTok(x)], [SymTok(".")]);
      LexableConcat([WordTok("fn")] + [WordTok(x)] + [SymTok(".")], Written(body));
      assert [WordTok("fn")] + [WordTok(x)] + [SymTok(".")] == [WordTok("fn"), WordTok(x), SymTok(".")];
    case Group(g) =>
      WrittenLexable(g);
      LexableConcat([SymTok("(")], Written(g));
      LexableConcat([SymTok("(")] + Written(g), [SymTok(")")]);
  }

  lemma LeafSpelt(e: Expr)
    requires Printable(e) && (e.Name? || e.Num?)
    ensures Spelt(Full(e)) && Spelt(Minimal(e))
  {
    hide IsLetter, IsDigit;
  }

  lemma {:induction false} FullSpelt(e: Expr)
    requires Printable(e)
    ensures Spelt(Full(e))
  {
    hide IsLetter, IsDigit, IsKeyword, NumeralOf;
    match e
    case Name(_) =>
      LeafSpelt(e);
    case Num(_) =>
      LeafSpelt(e);
    case Op(_, a, b) =>
      FullSpelt(a);
      FullSpelt(b);
      assert Spelt(Group(Full(a))) && Spelt(Group(Full(b)));
    case If(c, t, f) =>
      FullSpelt(c);
      FullSpelt(t);
      FullSpelt(f);
      assert Spelt(Group(Full(c))) && Spelt(Group(Full(t))) && Spelt(Group(Full(f)));
    case Fn(_, body) =>
      FullSpelt(body);
      assert Spelt(Group(Full(body)));
  }

  lemma {:induction false} MinimalSpelt(e: Expr)
    requires Printable(e)
    ensures Spelt(Minimal(e))
  {
    hide IsLetter, IsDigit, IsKeyword, NumeralOf;
    match e
    case Name(_) =>
      LeafSpelt(e);
    case Num(_) =>
      LeafSpelt(e);
    case Op(_, a, b) =>
      MinimalSpelt(a);
      MinimalSpelt(b);
    case If(c, t, f) =>
      MinimalSpelt(c);
      MinimalSpelt(t);
      MinimalSpelt(f);
    case Fn(_, body) =>
      MinimalSpelt(body);
  }

  // ---------------------------------------------------------------- the round trip

  /** What parse_init and parse make of a program text. */
  function ParseSource(s: string): Parse<Expr> {
    var ts := Tokens(s, 0);
    if ts[0].kind == Bad then Fail else ParseLevel(0, ts)
  }

  /** A form that fits, written out with any spacing that keeps its tokens apart, is read as what it means,
      and all of the text is read. */
  lemma FormRoundTrip(f: Form, gaps: seq<string>)
    requires Fits(0, f, true) && Spelt(f) && Spaced(Written(f), gaps)
    ensures ParseSource(Text(Written(f), gaps)) == Ok(Meaning(f), [Token(Eof, "")])
  {
    hide Lexable, AllLexable, ParseLevel, Written, Meaning, Spelt, Stops;
    SpacedGaps(Written(f), gaps);
    WrittenLexable(f);
    TextLexed("", Written(f), gaps);
    assert "" + Text(Written(f), gaps) == Text(Written(f), gaps);
    EndStops(Token(Eof, ""), []);
    assert [Token(Eof, "")] + [] == [Token(Eof, "")];
    FormAccepted(f, [Token(Eof, "")]);
    WrittenStarts(0, f, true, [Token(Eof, "")]);
  }

  /** An expression written out with few parentheses or with all of them, with numerals as ml_itoa writes
      them, is read back as itself. */
  lemma SourceRoundTrip(e: Expr, gaps: seq<string>)
    requires Printable(e)
    ensures Spaced(Written(Minimal(e)), gaps) ==>
              ParseSource(Text(Written(Minimal(e)), gaps)) == Ok(e, [Token(Eof, "")])
    ensures Spaced(Written(Full(e)), gaps) ==>
              ParseSource(Text(Written(Full(e)), gaps)) == Ok(e, [Token(Eof, "")])
  {
    hide ParseSource, Written, Meaning, Minimal, Full, Fits, Spelt, Text, Spaced;
    MinimalSpelt(e);
    FullSpelt(e);
    if Spaced(Written(Minimal(e)), gaps) {
      MinimalMeans(e);
      FormRoundTrip(Minimal(e), gaps);
    }
    if Spaced(Written(Full(e)), gaps) {
      FullMeans(e);
      FormRoundTrip(Full(e), gaps);
    }
  }
}
