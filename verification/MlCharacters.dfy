/** The characters of the language, one by one: which are skipped, which start a token and of what kind,
    and which go on with it (ml/lex.c:77-206). */
module MlCharacters {
  import opened MlLexer
  import opened MlSource

  /** A gap is any number of blanks, tabs, line feeds and carriage returns, in any order. */
  lemma GapCharacters(gap: string)
    ensures Blank(gap) <==> forall i :: 0 <= i < |gap| ==> gap[i] in " \t\n\r"
  {
  }

  /** These characters, and no others, are skipped. */
  lemma SkippedCharacters(s: string, i: nat)
    requires i < |s|
    ensures s[i] in " \t\n\r" ==> LexAt(s, i) == LexAt(s, i + 1)
    ensures s[i] !in " \t\n\r" ==> Skip(s, i) == i
  {
  }

  /** A symbol starts a token of the kind Sym, and after the first character exactly '>' and ':' go on
      with it. */
  lemma SymbolToken(s: string, i: nat)
    requires i < |s| && s[i] in "<>+-*/()=:|;."
    ensures LexAt(s, i).Lexeme?
    ensures var t, next := LexAt(s, i).token, LexAt(s, i).next;
            && t == Token(Sym, s[i..next]) && i < next
            && (forall k :: i < k < next ==> s[k] == '>' || s[k] == ':')
            && (next < |s| ==> s[next] != '>' && s[next] != ':')
  {
  }

  /** A letter starts a token of the kind Word, and letters go on with it. */
  lemma WordToken(s: string, i: nat)
    requires i < |s| && ('A' <= s[i] <= 'Z' || 'a' <= s[i] <= 'z')
    ensures LexAt(s, i).Lexeme?
    ensures var t, next := LexAt(s, i).token, LexAt(s, i).next;
            && t == Token(Word, s[i..next]) && i < next
            && (forall k :: i < k < next ==> 'A' <= s[k] <= 'Z' || 'a' <= s[k] <= 'z')
            && (next < |s| ==> !('A' <= s[next] <= 'Z' || 'a' <= s[next] <= 'z'))
  {
  }

  /** A digit starts a token of the kind Int, and digits go on with it. */
  lemma IntToken(s: string, i: nat)
    requires i < |s| && '0' <= s[i] <= '9'
    ensures LexAt(s, i).Lexeme?
    ensures var t, next := LexAt(s, i).token, LexAt(s, i).next;
            && t == Token(Int, s[i..next]) && i < next
            && (forall k :: i < k < next ==> '0' <= s[k] <= '9')
            && (next < |s| ==> !('0' <= s[next] <= '9'))
  {
  }

  /** The lexer gives up at any other character. */
  lemma OtherCharacters(s: string, i: nat)
    requires i < |s| && s[i] !in " \t\n\r" && s[i] !in "<>+-*/()=:|;."
    requires !('A' <= s[i] <= 'Z') && !('a' <= s[i] <= 'z') && !('0' <= s[i] <= '9')
    ensures LexAt(s, i) == Unrecognised
  {
  }
}
