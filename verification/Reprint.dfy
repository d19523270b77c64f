/**
 Printing tokens one per line and reading them back.
 */
module Reprint {
  import opened Text
  import opened Lexer

  /** A token as `Display` writes it, followed by more text. */
  function Line(span: string, rest: string): string {
    span + ("\n" + rest)
  }

  lemma PrefixStable(p: string, span: string, rest: string)
    requires '\n' !in p
    ensures p <= Line(span, rest) <==> p <= span
  {
    var u := Line(span, rest);
    assert u[..|span|] == span && u[|span|] == '\n';
    if p <= u {
      assert forall j | 0 <= j < |p| :: u[j] == p[j] != '\n';
    }
  }

  // ------------------------------------------------ a recogniser that fails keeps failing

  lemma BlankMissing(s: string, span: string, rest: string)
    requires span != "" && span <= s && ScanWhitespace(s) == Missing
    ensures ScanWhitespace(Line(span, rest)) == Missing
  {
    assert Line(span, rest)[0] == span[0] == s[0];
  }

  lemma CommentMissing(s: string, span: string, rest: string)
    requires span <= s && ScanComment(s) == Missing
    ensures ScanComment(Line(span, rest)) == Missing
  {
    PrefixStable("/*", span, rest);
    PrefixStable("//", span, rest);
  }

  lemma EndifMissing(s: string, span: string, rest: string)
    requires span <= s && ScanEndif(s) == Missing
    ensures ScanEndif(Line(span, rest)) == Missing
  {
    PrefixStable("#endif", span, rest);
  }

  lemma ElseMissing(s: string, span: string, rest: string)
    requires span <= s && ScanElse(s) == Missing
    ensures ScanElse(Line(span, rest)) == Missing
  {
    PrefixStable("#else", span, rest);
  }

  lemma IncludeMissing(s: string, span: string, rest: string)
    requires span <= s && ScanInclude(s) == Missing
    ensures ScanInclude(Line(span, rest)) == Missing
  {
    PrefixStable("#include \"", span, rest);
    PrefixStable("#include <", span, rest);
  }

  lemma DefineMissing(s: string, span: string, rest: string)
    requires span <= s && ScanDefine(s) == Missing
    ensures ScanDefine(Line(span, rest)) == Missing
  {
    PrefixStable("#define ", span, rest);
  }

  lemma IfMissing(s: string, span: string, rest: string)
    requires span <= s && ScanIf(s) == Missing
    ensures ScanIf(Line(span, rest)) == Missing
  {
    PrefixStable("#if ", span, rest);
    PrefixStable("#ifdef ", span, rest);
    PrefixStable("#ifndef ", span, rest);
  }

  lemma TypedefMissing(s: string, span: string, rest: string)
    requires span <= s && ScanTypedef(s) == Missing
    ensures ScanTypedef(Line(span, rest)) == Missing
  {
    PrefixStable("typedef", span, rest);
  }

  // ------------------------------------------------ a recogniser that accepted accepts the same

  lemma CommentAgain(s: string, t: Token, rest: string)
    requires ScanComment(s) == Found(t) && Terminated(t)
    ensures ScanComment(Line(t.span, rest)) == Found(t)
  {
    CommentFound(s);
    if "/*" <= s {
      assert t.span[0] == '/' && t.span[1] == '*';
      BlockAgain(t.span, rest);
    } else {
      LineCommentAgain(t.span, rest);
    }
  }

  lemma LineCommentAgain(span: string, rest: string)
    requires "//" <= span && '\n' !in span
    ensures ScanComment(Line(span, rest)) == Found(Token(Comment, "", span))
  {
    assert span[1] == '/';
    LineOfLine(span, rest);
  }

  lemma BlockAgain(span: string, rest: string)
    requires Find(span, "*/").Some?
    requires forall j: nat {:trigger At(span, "*/", j)} :: j + 2 < |span| ==> !At(span, "*/", j)
    ensures BlockComment(Line(span, rest)) == span
  {
    var k := Find(span, "*/").value;
    assert At(span, "*/", k);
    assert span[..k + 2] == span;
    FindStable(span, Line(span, rest), "*/");
  }

  lemma EndifAgain(s: string, t: Token, rest: string)
    requires ScanEndif(s) == Found(t)
    ensures ScanEndif(Line(t.span, rest)) == Found(t)
  {
    DirectiveFound(s);
    PrefixStable("#endif", t.span, rest);
    LineOfLine(t.span, rest);
  }

  lemma ElseAgain(s: string, t: Token, rest: string)
    requires ScanElse(s) == Found(t)
    ensures ScanElse(Line(t.span, rest)) == Found(t)
  {
    DirectiveFound(s);
    PrefixStable("#else", t.span, rest);
    LineOfLine(t.span, rest);
  }

  lemma IfAgain(s: string, t: Token, rest: string)
    requires ScanIf(s) == Found(t)
    ensures ScanIf(Line(t.span, rest)) == Found(t)
  {
    IfFound(s);
    PrefixStable("#if ", t.span, rest);
    PrefixStable("#ifdef ", t.span, rest);
    PrefixStable("#ifndef ", t.span, rest);
    LineOfLine(t.span, rest);
  }

  lemma IncludeAgain(s: string, t: Token, rest: string)
    requires ScanInclude(s) == Found(t)
    ensures ScanInclude(Line(t.span, rest)) == Found(t)
  {
    var u := Line(t.span, rest);
    var k := IndexOf(s, '>');
    IncludePanics(s);
    AngleInclude(s);
    assert forall j | 0 <= j <= k :: u[j] == s[j];
    PrefixStable("#include \"", t.span, rest);
    assert s[9] == '<';
    IndexOfUnique(u, '>', k);
    PrefixStable("#include <", t.span, rest);
    AngleInclude(u);
    assert u[10..k] == s[10..k];
  }

  lemma DefineAgain(s: string, t: Token, rest: string)
    requires ScanDefine(s) == Found(t)
    ensures ScanDefine(Line(t.span, rest)) == Found(t)
  {
    PrefixStable("#define ", t.span, rest);
    LinePrefix(s, "#define ");
    LineOfLine(t.span, rest);
  }

  lemma TypedefAgain(s: string, t: Token, rest: string)
    requires ScanTypedef(s) == Found(t) && Terminated(t)
    ensures ScanTypedef(Line(t.span, rest)) == Found(t)
  {
    TypedefLong(s);
    TypedefMinimal(s);
    PrefixStable("typedef", t.span, rest);
    TypedefSpanAgain(t.span, rest);
  }

  lemma TypedefSpanAgain(span: string, rest: string)
    requires span != "" && Closes(span, |span| - 1)
    requires forall j: nat {:trigger Closes(span, j)} :: j < |span| - 1 ==> !Closes(span, j)
    ensures TypedefSpan(Line(span, rest)) == span
  {
    var u := Line(span, rest);
    forall j: nat | j < |span| ensures Closes(u, j) <==> Closes(span, j) {
      ClosesPrefix(span, u, j);
    }
  }

  /** The statement recognisers look only at the text up to the first semicolon. */
  function ScanStatement(s: string): Scan {
    if ScanConst(s) != Missing then ScanConst(s) else ScanFunction(s)
  }

  lemma StatementAgain(s: string, t: Token, rest: string)
    requires ScanStatement(s) == Found(t)
    ensures ScanStatement(Line(t.span, rest)) == Found(t)
  {
    StatementFound(s);
    StatementUnique(Line(t.span, rest), t.span);
  }

  /** Everything tried before the statement recognisers fails again. */
  lemma PrefixesMissing(s: string, span: string, rest: string)
    requires span != "" && span <= s
    requires ScanWhitespace(s) == ScanComment(s) == ScanEndif(s) == ScanInclude(s) == Missing
    requires ScanDefine(s) == ScanIf(s) == ScanElse(s) == ScanTypedef(s) == Missing
    ensures Next(Line(span, rest)) == ScanStatement(Line(span, rest))
  {
    BlankMissing(s, span, rest);
    CommentMissing(s, span, rest);
    EndifMissing(s, span, rest);
    IncludeMissing(s, span, rest);
    DefineMissing(s, span, rest);
    IfMissing(s, span, rest);
    ElseMissing(s, span, rest);
    TypedefMissing(s, span, rest);
  }

  lemma DirectiveReprints(s: string, t: Token, rest: string)
    requires Next(s) == Found(t)
    requires ScanWhitespace(s) == ScanComment(s) == Missing
    requires ScanEndif(s) == Found(t) || ScanInclude(s) == Found(t) || ScanDefine(s) == Found(t)
             || ScanIf(s) == Found(t) || ScanElse(s) == Found(t)
    ensures Next(Line(t.span, rest)) == Found(t)
  {
    NextPrefix(s);
    BlankMissing(s, t.span, rest);
    CommentMissing(s, t.span, rest);
    if ScanEndif(s) != Missing { EndifAgain(s, t, rest); return; }
    EndifMissing(s, t.span, rest);
    if ScanInclude(s) != Missing { IncludeAgain(s, t, rest); return; }
    IncludeMissing(s, t.span, rest);
    if ScanDefine(s) != Missing { DefineAgain(s, t, rest); return; }
    DefineMissing(s, t.span, rest);
    if ScanIf(s) != Missing { IfAgain(s, t, rest); return; }
    IfMissing(s, t.span, rest);
    ElseAgain(s, t, rest);
  }

  /** A terminated token, printed on its own line, is read back as itself whatever follows. */
  lemma TerminatedReprints(s: string, t: Token, rest: string)
    requires Next(s) == Found(t) && t.tt != Whitespace && Terminated(t)
    ensures Next(Line(t.span, rest)) == Found(t)
  {
    NextPrefix(s);
    BlankMissing(s, t.span, rest);
    if ScanComment(s) != Missing {
      CommentAgain(s, t, rest);
    } else if ScanEndif(s) != Missing || ScanInclude(s) != Missing || ScanDefine(s) != Missing
              || ScanIf(s) != Missing || ScanElse(s) != Missing {
      DirectiveReprints(s, t, rest);
    } else if ScanTypedef(s) != Missing {
      TypedefLong(s);
      TypedefAgain(s, t, rest);
      NextTypedef(Line(t.span, rest));
    } else {
      StatementAgain(s, t, rest);
      PrefixesMissing(s, t.span, rest);
    }
  }

  /** A token closed only by the end of the text swallows what is printed after it. */
  lemma UnterminatedDiffers(t: Token, rest: string)
    requires !Terminated(t)
    ensures Next(Line(t.span, rest)) != Found(t)
  {
    if "/*" <= t.span && Find(t.span, "*/").None? {
      OpenComment(t.span, rest);
    } else {
      OpenTypedef(t.span, rest);
    }
  }

  lemma OpenComment(span: string, rest: string)
    requires "/*" <= span && Find(span, "*/").None?
    ensures Next(Line(span, rest)).Found? ==> Next(Line(span, rest)).token.span != span
  {
    var u := Line(span, rest);
    NextComment(u);
    if Find(u, "*/").Some? {
      var k := Find(u, "*/").value;
      if k + 2 <= |span| { AtPrefix(span, u, "*/", k); }
    }
  }

  lemma OpenTypedef(span: string, rest: string)
    requires "typedef" <= span && !Closes(span, |span| - 1)
    ensures Next(Line(span, rest)).Found? ==> Next(Line(span, rest)).token.span != span
  {
    var u := Line(span, rest);
    PrefixStable("typedef", span, rest);
    NextTypedef(u);
    ClosesPrefix(span, u, |span| - 1);
    assert |span| < |u|;
  }

  // ------------------------------------------------ sequences of tokens

  predicate IsInk(t: Token) {
    t.tt != Whitespace
  }

  /** Tokens other than whitespace. */
  function Ink(ts: seq<Token>): seq<Token> {
    Keep(ts, IsInk)
  }

  function PrintTokens(ts: seq<Token>): string {
    if ts == [] then "" else Line(ts[0].span, PrintTokens(ts[1..]))
  }

  /** Tokens the lexer can produce, none of them whitespace. */
  ghost predicate Printable(ts: seq<Token>) {
    forall t | t in ts :: Genuine(t) && t.tt != Whitespace
  }

  predicate AllTerminated(ts: seq<Token>) {
    forall t | t in ts :: Terminated(t)
  }

  const NEWLINE: Token := Token(Whitespace, "", "\n")

  lemma StartsWithInk(t: Token)
    requires Genuine(t) && t.tt != Whitespace
    ensures t.span != "" && !IsSpace(t.span[0])
  {
    var s :| Next(s) == Found(t);
    NextPrefix(s);
    assert s[0] == t.span[0];
  }

  lemma NewlineNext(rest: string)
    requires rest == "" || !IsSpace(rest[0])
    ensures Next("\n" + rest) == Found(NEWLINE)
  {
    var s := "\n" + rest;
    assert IsSpace(s[0]);
    assert rest != "" ==> s[1] == rest[0];
    assert SpaceEnd(s, 1) == 1;
    assert s[..1] == "\n";
  }

  lemma LexStep(t: Token, tail: string)
    requires t.span != "" && Next(t.span + tail) == Found(t)
    ensures Lex(t.span + tail) == Lexed([t] + Lex(tail).tokens, Lex(tail).rest)
  {
    LexUnfold(t.span + tail, t);
    assert (t.span + tail)[|t.span|..] == tail;
  }

  lemma TwoAhead(t: Token, ts: seq<Token>)
    ensures [t] + ([NEWLINE] + ts) == [t, NEWLINE] + ts
  {
  }

  lemma LexNewline(rest: string)
    requires rest == "" || !IsSpace(rest[0])
    ensures Lex("\n" + rest) == Lexed([NEWLINE] + Lex(rest).tokens, Lex(rest).rest)
  {
    NewlineNext(rest);
    LexStep(NEWLINE, rest);
  }

  lemma GenuineReprints(t: Token, rest: string)
    requires Genuine(t) && t.tt != Whitespace && Terminated(t)
    ensures t.span != "" && Next(t.span + ("\n" + rest)) == Found(t)
  {
    var s :| Next(s) == Found(t);
    TerminatedReprints(s, t, rest);
    StartsWithInk(t);
  }

  lemma LexToken(t: Token, rest: string)
    requires Genuine(t) && t.tt != Whitespace && Terminated(t)
    ensures Lex(Line(t.span, rest)) == Lexed([t] + Lex("\n" + rest).tokens, Lex("\n" + rest).rest)
  {
    GenuineReprints(t, rest);
    LexStep(t, "\n" + rest);
  }

  /** Reading a printed token consumes its line and nothing else. */
  lemma LexLine(t: Token, rest: string)
    requires Genuine(t) && t.tt != Whitespace && Terminated(t)
    requires rest == "" || !IsSpace(rest[0])
    ensures Lex(Line(t.span, rest)) == Lexed([t, NEWLINE] + Lex(rest).tokens, Lex(rest).rest)
  {
    LexToken(t, rest);
    LexNewline(rest);
    TwoAhead(t, Lex(rest).tokens);
  }

  lemma PrintStart(ts: seq<Token>)
    requires Printable(ts)
    ensures PrintTokens(ts) == "" || !IsSpace(PrintTokens(ts)[0])
  {
    if ts != [] { StartsWithInk(ts[0]); }
  }

  lemma InkCons(t: Token, ts: seq<Token>)
    requires t.tt != Whitespace
    ensures Ink([t, NEWLINE] + ts) == [t] + Ink(ts)
    ensures Ink([t] + ts) == [t] + Ink(ts)
  {
    KeepAppend([t, NEWLINE], ts, IsInk);
    KeepAppend([t], ts, IsInk);
    assert Init([t, NEWLINE]) == [t] && Init([t]) == [];
    assert Keep([t], IsInk) == [t];
  }

  lemma LexPrinted(ts: seq<Token>)
    requires ts != [] && Printable(ts) && Terminated(ts[0])
    ensures var tail := Lex(PrintTokens(ts[1..]));
            && Lex(PrintTokens(ts)).rest == tail.rest
            && Ink(Lex(PrintTokens(ts)).tokens) == [ts[0]] + Ink(tail.tokens)
  {
    PrintStart(ts[1..]);
    LexLine(ts[0], PrintTokens(ts[1..]));
    InkCons(ts[0], Lex(PrintTokens(ts[1..])).tokens);
  }

  lemma TerminatedCons(ts: seq<Token>)
    requires ts != []
    ensures AllTerminated(ts) <==> Terminated(ts[0]) && AllTerminated(ts[1..])
    ensures ts == [ts[0]] + ts[1..]
  {
  }

  /** Printed text that is read back completely and exactly. */
  predicate ReadsBack(ts: seq<Token>) {
    Lex(PrintTokens(ts)).rest == "" && Ink(Lex(PrintTokens(ts)).tokens) == ts
  }

  lemma ReadsBackCons(ts: seq<Token>)
    requires ts != [] && Printable(ts) && Terminated(ts[0])
    ensures ReadsBack(ts) <==> ReadsBack(ts[1..])
  {
    LexPrinted(ts);
  }

  lemma FirstDiffers(ts: seq<Token>)
    requires ts != [] && Printable(ts) && !Terminated(ts[0])
    ensures !ReadsBack(ts)
  {
    var t := ts[0];
    StartsWithInk(t);
    var rest := PrintTokens(ts[1..]);
    UnterminatedDiffers(t, rest);
    LexFirst(Line(t.span, rest), t);
  }

  /**
   Round trip: tokens printed one per line are read back exactly, and all of them,
   if and only if each is terminated.
   */
  lemma {:induction false} PrintLexRoundTrip(ts: seq<Token>)
    requires Printable(ts)
    ensures ReadsBack(ts) <==> AllTerminated(ts)
  {
    if ts == [] {
    } else {
      TerminatedCons(ts);
      if Terminated(ts[0]) {
        ReadsBackCons(ts);
        PrintLexRoundTrip(ts[1..]);
      } else {
        FirstDiffers(ts);
      }
    }
  }

  lemma NextInk(u: string)
    requires u != "" && !IsSpace(u[0]) && Next(u).Found?
    ensures Next(u).token.tt != Whitespace
  {
  }

  /** What the first token read from an inked text is not. */
  lemma LexFirst(u: string, t: Token)
    requires u != "" && !IsSpace(u[0]) && Next(u) != Found(t)
    ensures Lex(u).rest == "" ==> |Ink(Lex(u).tokens)| > 0 && Ink(Lex(u).tokens)[0] != t
  {
    var n := Next(u);
    if n.Found? {
      LexUnfold(u, n.token);
      NextInk(u);
      InkCons(n.token, Lex(u[|n.token.span|..]).tokens);
    }
  }
}
