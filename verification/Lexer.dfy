/**
 The hand-written C tokenizer of the header splitter: one recogniser per token
 kind, tried in a fixed order, and the loop that consumes a whole text.
 */
module Lexer {
  import opened Text

  datatype TokenType =
    | Comment | Typedef | Function | Const | PrivateToken
    | PreprDefine | PreprInclude | PreprIf | PreprElse | PreprEndif | Whitespace

  datatype Token = Token(tt: TokenType, id: string, span: string)

  /** `Missing` is the recognisers' `None`; `Panic` is a failed slice, `unwrap` or `expect`. */
  datatype Scan = Found(token: Token) | Missing | Panic

  // ---------------------------------------------------------------- token grammar

  /** Net number of braces opened in `p`. */
  function BraceDepth(p: string): int {
    if p == "" then 0
    else
      var c := p[|p| - 1];
      BraceDepth(p[..|p| - 1]) + (if c == '{' then 1 else if c == '}' then -1 else 0)
  }

  /** The braces opened minus the braces closed. */
  lemma {:induction false} BracesCounted(p: string)
    ensures BraceDepth(p) + multiset(p)['}'] == multiset(p)['{']
  {
    if p != "" {
      var front := p[..|p| - 1];
      BracesCounted(front);
      assert p == front + [p[|p| - 1]];
    }
  }

  /** A semicolon outside all braces. */
  predicate Closes(s: string, j: nat) {
    j < |s| && s[j] == ';' && BraceDepth(s[..j]) == 0
  }

  /** The longest word that ends just before `e`. */
  function WordBefore(s: string, e: nat): string
    requires e <= |s|
  {
    s[WordStart(s, e)..e]
  }

  /** `w` is the longest word that ends just before `e`. */
  predicate IsWordBefore(w: string, s: string, e: nat) {
    && |w| <= e <= |s| && s[e - |w|..e] == w
    && (forall j | 0 <= j < |w| :: IsWord(w[j]))
    && (|w| < e ==> !IsWord(s[e - |w| - 1]))
  }

  /** The only semicolon of `span` is its last character. */
  predicate IsStatement(span: string) {
    span != "" && span[|span| - 1] == ';' && ';' !in span[..|span| - 1]
  }

  predicate TypedefShape(id: string, span: string) {
    && "typedef" <= span
    && (forall j: nat {:trigger Closes(span, j)} :: j < |span| - 1 ==> !Closes(span, j))
    && IsWordBefore(id, span, |span| - 1)
  }

  predicate DefineShape(id: string, span: string) {
    && "#define " <= span && '\n' !in span
    && var b := SpaceEnd(span, 8);
    && b < |span| && id == span[b..InkEnd(span, b)]
  }

  predicate CommentShape(span: string) {
    || ("//" <= span && '\n' !in span)
    || ("/*" <= span && forall j: nat {:trigger At(span, "*/", j)} :: j + 2 < |span| ==> !At(span, "*/", j))
  }

  predicate IsOpener(s: string) {
    "#if " <= s || "#ifdef " <= s || "#ifndef " <= s
  }

  /** What the text and the id of a token of each kind look like. */
  predicate Shape(t: Token) {
    match t.tt
    case Whitespace => t.id == "" && t.span != "" && SpaceEnd(t.span, 0) == |t.span|
    case Comment => t.id == "" && CommentShape(t.span)
    case PreprEndif => t.id == "" && "#endif" <= t.span && '\n' !in t.span
    case PreprElse => t.id == "" && "#else" <= t.span && '\n' !in t.span
    case PreprIf =>
      && t.id == t.span && '\n' !in t.span
      && ("#if " <= t.span || "#ifdef " <= t.span || "#ifndef " <= t.span)
    case PreprInclude => t.span == "#include <" + t.id + ">" && '>' !in t.id
    case PreprDefine => DefineShape(t.id, t.span) && t.span[8] != '_'
    case Typedef => TypedefShape(t.id, t.span) && !("_" <= t.id)
    case PrivateToken =>
      || (DefineShape(t.id, t.span) && t.span[8] == '_')
      || (TypedefShape(t.id, t.span) && "_" <= t.id)
    case Const =>
      && IsStatement(t.span) && Contains(t.span, "const")
      && IsWordBefore(t.id, t.span, |t.span| - 1)
    case Function =>
      && IsStatement(t.span) && !Contains(t.span, "const")
      && '(' in t.span && IsWordBefore(t.id, t.span, LastIndex(t.span, '('))
  }

  /** A token that the recogniser closed by itself rather than by running out of text. */
  predicate Terminated(t: Token) {
    && ("/*" <= t.span ==> Find(t.span, "*/").Some?)
    && ("typedef" <= t.span ==> Closes(t.span, |t.span| - 1))
  }

  // ---------------------------------------------------------------- recognisers

  /** `until_incl(";")`, empty when there is no semicolon. */
  function Statement(s: string): string {
    var k := IndexOf(s, ';');
    if k < |s| then s[..k + 1] else ""
  }

  lemma StatementFound(s: string)
    requires Statement(s) != ""
    ensures Statement(s) <= s && IsStatement(Statement(s))
  {
  }

  lemma StatementUnique(s: string, span: string)
    requires span <= s && IsStatement(span)
    ensures Statement(s) == span
  {
    assert forall j | 0 <= j < |span| - 1 :: s[j] == span[..|span| - 1][j];
    IndexOfUnique(s, ';', |span| - 1);
  }

  function ScanWhitespace(s: string): Scan {
    var len := SpaceEnd(s, 0);
    if len > 0 then Found(Token(Whitespace, "", s[..len])) else Missing
  }

  // A block comment runs to its first end mark, or to the end of the text.
  function BlockComment(s: string): (span: string)
    ensures span <= s
  {
    match Find(s, "*/")
    case Some(k) => s[..k + 2]
    case None => s
  }

  function ScanComment(s: string): Scan {
    if "/*" <= s then Found(Token(Comment, "", BlockComment(s)))
    else if "//" <= s then Found(Token(Comment, "", LineOf(s)))
    else Missing
  }

  function ScanEndif(s: string): Scan {
    if "#endif" <= s then Found(Token(PreprEndif, "", LineOf(s))) else Missing
  }

  function ScanElse(s: string): Scan {
    if "#else" <= s then Found(Token(PreprElse, "", LineOf(s))) else Missing
  }

  function ScanIf(s: string): Scan {
    if IsOpener(s) then Found(Token(PreprIf, LineOf(s), LineOf(s))) else Missing
  }

  /**
   The closing mark is searched from the start of the text, and the id is what stands between
   the marks. Without a closing mark, or with one that ends too early, the program panics.
   */
  function Include(s: string, start: string, end: string): Scan {
    if !(start <= s) then Missing
    else
      match Find(s, end)
      case None => Panic
      case Some(k) =>
        var span := s[..k + |end|];
        if |start| > |span| - |end| then Panic
        else Found(Token(PreprInclude, span[|start|..|span| - |end|], span))
  }

  function ScanInclude(s: string): Scan {
    var quoted := Include(s, "#include \"", "\"");
    if quoted != Missing then quoted else Include(s, "#include <", ">")
  }

  function ScanDefine(s: string): Scan {
    if "#define " <= s then
      var span := LineOf(s);
      if |span| < 8 then Panic else
      var b := SpaceEnd(span, 8);
      if b == |span| then Panic
      else
        var private := |s| > 8 && s[8] == '_';
        Found(Token(if private then PrivateToken else PreprDefine, span[b..InkEnd(span, b)], span))
    else Missing
  }

  /** Where the typedef that starts the text ends: after its first closing semicolon. */
  function TypedefEnd(s: string, i: nat): (r: Option<nat>)
    requires i <= |s|
    ensures r.Some? ==> i < r.value <= |s| && Closes(s, r.value - 1)
    ensures forall j: nat {:trigger Closes(s, j)} :: i <= j && (r.Some? ==> j < r.value - 1) ==> !Closes(s, j)
    decreases |s| - i
  {
    if i == |s| then None
    else if Closes(s, i) then Some(i + 1)
    else TypedefEnd(s, i + 1)
  }

  function TypedefSpan(s: string): (span: string)
    ensures span <= s
  {
    match TypedefEnd(s, 0)
    case Some(e) => s[..e]
    case None => s
  }

  /** Slicing off the last byte panics when the last character is longer than one byte. */
  function TypedefToken(span: string): Scan {
    if span == "" || span[|span| - 1] as int >= 128 then Panic
    else
      var id := WordBefore(span, |span| - 1);
      Found(Token(if "_" <= id then PrivateToken else Typedef, id, span))
  }

  function ScanTypedef(s: string): Scan {
    if "typedef" <= s then TypedefToken(TypedefSpan(s)) else Missing
  }

  function ScanConst(s: string): Scan {
    var span := Statement(s);
    if span != "" && Contains(span, "const")
    then Found(Token(Const, WordBefore(span, |span| - 1), span)) else Missing
  }

  function ScanFunction(s: string): Scan {
    var span := Statement(s);
    if '(' in span
    then Found(Token(Function, WordBefore(span, LastIndex(span, '(')), span)) else Missing
  }

  /** The recognisers in the order they are tried. */
  function Next(s: string): Scan {
    if ScanWhitespace(s) != Missing then ScanWhitespace(s)
    else if ScanComment(s) != Missing then ScanComment(s)
    else if ScanEndif(s) != Missing then ScanEndif(s)
    else if ScanInclude(s) != Missing then ScanInclude(s)
    else if ScanDefine(s) != Missing then ScanDefine(s)
    else if ScanIf(s) != Missing then ScanIf(s)
    else if ScanElse(s) != Missing then ScanElse(s)
    else if ScanTypedef(s) != Missing then ScanTypedef(s)
    else if ScanConst(s) != Missing then ScanConst(s)
    else ScanFunction(s)
  }

  // ---------------------------------------------------------------- progress and shape

  /** A nonempty prefix of the text with the shape of its kind. */
  predicate Reads(s: string, t: Token) {
    t.span != "" && t.span <= s && Shape(t)
  }

  lemma WhitespaceFound(s: string)
    requires ScanWhitespace(s).Found?
    ensures Reads(s, ScanWhitespace(s).token)
  {
    var e := SpaceEnd(s, 0);
    assert forall j | 0 <= j < e :: IsSpace(s[..e][j]);
  }

  lemma CommentFound(s: string)
    requires ScanComment(s).Found?
    ensures Reads(s, ScanComment(s).token)
  {
    var span := ScanComment(s).token.span;
    if "/*" <= s {
      forall j: nat | j + 2 < |span| ensures !At(span, "*/", j) {
        AtPrefix(span, s, "*/", j);
      }
      assert s[0] == '/';
      assert !At(s, "*/", 0);
    } else {
      LinePrefix(s, "//");
    }
  }

  /** The search for the closing quote finds the opening one, so the quoted form always panics. */
  lemma QuotedIncludePanics(s: string)
    requires "#include \"" <= s
    ensures Next(s) == ScanInclude(s) == Panic
  {
    assert s[1] == 'i' && s[2] == 'n' && s[9] == '"';
    FindChar(s, '"');
    IndexOfUnique(s, '"', 9);
    NextOpener(s);
  }

  /** The form in angle brackets ends at the first `>`. */
  lemma AngleInclude(s: string)
    requires "#include <" <= s
    ensures var k := IndexOf(s, '>');
            ScanInclude(s) == if k < |s| then Found(Token(PreprInclude, s[10..k], s[..k + 1])) else Panic
  {
    var k := IndexOf(s, '>');
    assert s[9] == '<';
    FindChar(s, '>');
    assert s[..10] == "#include <";
    assert k < |s| ==> k >= 10 && s[..k + 1][10..k] == s[10..k];
  }

  /** When reading an include panics. */
  lemma IncludePanics(s: string)
    ensures ScanInclude(s) == Panic <==> "#include \"" <= s || ("#include <" <= s && '>' !in s)
  {
    if "#include \"" <= s { QuotedIncludePanics(s); }
    else if "#include <" <= s { AngleInclude(s); }
  }

  lemma IncludeFound(s: string)
    requires ScanInclude(s).Found?
    ensures Reads(s, ScanInclude(s).token)
  {
    IncludePanics(s);
    AngleInclude(s);
    var k := IndexOf(s, '>');
    assert s[..10] == "#include <";
    assert s[..k + 1] == s[..10] + s[10..k] + [s[k]];
  }

  lemma DefineFound(s: string)
    requires ScanDefine(s).Found?
    ensures Reads(s, ScanDefine(s).token)
  {
    LinePrefix(s, "#define ");
  }

  lemma DirectiveFound(s: string)
    ensures ScanEndif(s).Found? ==> Reads(s, ScanEndif(s).token)
    ensures ScanElse(s).Found? ==> Reads(s, ScanElse(s).token)
  {
    if "#endif" <= s { LinePrefix(s, "#endif"); }
    if "#else" <= s { LinePrefix(s, "#else"); }
  }

  lemma IfFound(s: string)
    requires ScanIf(s).Found?
    ensures Reads(s, ScanIf(s).token)
  {
    if "#if " <= s { LinePrefix(s, "#if "); }
    else if "#ifdef " <= s { LinePrefix(s, "#ifdef "); }
    else { LinePrefix(s, "#ifndef "); }
  }

  lemma ClosesPrefix(head: string, s: string, j: nat)
    requires head <= s && j < |head|
    ensures Closes(head, j) <==> Closes(s, j)
  {
    assert head[..j] == s[..j];
  }

  lemma TypedefLong(s: string)
    requires "typedef" <= s
    ensures "typedef" <= TypedefSpan(s)
  {
    var e := TypedefEnd(s, 0);
    if e.Some? {
      assert s[e.value - 1] == ';';
      assert forall j | 0 <= j < 7 :: s[j] != ';';
    }
  }

  lemma TypedefMinimal(s: string)
    ensures var span := TypedefSpan(s);
            forall j: nat {:trigger Closes(span, j)} :: j < |span| - 1 ==> !Closes(span, j)
  {
    var span := TypedefSpan(s);
    forall j: nat | j < |span| - 1 ensures !Closes(span, j) {
      ClosesPrefix(span, s, j);
    }
  }

  lemma TypedefForm(span: string)
    requires "typedef" <= span
    requires forall j: nat {:trigger Closes(span, j)} :: j < |span| - 1 ==> !Closes(span, j)
    ensures TypedefShape(WordBefore(span, |span| - 1), span)
  {
    WordBeforeMeaning(span, |span| - 1);
  }

  lemma TypedefTokenShape(span: string)
    requires span != "" && TypedefShape(WordBefore(span, |span| - 1), span) && TypedefToken(span).Found?
    ensures Shape(TypedefToken(span).token) && TypedefToken(span).token.span == span
  {
  }

  lemma TypedefFound(s: string)
    requires ScanTypedef(s).Found?
    ensures Reads(s, ScanTypedef(s).token)
  {
    TypedefLong(s);
    TypedefMinimal(s);
    TypedefForm(TypedefSpan(s));
    TypedefTokenShape(TypedefSpan(s));
  }

  lemma WordBeforeMeaning(s: string, e: nat)
    requires e <= |s|
    ensures IsWordBefore(WordBefore(s, e), s, e)
  {
  }

  lemma ConstFound(s: string)
    requires ScanConst(s).Found?
    ensures Reads(s, ScanConst(s).token)
  {
    StatementFound(s);
    WordBeforeMeaning(Statement(s), |Statement(s)| - 1);
  }

  lemma FunctionFound(s: string)
    requires ScanConst(s) == Missing && ScanFunction(s).Found?
    ensures Reads(s, ScanFunction(s).token)
  {
    StatementFound(s);
    WordBeforeMeaning(Statement(s), LastIndex(Statement(s), '('));
  }

  /** Every token is a nonempty prefix of the text and has the shape of its kind. */
  lemma NextShape(s: string)
    requires Next(s).Found?
    ensures Reads(s, Next(s).token)
  {
    if ScanWhitespace(s) != Missing { WhitespaceFound(s); }
    else if ScanComment(s) != Missing { CommentFound(s); }
    else if ScanEndif(s) != Missing { DirectiveFound(s); }
    else if ScanInclude(s) != Missing { IncludeFound(s); }
    else if ScanDefine(s) != Missing { DefineFound(s); }
    else if ScanIf(s) != Missing { IfFound(s); }
    else if ScanElse(s) != Missing { DirectiveFound(s); }
    else if ScanTypedef(s) != Missing { TypedefFound(s); }
    else if ScanConst(s) != Missing { ConstFound(s); }
    else { FunctionFound(s); }
  }

  // ---------------------------------------------------------------- the whole text

  /** The tokens read before the text ran out or could not be read, and what was left. */
  datatype Lexed = Lexed(tokens: seq<Token>, rest: string)

  function Lex(s: string): Lexed
    decreases |s|
  {
    if s == "" then Lexed([], "")
    else if Next(s).Found? then
      NextShape(s);
      var t := Next(s).token;
      var r := Lex(s[|t.span|..]);
      Lexed([t] + r.tokens, r.rest)
    else Lexed([], s)
  }

  function Spans(ts: seq<Token>): seq<string> {
    seq(|ts|, i requires 0 <= i < |ts| => ts[i].span)
  }

  /** A token some text yields. */
  ghost predicate Genuine(t: Token) {
    exists s :: Next(s) == Found(t)
  }

  lemma NextPrefix(s: string)
    requires Next(s).Found?
    ensures Next(s).token.span != "" && Next(s).token.span <= s
  {
    NextShape(s);
  }

  lemma LexUnfold(s: string, t: Token)
    requires s != "" && Next(s) == Found(t)
    ensures t.span != "" && t.span <= s
    ensures s == t.span + s[|t.span|..]
    ensures Lex(s) == Lexed([t] + Lex(s[|t.span|..]).tokens, Lex(s[|t.span|..]).rest)
  {
    NextPrefix(s);
  }

  /** Tokenizing loses nothing: the spans spell the text up to where it stopped. */
  lemma {:induction false} LexLossless(s: string)
    ensures Concat(Spans(Lex(s).tokens)) + Lex(s).rest == s
    decreases |s|
  {
    var n := Next(s);
    if s != "" && n.Found? {
      LexUnfold(s, n.token);
      LexLossless(s[|n.token.span|..]);
      SpansCons(n.token, Lex(s[|n.token.span|..]));
    }
  }

  /** It stops only at the end of the text or where no recogniser accepts. */
  lemma {:induction false} LexStops(s: string)
    ensures Lex(s).rest != "" ==> !Next(Lex(s).rest).Found?
    decreases |s|
  {
    if s != "" && Next(s).Found? {
      NextPrefix(s);
      LexStops(s[|Next(s).token.span|..]);
    }
  }

  lemma SpansCons(t: Token, r: Lexed)
    ensures Concat(Spans([t] + r.tokens)) + r.rest == t.span + (Concat(Spans(r.tokens)) + r.rest)
  {
    assert Spans([t] + r.tokens)[1..] == Spans(r.tokens);
  }

  lemma {:induction false} LexGenuine(s: string)
    ensures forall t | t in Lex(s).tokens :: Genuine(t)
    decreases |s|
  {
    if s != "" && Next(s).Found? {
      NextShape(s);
      LexGenuine(s[|Next(s).token.span|..]);
    }
  }

  /** Only the last token can have been closed by the end of the text. */
  lemma {:induction false} OnlyLastUnterminated(s: string)
    ensures forall i | 0 <= i < |Lex(s).tokens| - 1 :: Terminated(Lex(s).tokens[i])
    ensures Lex(s).rest != "" ==> forall t | t in Lex(s).tokens :: Terminated(t)
    decreases |s|
  {
    if s != "" && Next(s).Found? {
      NextShape(s);
      var t := Next(s).token;
      var tail := s[|t.span|..];
      OnlyLastUnterminated(tail);
      if tail != "" { ShortTokenTerminated(s, t); }
    }
  }

  lemma NextComment(s: string)
    requires "/*" <= s || "//" <= s
    ensures Next(s) == ScanComment(s)
  {
    assert s[0] == '/';
  }

  lemma NextTypedef(s: string)
    requires "typedef" <= s
    ensures Next(s) == ScanTypedef(s)
  {
    assert s[0] == 't';
    NoDirective(s);
  }

  /** A text that starts with `#` is first offered to the directive recognisers, in their order. */
  lemma NextHash(s: string)
    requires s != "" && s[0] == '#'
    ensures ScanWhitespace(s) == ScanComment(s) == Missing
  {
  }

  /** Which recogniser decides a directive, whatever the rest of the line holds. */
  lemma NextDirective(s: string)
    ensures "#endif" <= s ==> Next(s) == ScanEndif(s)
    ensures "#define " <= s ==> Next(s) == ScanDefine(s)
    ensures "#else" <= s ==> Next(s) == ScanElse(s)
  {
    if "#endif" <= s { NextHash(s); }
    if "#define " <= s { NextHash(s); assert s[1] == 'd'; }
    if "#else" <= s { NextHash(s); assert s[1] == 'e' && s[2] == 'l'; }
  }

  lemma NextOpener(s: string)
    ensures "#include " <= s && ScanInclude(s) != Missing ==> Next(s) == ScanInclude(s)
    ensures IsOpener(s) ==> Next(s) == ScanIf(s)
  {
    if "#include " <= s { NextHash(s); assert s[1] == 'i' && s[2] == 'n'; }
    if IsOpener(s) { NextHash(s); assert s[1] == 'i' && s[2] == 'f'; }
  }

  lemma NoDirective(s: string)
    requires s != "" && s[0] != '#'
    ensures ScanEndif(s) == ScanInclude(s) == ScanDefine(s) == ScanIf(s) == ScanElse(s) == Missing
  {
  }

  /** A token that leaves text behind is terminated. */
  lemma ShortTokenTerminated(s: string, t: Token)
    requires Next(s) == Found(t) && |t.span| < |s|
    ensures Terminated(t)
  {
    NextPrefix(s);
    if "/*" <= t.span { NextComment(s); ShortComment(s, t); }
    if "typedef" <= t.span { NextTypedef(s); ShortTypedef(s, t); }
  }

  lemma ShortComment(s: string, t: Token)
    requires "/*" <= s && ScanComment(s) == Found(t) && |t.span| < |s|
    ensures Find(t.span, "*/").Some?
  {
    AtPrefix(t.span, s, "*/", Find(s, "*/").value);
  }

  lemma ShortTypedef(s: string, t: Token)
    requires ScanTypedef(s) == Found(t) && |t.span| < |s|
    ensures Closes(t.span, |t.span| - 1)
  {
    ClosesPrefix(t.span, s, |t.span| - 1);
  }
}
