/**
 What the tokenizer must read at the front of a text, said without any recogniser: which
 token it is, how far it reaches, and when there is none.
 */
module Reading {
  import opened Text
  import opened Lexer

  // ---------------------------------------------------------------- the token at the front of a text

  /** Nothing or a line end follows the prefix. */
  predicate EndsLine(s: string, span: string) {
    |span| < |s| ==> s[|span|] == '\n'
  }

  /** The token goes as far as tokens of its kind go. */
  predicate Reaches(s: string, t: Token) {
    match t.tt
    case Whitespace => |t.span| < |s| ==> !IsSpace(s[|t.span|])
    case Comment => if "//" <= s then EndsLine(s, t.span) else EndsComment(s, t.span)
    case PreprEndif => EndsLine(s, t.span)
    case PreprElse => EndsLine(s, t.span)
    case PreprIf => EndsLine(s, t.span)
    case PreprDefine => EndsLine(s, t.span)
    case Typedef => EndsTypedef(s, t.span)
    case PrivateToken => if "typedef" <= s then EndsTypedef(s, t.span) else EndsLine(s, t.span)
    case _ => true
  }

  /** A block comment ends with its end mark or with the text. */
  predicate EndsComment(s: string, span: string) {
    |span| < |s| ==> |span| >= 2 && At(span, "*/", |span| - 2)
  }

  /** A typedef ends with a semicolon outside all braces or with the text. */
  predicate EndsTypedef(s: string, span: string) {
    && span != ""
    && (Closes(span, |span| - 1) || (|span| == |s| && span[|span| - 1] as int < 128))
  }

  /** The text begins in a way that is no statement. */
  predicate Headed(s: string) {
    s != "" &&
    (IsSpace(s[0]) || "/*" <= s || "//" <= s || "#endif" <= s || "#include \"" <= s || "#include <" <= s ||
     "#define " <= s || "#if " <= s || "#ifdef " <= s || "#ifndef " <= s || "#else" <= s || "typedef" <= s)
  }

  /** `t` is the token at the front of the text. */
  predicate Fronts(s: string, t: Token) {
    && t.span != "" && t.span <= s && Shape(t) && Reaches(s, t)
    && (t.tt.Const? || t.tt.Function? ==> !Headed(s))
  }

  /** `#define` with nothing but blanks behind it on its line. */
  predicate Undefined(s: string) {
    && "#define " <= s
    && exists e: nat | 8 <= e <= |s| :: (e == |s| || s[e] == '\n') && Blank(s, e)
  }

  predicate Blank(s: string, e: nat)
    requires 8 <= e <= |s|
  {
    forall j | 8 <= j < e :: IsSpace(s[j])
  }

  /** A typedef cut short by the end of the text in a character of more than one byte. */
  predicate CutTypedef(s: string) {
    && "typedef" <= s && s[|s| - 1] as int >= 128
    && forall j: nat {:trigger Closes(s, j)} :: j < |s| ==> !Closes(s, j)
  }

  predicate Panics(s: string) {
    || "#include \"" <= s || ("#include <" <= s && '>' !in s)
    || Undefined(s) || CutTypedef(s)
  }

  // ---------------------------------------------------------------- at most one

  lemma Longer(s: string, a: string, b: string)
    requires a <= s && b <= s && |a| < |b|
    ensures a <= b && b[|a|] == s[|a|]
  {
  }

  lemma SameLength(s: string, a: string, b: string)
    requires a <= s && b <= s && |a| == |b|
    ensures a == b
  {
  }

  lemma LineUnique(s: string, a: string, b: string)
    requires a <= s && b <= s && '\n' !in a && '\n' !in b && EndsLine(s, a) && EndsLine(s, b)
    ensures a == b
  {
    if |a| < |b| { Longer(s, a, b); }
    if |b| < |a| { Longer(s, b, a); }
    SameLength(s, a, b);
  }

  lemma SpacesUnique(s: string, a: Token, b: Token)
    requires Fronts(s, a) && Fronts(s, b) && a.tt.Whitespace? && b.tt.Whitespace?
    ensures a.span == b.span
  {
    if |a.span| < |b.span| { Longer(s, a.span, b.span); }
    if |b.span| < |a.span| { Longer(s, b.span, a.span); }
    SameLength(s, a.span, b.span);
  }

  lemma ShorterComment(s: string, a: string, b: string)
    requires a <= s && b <= s && EndsComment(s, a) && |a| < |b|
    ensures |a| >= 2 && At(b, "*/", |a| - 2)
  {
    Longer(s, a, b);
    AtPrefix(a, b, "*/", |a| - 2);
  }

  lemma BlockUnique(s: string, a: string, b: string)
    requires a <= s && b <= s && EndsComment(s, a) && EndsComment(s, b)
    requires forall j: nat {:trigger At(a, "*/", j)} :: j + 2 < |a| ==> !At(a, "*/", j)
    requires forall j: nat {:trigger At(b, "*/", j)} :: j + 2 < |b| ==> !At(b, "*/", j)
    ensures a == b
  {
    if |a| < |b| { ShorterComment(s, a, b); }
    if |b| < |a| { ShorterComment(s, b, a); }
    SameLength(s, a, b);
  }

  lemma ShorterTypedef(s: string, a: string, b: string)
    requires a <= s && b <= s && EndsTypedef(s, a) && |a| < |b|
    ensures a != "" && Closes(b, |a| - 1)
  {
    Longer(s, a, b);
    ClosesPrefix(a, b, |a| - 1);
  }

  lemma TypedefUnique(s: string, a: string, b: string)
    requires a <= s && b <= s && EndsTypedef(s, a) && EndsTypedef(s, b)
    requires forall j: nat {:trigger Closes(a, j)} :: j < |a| - 1 ==> !Closes(a, j)
    requires forall j: nat {:trigger Closes(b, j)} :: j < |b| - 1 ==> !Closes(b, j)
    ensures a == b
  {
    if |a| < |b| { ShorterTypedef(s, a, b); }
    if |b| < |a| { ShorterTypedef(s, b, a); }
    SameLength(s, a, b);
  }

  lemma WordUnique(v: string, w: string, s: string, e: nat)
    requires IsWordBefore(v, s, e) && IsWordBefore(w, s, e)
    ensures v == w
  {
    assert forall k | e - |v| <= k < e :: s[k] == v[k - (e - |v|)] && IsWord(s[k]);
    assert forall k | e - |w| <= k < e :: s[k] == w[k - (e - |w|)] && IsWord(s[k]);
    assert |v| == |w|;
  }

  lemma IncludeUnique(s: string, a: string, b: string)
    requires "#include <" + a + ">" <= s && "#include <" + b + ">" <= s && '>' !in a && '>' !in b
    ensures a == b
  {
    var x, y := "#include <" + a + ">", "#include <" + b + ">";
    assert forall k | 10 <= k < |a| + 10 :: s[k] == x[k] == a[k - 10] && a[k - 10] in a;
    assert forall k | 10 <= k < |b| + 10 :: s[k] == y[k] == b[k - 10] && b[k - 10] in b;
    assert s[|a| + 10] == x[|a| + 10] == '>' && s[|b| + 10] == y[|b| + 10] == '>';
    assert |a| == |b|;
    assert s[10..|a| + 10] == a && s[10..|b| + 10] == b;
  }

  lemma StatementsUnique(s: string, a: string, b: string)
    requires a <= s && b <= s && IsStatement(a) && IsStatement(b)
    ensures a == b
  {
    StatementUnique(s, a);
    StatementUnique(s, b);
  }

  /** Tokens of one kind at the front of a text have one span. */
  lemma SpanUnique(s: string, a: Token, b: Token)
    requires Fronts(s, a) && Fronts(s, b) && a.tt == b.tt
    ensures a.span == b.span
  {
    match a.tt
    case Whitespace => SpacesUnique(s, a, b);
    case Comment => CommentUnique(s, a, b);
    case PreprInclude => IncludeUnique(s, a.id, b.id);
    case Typedef => TypedefUnique(s, a.span, b.span);
    case PrivateToken => PrivateUnique(s, a, b);
    case Const => StatementsUnique(s, a.span, b.span);
    case Function => StatementsUnique(s, a.span, b.span);
    case _ => LineUnique(s, a.span, b.span);
  }

  lemma CommentUnique(s: string, a: Token, b: Token)
    requires Fronts(s, a) && Fronts(s, b) && a.tt.Comment? && b.tt.Comment?
    ensures a.span == b.span
  {
    CommentHead(s, a);
    CommentHead(s, b);
    if "//" <= s { LineUnique(s, a.span, b.span); } else { BlockUnique(s, a.span, b.span); }
  }

  lemma CommentHead(s: string, t: Token)
    requires Fronts(s, t) && t.tt.Comment?
    ensures if "//" <= s then '\n' !in t.span
            else forall j: nat {:trigger At(t.span, "*/", j)} :: j + 2 < |t.span| ==> !At(t.span, "*/", j)
  {
    if "/*" <= t.span { assert s[1] == t.span[1] == '*'; }
    if "//" <= t.span { assert "//" <= s; }
  }

  lemma PrivateUnique(s: string, a: Token, b: Token)
    requires Fronts(s, a) && Fronts(s, b) && a.tt.PrivateToken? && b.tt.PrivateToken?
    ensures a.span == b.span
  {
    PrivateHead(s, a);
    PrivateHead(s, b);
    if "typedef" <= s { TypedefUnique(s, a.span, b.span); } else { LineUnique(s, a.span, b.span); }
  }

  lemma PrivateHead(s: string, t: Token)
    requires Fronts(s, t) && t.tt.PrivateToken?
    ensures if "typedef" <= s then TypedefShape(t.id, t.span) else DefineShape(t.id, t.span)
  {
    if "#define " <= t.span { assert s[0] == t.span[0] == '#'; }
    if "typedef" <= t.span { assert "typedef" <= s; }
  }

  /** How a text begins. */
  datatype Head = Spaces | Commented | Ends | Includes | Defines | Opens | Switches | Types | States

  function HeadOf(s: string): Head
    requires s != ""
  {
    if IsSpace(s[0]) then Spaces
    else if "/*" <= s || "//" <= s then Commented
    else if "#endif" <= s then Ends
    else if "#include <" <= s then Includes
    else if "#define " <= s then Defines
    else if "#if " <= s || "#ifdef " <= s || "#ifndef " <= s then Opens
    else if "#else" <= s then Switches
    else if "typedef" <= s then Types
    else States
  }

  /** Which beginnings a kind of token has. */
  predicate Begins(h: Head, tt: TokenType) {
    match tt
    case Whitespace => h == Spaces
    case Comment => h == Commented
    case PreprEndif => h == Ends
    case PreprInclude => h == Includes
    case PreprDefine => h == Defines
    case PreprIf => h == Opens
    case PreprElse => h == Switches
    case Typedef => h == Types
    case PrivateToken => h == Defines || h == Types
    case Const => h == States
    case Function => h == States
  }

  lemma HashHeads(s: string)
    requires s != "" && s[0] == '#'
    ensures "#endif" <= s ==> HeadOf(s) == Ends
    ensures "#include <" <= s ==> HeadOf(s) == Includes
    ensures "#define " <= s ==> HeadOf(s) == Defines
    ensures "#else" <= s ==> HeadOf(s) == Switches
  {
    if "#endif" <= s { assert s[1] == 'e' && s[2] == 'n'; }
    if "#include <" <= s { assert s[1] == 'i' && s[2] == 'n'; }
    if "#define " <= s { assert s[1] == 'd'; }
    if "#else" <= s { assert s[1] == 'e' && s[2] == 'l'; }
  }

  lemma OpenerHeads(s: string)
    requires "#if " <= s || "#ifdef " <= s || "#ifndef " <= s
    ensures HeadOf(s) == Opens
  {
    assert s[0] == '#' && s[1] == 'i' && s[2] == 'f';
  }

  lemma OtherHeads(s: string)
    requires s != ""
    ensures "/*" <= s || "//" <= s ==> HeadOf(s) == Commented
    ensures "typedef" <= s ==> HeadOf(s) == Types
  {
    if "/*" <= s || "//" <= s { assert s[0] == '/'; }
    if "typedef" <= s { assert s[0] == 't'; }
  }

  lemma FrontBegins(s: string, t: Token)
    requires Fronts(s, t)
    ensures s != "" && Begins(HeadOf(s), t.tt)
  {
    var span := t.span;
    assert s[0] == span[0];
    if t.tt.PreprIf? {
      OpenerHeads(s);
    } else if t.tt.Whitespace? {
      assert IsSpace(span[0]);
    } else {
      OtherHeads(s);
      if span[0] == '#' { HashHeads(s); }
    }
  }

  lemma TypedefIdUnique(a: Token, b: Token)
    requires TypedefShape(a.id, a.span) && TypedefShape(b.id, b.span) && a.span == b.span != ""
    ensures a.id == b.id
  {
    WordUnique(a.id, b.id, a.span, |a.span| - 1);
  }

  lemma ConstId(t: Token)
    requires Shape(t) && t.tt.Const?
    ensures t.span != "" && IsWordBefore(t.id, t.span, |t.span| - 1)
  {
  }

  lemma ConstIdUnique(a: Token, b: Token)
    requires Shape(a) && Shape(b) && a.tt.Const? && b.tt.Const? && a.span == b.span
    ensures a.id == b.id
  {
    ConstId(a);
    ConstId(b);
    WordUnique(a.id, b.id, a.span, |a.span| - 1);
  }

  lemma CallId(t: Token)
    requires Shape(t) && t.tt.Function?
    ensures '(' in t.span && IsWordBefore(t.id, t.span, LastIndex(t.span, '('))
  {
  }

  lemma IdUnique(s: string, a: Token, b: Token)
    requires Fronts(s, a) && Fronts(s, b) && a.tt == b.tt && a.span == b.span
    ensures a.id == b.id
  {
    if a.tt.Typedef? { TypedefIdUnique(a, b); }
    else if a.tt.Const? { ConstIdUnique(a, b); }
    else if a.tt.Function? { CallIdUnique(a, b); }
    else { OtherIdUnique(s, a, b); }
  }

  lemma CallIdUnique(a: Token, b: Token)
    requires Shape(a) && Shape(b) && a.tt == b.tt && a.span == b.span && a.tt.Function?
    ensures a.id == b.id
  {
    CallId(a);
    CallId(b);
    WordUnique(a.id, b.id, a.span, LastIndex(a.span, '('));
  }

  lemma OtherIdUnique(s: string, a: Token, b: Token)
    requires Fronts(s, a) && Fronts(s, b) && a.tt == b.tt && a.span == b.span
    requires !a.tt.Typedef? && !a.tt.Const? && !a.tt.Function?
    ensures a.id == b.id
  {
    if a.tt.PreprInclude? { IncludeUnique(s, a.id, b.id); }
    if a.tt.PrivateToken? { PrivateIdUnique(s, a, b); }
  }

  lemma PrivateIdUnique(s: string, a: Token, b: Token)
    requires Fronts(s, a) && Fronts(s, b) && a.tt.PrivateToken? && b.tt.PrivateToken? && a.span == b.span
    ensures a.id == b.id
  {
    PrivateHead(s, a);
    PrivateHead(s, b);
    if "typedef" <= s { WordUnique(a.id, b.id, a.span, |a.span| - 1); }
  }

  lemma DefineKind(s: string, t: Token)
    requires Fronts(s, t) && HeadOf(s) == Defines
    ensures |s| > 8 && (t.tt.PrivateToken? <==> s[8] == '_')
  {
    FrontBegins(s, t);
    OtherHeads(s);
    if t.tt.PrivateToken? { PrivateHead(s, t); }
  }

  lemma TypesForm(s: string, t: Token)
    requires Fronts(s, t) && HeadOf(s) == Types
    ensures TypedefShape(t.id, t.span) && EndsTypedef(s, t.span) && (t.tt.PrivateToken? <==> "_" <= t.id)
  {
    FrontBegins(s, t);
    assert "typedef" <= s;
    if t.tt.PrivateToken? {
      PrivateHead(s, t);
      assert t.span[0] == s[0] == 't';
    }
  }

  lemma TypedefKinds(s: string, a: Token, b: Token)
    requires Fronts(s, a) && Fronts(s, b) && HeadOf(s) == Types
    ensures a.tt == b.tt
  {
    TypesForm(s, a);
    TypesForm(s, b);
    TypedefUnique(s, a.span, b.span);
    WordUnique(a.id, b.id, a.span, |a.span| - 1);
    FrontBegins(s, a);
    FrontBegins(s, b);
  }

  lemma StatementKinds(s: string, a: Token, b: Token)
    requires Fronts(s, a) && Fronts(s, b) && HeadOf(s) == States
    ensures a.tt == b.tt
  {
    FrontBegins(s, a);
    FrontBegins(s, b);
    StatementsUnique(s, a.span, b.span);
  }

  lemma KindUnique(s: string, a: Token, b: Token)
    requires Fronts(s, a) && Fronts(s, b)
    ensures a.tt == b.tt
  {
    FrontBegins(s, a);
    FrontBegins(s, b);
    match HeadOf(s)
    case Defines =>
      DefineKind(s, a);
      DefineKind(s, b);
    case Types => TypedefKinds(s, a, b);
    case States => StatementKinds(s, a, b);
    case _ =>
  }

  /** A text has at most one token at its front. */
  lemma FrontUnique(s: string, a: Token, b: Token)
    requires Fronts(s, a) && Fronts(s, b)
    ensures a == b
  {
    KindUnique(s, a, b);
    SpanUnique(s, a, b);
    IdUnique(s, a, b);
  }

  // ---------------------------------------------------------------- and the tokenizer reads it

  lemma NextBlank(s: string)
    requires s != "" && IsSpace(s[0])
    ensures Next(s).Found? && Fronts(s, Next(s).token)
  {
    WhitespaceFound(s);
  }

  lemma NextComments(s: string)
    requires "/*" <= s || "//" <= s
    ensures Next(s).Found? && Fronts(s, Next(s).token)
  {
    NextComment(s);
    CommentFound(s);
    if "/*" <= s {
      assert s[1] == '*';
      var k := Find(s, "*/");
      if k.Some? { AtPrefix(s[..k.value + 2], s, "*/", k.value); }
    }
  }

  lemma NextLine(s: string)
    requires "#endif" <= s || "#else" <= s || "#if " <= s || "#ifdef " <= s || "#ifndef " <= s
    ensures Next(s).Found? && Fronts(s, Next(s).token)
  {
    if "#endif" <= s || "#else" <= s {
      NextDirective(s);
      DirectiveFound(s);
    } else {
      NextOpener(s);
      IfFound(s);
    }
  }

  lemma NextIncludes(s: string)
    requires "#include \"" <= s || "#include <" <= s
    ensures Next(s).Panic? <==> "#include \"" <= s || '>' !in s
    ensures Next(s).Found? <==> !("#include \"" <= s || '>' !in s)
    ensures Next(s).Found? ==> Fronts(s, Next(s).token)
  {
    if "#include \"" <= s {
      QuotedIncludePanics(s);
    } else {
      AngleInclude(s);
      IncludePanics(s);
      NextOpener(s);
      assert s[9] == '<';
      if Next(s).Found? { IncludeFound(s); }
    }
  }

  lemma UndefinedLine(s: string)
    requires "#define " <= s
    ensures Undefined(s) <==> SpaceEnd(LineOf(s), 8) == |LineOf(s)|
  {
    LinePrefix(s, "#define ");
    var line := LineOf(s);
    if e: nat :| 8 <= e <= |s| && (e == |s| || s[e] == '\n') && Blank(s, e) {
      assert |line| <= e;
      assert forall j | 8 <= j < |line| :: IsSpace(line[j]);
    }
    if SpaceEnd(line, 8) == |line| {
      assert forall j | 8 <= j < |line| :: s[j] == line[j];
      assert Blank(s, |line|);
    }
  }

  lemma NextDefines(s: string)
    requires "#define " <= s
    ensures if Undefined(s) then Next(s) == Panic else Next(s).Found? && Fronts(s, Next(s).token)
  {
    NextDirective(s);
    UndefinedLine(s);
    LinePrefix(s, "#define ");
    if !Undefined(s) { DefineFound(s); }
    assert s[0] == '#';
  }

  lemma TypedefCloses(s: string)
    ensures var span := TypedefSpan(s);
            if exists j: nat :: Closes(s, j) then span != "" && Closes(span, |span| - 1) else span == s
  {
    var e := TypedefEnd(s, 0);
    if e.Some? { ClosesPrefix(TypedefSpan(s), s, e.value - 1); }
  }

  lemma TypedefPanics(s: string)
    requires "typedef" <= s
    ensures ScanTypedef(s) == Panic <==> CutTypedef(s)
    ensures ScanTypedef(s).Found? <==> !CutTypedef(s)
  {
    TypedefCloses(s);
    TypedefLong(s);
  }

  lemma TypedefEnds(s: string)
    requires "typedef" <= s && !CutTypedef(s)
    ensures EndsTypedef(s, TypedefSpan(s))
  {
    TypedefCloses(s);
    TypedefLong(s);
  }

  lemma NextTypedefs(s: string)
    requires "typedef" <= s
    ensures if CutTypedef(s) then Next(s) == Panic else Next(s).Found? && Fronts(s, Next(s).token)
  {
    NextTypedef(s);
    TypedefPanics(s);
    if !CutTypedef(s) {
      TypedefEnds(s);
      TypedefFound(s);
    }
  }

  lemma NotHeaded(s: string)
    requires !Headed(s)
    ensures Next(s) == if ScanConst(s) != Missing then ScanConst(s) else ScanFunction(s)
  {
  }

  lemma NextStatement(s: string)
    requires !Headed(s)
    ensures Next(s) != Panic && (Next(s).Found? ==> Fronts(s, Next(s).token))
  {
    NotHeaded(s);
    if Next(s).Found? { NextShape(s); }
  }

  // ---------------------------------------------------------------- all together

  lemma PanicHeads(s: string)
    requires s != "" && Panics(s)
    ensures "#include \"" <= s || HeadOf(s) == Includes || HeadOf(s) == Defines || HeadOf(s) == Types
  {
    OtherHeads(s);
    if s[0] == '#' { HashHeads(s); }
  }

  lemma QuotedHead(s: string)
    requires "#include \"" <= s
    ensures HeadOf(s) == States
  {
    assert s[0] == '#' && s[1] == 'i' && s[2] == 'n' && s[9] == '"';
  }

  lemma TellsLine(s: string)
    requires "#endif" <= s || "#else" <= s || "#if " <= s || "#ifdef " <= s || "#ifndef " <= s
    ensures Next(s).Found? && Fronts(s, Next(s).token) && !Panics(s)
  {
    NextLine(s);
    if "#endif" <= s || "#else" <= s { HashHeads(s); } else { OpenerHeads(s); }
    if Panics(s) { PanicHeads(s); }
    if "#include \"" <= s { QuotedHead(s); }
  }

  lemma TellsBlank(s: string)
    requires s != "" && (IsSpace(s[0]) || "/*" <= s || "//" <= s)
    ensures Next(s).Found? && Fronts(s, Next(s).token) && !Panics(s)
  {
    if IsSpace(s[0]) { NextBlank(s); } else { NextComments(s); }
    OtherHeads(s);
    if Panics(s) { PanicHeads(s); }
    if "#include \"" <= s { QuotedHead(s); }
  }

  lemma TellsInclude(s: string)
    requires "#include \"" <= s || "#include <" <= s
    ensures Next(s).Found? || Next(s).Panic?
    ensures (Next(s).Panic? <==> Panics(s)) && (Next(s).Found? ==> Fronts(s, Next(s).token))
  {
    NextIncludes(s);
    assert s[0] == '#' && s[1] == 'i';
  }

  lemma DefinePanics(s: string)
    requires "#define " <= s
    ensures Panics(s) <==> Undefined(s)
  {
    assert s[0] == '#' && s[1] == 'd';
  }

  lemma TellsDefine(s: string)
    requires "#define " <= s
    ensures Next(s).Found? || Next(s).Panic?
    ensures (Next(s).Panic? <==> Panics(s)) && (Next(s).Found? ==> Fronts(s, Next(s).token))
  {
    NextDefines(s);
    DefinePanics(s);
  }

  lemma TellsTypedef(s: string)
    requires "typedef" <= s
    ensures Next(s).Found? || Next(s).Panic?
    ensures (Next(s).Panic? <==> Panics(s)) && (Next(s).Found? ==> Fronts(s, Next(s).token))
  {
    NextTypedefs(s);
    assert s[0] == 't';
  }

  /** A text with such a beginning is always read, unless the tokenizer panics. */
  lemma TellsHeaded(s: string)
    requires Headed(s)
    ensures Next(s).Found? || Next(s).Panic?
    ensures (Next(s).Panic? <==> Panics(s)) && (Next(s).Found? ==> Fronts(s, Next(s).token))
  {
    if IsSpace(s[0]) || "/*" <= s || "//" <= s { TellsBlank(s); }
    else if "#include \"" <= s || "#include <" <= s { TellsInclude(s); }
    else if "#define " <= s { TellsDefine(s); }
    else if "typedef" <= s { TellsTypedef(s); }
    else { TellsLine(s); }
  }

  /** Any other text is read if its first statement holds `const` or an opening parenthesis. */
  predicate Stated(s: string) {
    exists k | 0 <= k < |s| :: EndsStatement(s, k) && (Contains(s[..k + 1], "const") || '(' in s[..k + 1])
  }

  predicate EndsStatement(s: string, k: nat)
    requires k < |s|
  {
    s[k] == ';' && ';' !in s[..k]
  }

  lemma StatementAt(s: string, k: nat)
    requires k < |s| && EndsStatement(s, k)
    ensures Statement(s) == s[..k + 1]
  {
    assert s[..k + 1][..k] == s[..k];
    StatementUnique(s, s[..k + 1]);
  }

  lemma TellsStatement(s: string)
    requires !Headed(s)
    ensures Next(s).Found? <==> Stated(s)
  {
    NotHeaded(s);
    var k := IndexOf(s, ';');
    if k < |s| {
      assert EndsStatement(s, k);
      StatementAt(s, k);
    }
    if i :| 0 <= i < |s| && EndsStatement(s, i) && (Contains(s[..i + 1], "const") || '(' in s[..i + 1]) {
      StatementAt(s, i);
    }
  }

  lemma PanicsHeaded(s: string)
    ensures Panics(s) ==> Headed(s)
  {
  }

  /** When the tokenizer panics, when it reads a token, and when it can read nothing. */
  lemma NextOutcome(s: string)
    ensures Next(s) == Panic <==> Panics(s)
    ensures Next(s).Found? <==> (Headed(s) && !Panics(s)) || (!Headed(s) && Stated(s))
    ensures Next(s).Found? ==> Fronts(s, Next(s).token)
  {
    if Headed(s) {
      TellsHeaded(s);
    } else {
      NextStatement(s);
      TellsStatement(s);
      PanicsHeaded(s);
    }
  }

  lemma FrontStates(s: string, t: Token)
    requires t.span <= s && IsStatement(t.span) && (Contains(t.span, "const") || '(' in t.span)
    ensures Stated(s)
  {
    var k := |t.span| - 1;
    assert s[..k + 1] == t.span && s[..k] == t.span[..k];
    assert EndsStatement(s, k);
  }

  lemma FrontForm(s: string, t: Token)
    requires Fronts(s, t) && (t.tt.Const? || t.tt.Function?)
    ensures t.span <= s && IsStatement(t.span) && (Contains(t.span, "const") || '(' in t.span)
  {
  }

  lemma FrontHeaded(s: string, t: Token)
    requires Fronts(s, t) && !t.tt.Const? && !t.tt.Function?
    ensures Headed(s)
  {
    FrontBegins(s, t);
  }

  lemma FrontAccepted(s: string, t: Token)
    requires Fronts(s, t) && !Panics(s)
    ensures Next(s).Found?
  {
    NextOutcome(s);
    if t.tt.Const? || t.tt.Function? {
      FrontForm(s, t);
      FrontStates(s, t);
    } else {
      FrontHeaded(s, t);
    }
  }

  /**
   The tokenizer reads a token exactly when that token is at the front of the text and nothing
   makes it panic; and there is never more than one token at the front of a text.
   */
  lemma NextDecided(s: string, t: Token)
    ensures Next(s) == Found(t) <==> Fronts(s, t) && !Panics(s)
  {
    NextOutcome(s);
    if Fronts(s, t) && !Panics(s) {
      FrontAccepted(s, t);
      FrontUnique(s, t, Next(s).token);
    }
  }
}
