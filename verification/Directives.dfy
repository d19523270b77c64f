/**
 Conditional directives as C reads them, and as the loop over the lines of a header tests
 for them.
 */
module Directives {
  import opened Text

  datatype Kind = If | Ifdef | Ifndef | Endif | Else | Elif | Plain

  predicate IsBlank(c: char) {
    c == ' ' || c == '\t'
  }

  function BlankEnd(s: string, i: nat): (e: nat)
    requires i <= |s|
    ensures i <= e <= |s|
    ensures forall j | i <= j < e :: IsBlank(s[j])
    ensures e < |s| ==> !IsBlank(s[e])
    decreases |s| - i
  {
    if i < |s| && IsBlank(s[i]) then BlankEnd(s, i + 1) else i
  }

  function WordEnd(s: string, i: nat): (e: nat)
    requires i <= |s|
    ensures i <= e <= |s|
    ensures forall j | i <= j < e :: IsWord(s[j])
    ensures e < |s| ==> !IsWord(s[e])
    decreases |s| - i
  {
    if i < |s| && IsWord(s[i]) then WordEnd(s, i + 1) else i
  }

  /** The keyword after `#`, blanks around which do not matter, and what follows it. */
  function Directive(line: string): (string, string) {
    var h := BlankEnd(line, 0);
    if h == |line| || line[h] != '#' then ("", line)
    else
      var b := BlankEnd(line, h + 1);
      var e := WordEnd(line, b);
      (line[b..e], line[e..])
  }

  function KindOf(line: string): Kind {
    var keyword := Directive(line).0;
    if keyword == "if" then If
    else if keyword == "ifdef" then Ifdef
    else if keyword == "ifndef" then Ifndef
    else if keyword == "endif" then Endif
    else if keyword == "else" then Else
    else if keyword == "elif" then Elif
    else Plain
  }

  predicate Opens(line: string) {
    KindOf(line).If? || KindOf(line).Ifdef? || KindOf(line).Ifndef?
  }

  /** By how much a line changes the number of open conditionals. */
  function Weight(line: string): int {
    if Opens(line) then 1 else if KindOf(line).Endif? then -1 else 0
  }

  // ---------------------------------------------------------------- what the loop tests

  datatype Test = SeesIf | SeesIfdef | SeesEndif | SeesNothing

  /** The loop compares the beginning of the line. */
  function TestOf(line: string): (t: Test)
    ensures t.SeesIf? ==> KindOf(line).If?
  {
    if "#if " <= line then
      IfIsIf(line);
      SeesIf
    else if "#ifdef" <= line then SeesIfdef
    else if "#endif" <= line then SeesEndif
    else SeesNothing
  }

  /** Where the keyword of a directive is found. */
  lemma KeywordAt(line: string, h: nat, e: nat)
    requires h + 1 < e <= |line| && line[h] == '#' && forall j | 0 <= j < h :: IsBlank(line[j])
    requires forall j | h < j < e :: IsWord(line[j])
    requires e < |line| ==> !IsWord(line[e])
    ensures Directive(line).0 == line[h + 1..e]
  {
    assert BlankEnd(line, 0) == h;
    assert IsWord(line[h + 1]) && BlankEnd(line, h + 1) == h + 1;
    assert WordEnd(line, h + 1) == e;
  }

  lemma IfIsIf(line: string)
    requires "#if " <= line
    ensures KindOf(line).If?
  {
    assert line[0] == '#' && line[1] == 'i' && line[2] == 'f' && line[3] == ' ';
    KeywordAt(line, 0, 3);
    assert line[1..3] == "if";
  }

  /** The prefixes tested by the loop exclude each other. */
  lemma Prefixes(line: string)
    ensures "#if " <= line <==> TestOf(line).SeesIf?
    ensures "#ifdef" <= line <==> TestOf(line).SeesIfdef?
    ensures "#endif" <= line <==> TestOf(line).SeesEndif?
  {
    if "#if " <= line { assert line[3] == ' '; }
    if "#ifdef" <= line { assert line[3] == 'd'; }
    if "#endif" <= line { assert line[1] == 'e'; }
  }

  /** By how much the loop changes its counter at a line that it skips. */
  function Counted(line: string): int {
    match TestOf(line)
    case SeesIf => 1
    case SeesIfdef => 1
    case SeesEndif => -1
    case SeesNothing => 0
  }

  /** A conditional opened behind the loop's back, or an `#endif` that is none. */
  predicate Under(line: string) {
    Counted(line) < Weight(line)
  }

  /** A conditional closed behind the loop's back, or an `#ifdef` that is none. */
  predicate Over(line: string) {
    Counted(line) > Weight(line)
  }

  lemma NotTested(line: string)
    requires |line| > 3 && (line[0] == ' ' || (line[1] == 'i' && line[3] != ' ' && line[3] != 'd'))
    ensures Counted(line) == 0
  {
    Prefixes(line);
  }

  lemma IfndefHidden()
    ensures KindOf("#ifndef X") == Ifndef && Counted("#ifndef X") == 0
  {
    var a := "#ifndef X";
    assert a[1] == 'i' && a[2] == 'f' && a[3] == 'n' && a[4] == 'd' && a[5] == 'e' && a[6] == 'f' && a[7] == ' ';
    KeywordAt(a, 0, 7);
    assert a[1..7] == "ifndef";
    NotTested(a);
  }

  lemma CompactHidden()
    ensures KindOf("#if(Y)") == If && Counted("#if(Y)") == 0
  {
    var a := "#if(Y)";
    KeywordAt(a, 0, 3);
    assert a[1..3] == "if";
    NotTested(a);
  }

  lemma IndentedHidden()
    ensures KindOf("  #if Y") == If && Counted("  #if Y") == 0
  {
    var a := "  #if Y";
    KeywordAt(a, 2, 5);
    assert a[3..5] == "if";
    NotTested(a);
  }

  lemma EndifHidden()
    ensures KindOf("  #endif") == Endif && Counted("  #endif") == 0
  {
    var a := "  #endif";
    KeywordAt(a, 2, 8);
    assert a[3..8] == "endif";
    NotTested(a);
  }

  /** Spellings C knows and the loop does not. */
  lemma HiddenSpellings()
    ensures Under("#ifndef X") && Under("#if(Y)") && Under("  #if Y") && Over("  #endif")
  {
    IfndefHidden();
    CompactHidden();
    IndentedHidden();
    EndifHidden();
  }
}
