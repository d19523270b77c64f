/**
 Text as lines: how a file is read line by line, and how lines are written.
 */
module Lines {
  import opened Text

  predicate EndsWith(line: string, c: char) {
    line != "" && Last(line) == c
  }

  /** A carriage return before the line end is not part of the line. */
  function StripCr(line: string): string {
    if EndsWith(line, '\r') then Init(line) else line
  }

  /** `BufRead::lines`; the last line may lack its line end. */
  function ReadLines(text: string): seq<string>
    decreases |text|
  {
    if text == "" then []
    else
      var k := IndexOf(text, '\n');
      if k == |text| then [text] else [StripCr(text[..k])] + ReadLines(text[k + 1..])
  }

  /** The pieces of a text, each up to a line end and nothing left out. */
  function Pieces(text: string): seq<string>
    decreases |text|
  {
    if text == "" then []
    else
      var k := IndexOf(text, '\n');
      if k == |text| then [text] else [text[..k]] + Pieces(text[k + 1..])
  }

  /** Every line followed by a line end. */
  function Unlines(lines: seq<string>): string {
    if lines == [] then "" else Unlines(Init(lines)) + Last(lines) + "\n"
  }

  predicate OneLiners(lines: seq<string>) {
    forall i | 0 <= i < |lines| :: '\n' !in lines[i]
  }

  /** The text is empty or ends with a line end. */
  predicate Closed(text: string) {
    text == "" || EndsWith(text, '\n')
  }

  lemma FirstLine(text: string, k: nat, rest: string)
    requires k < |text| && IndexOf(text, '\n') == k
    ensures text + rest != "" && IndexOf(text + rest, '\n') == k
    ensures (text + rest)[..k] == text[..k] && (text + rest)[k + 1..] == text[k + 1..] + rest
  {
    IndexOfUnique(text + rest, '\n', k);
  }

  lemma ClosedHasLine(text: string)
    requires text != "" && Closed(text)
    ensures IndexOf(text, '\n') < |text| && Closed(text[IndexOf(text, '\n') + 1..])
  {
  }

  lemma OneLine(line: string)
    requires '\n' !in line
    ensures Pieces(line + "\n") == [line] && ReadLines(line + "\n") == [StripCr(line)]
  {
    var text := line + "\n";
    IndexOfUnique(text, '\n', |line|);
    assert text[..|line|] == line && text[|line| + 1..] == "";
  }

  lemma PiecesUnfold(text: string, k: nat, line: string, rest: string)
    requires k < |text| && IndexOf(text, '\n') == k && line == text[..k] && rest == text[k + 1..]
    ensures Pieces(text) == [line] + Pieces(rest)
  {
  }

  lemma ReadUnfold(text: string, k: nat, line: string, rest: string)
    requires k < |text| && IndexOf(text, '\n') == k && line == text[..k] && rest == text[k + 1..]
    ensures ReadLines(text) == [StripCr(line)] + ReadLines(rest)
  {
  }

  lemma ThreeParts<T>(x: T, middle: seq<T>, y: T)
    ensures [x] + (middle + [y]) == ([x] + middle) + [y]
  {
  }

  /** Reading a closed text with one more line reads one more line. */
  lemma {:induction false} OneMoreLine(text: string, line: string)
    requires Closed(text) && '\n' !in line
    ensures Pieces(text + (line + "\n")) == Pieces(text) + [line]
    ensures ReadLines(text + (line + "\n")) == ReadLines(text) + [StripCr(line)]
    decreases |text|
  {
    if text == "" {
      OneLine(line);
      assert text + (line + "\n") == line + "\n";
    } else {
      MoreAfterFirst(text, IndexOf(text, '\n'), line);
    }
  }

  lemma {:induction false} MoreAfterFirst(text: string, k: nat, line: string)
    requires Closed(text) && '\n' !in line && k < |text| && IndexOf(text, '\n') == k
    ensures Pieces(text + (line + "\n")) == Pieces(text) + [line]
    ensures ReadLines(text + (line + "\n")) == ReadLines(text) + [StripCr(line)]
    decreases |text|, 0
  {
    var rest, more := text[k + 1..], line + "\n";
    ClosedHasLine(text);
    FirstLine(text, k, more);
    OneMoreLine(rest, line);
    PiecesUnfold(text, k, text[..k], rest);
    PiecesUnfold(text + more, k, text[..k], rest + more);
    ReadUnfold(text, k, text[..k], rest);
    ReadUnfold(text + more, k, text[..k], rest + more);
    ThreeParts(text[..k], Pieces(rest), line);
    ThreeParts(StripCr(text[..k]), ReadLines(rest), StripCr(line));
  }

  lemma UnlinesClosed(lines: seq<string>)
    ensures Closed(Unlines(lines))
  {
  }

  function StripAll(lines: seq<string>): seq<string> {
    seq(|lines|, i requires 0 <= i < |lines| => StripCr(lines[i]))
  }

  lemma StripSnoc(lines: seq<string>, line: string)
    ensures StripAll(lines + [line]) == StripAll(lines) + [StripCr(line)]
    ensures Unlines(lines + [line]) == Unlines(lines) + (line + "\n")
  {
    assert Init(lines + [line]) == lines;
  }

  /** Written lines come apart again as they were; read as a file, they lose carriage returns at their ends. */
  lemma {:induction false} UnlinesComeApart(lines: seq<string>)
    requires OneLiners(lines)
    ensures Pieces(Unlines(lines)) == lines && ReadLines(Unlines(lines)) == StripAll(lines)
  {
    if lines == [] {
      assert StripAll(lines) == [];
    } else {
      var front, line := Init(lines), Last(lines);
      UnlinesComeApart(front);
      UnlinesClosed(front);
      OneMoreLine(Unlines(front), line);
      StripSnoc(front, line);
      assert front + [line] == lines;
    }
  }

  lemma OneLinersCons(line: string, lines: seq<string>)
    requires '\n' !in line && OneLiners(lines)
    ensures OneLiners([line] + lines)
  {
  }

  /** A closed text is spelled by its pieces. */
  lemma {:induction false} PiecesSpell(text: string)
    requires Closed(text)
    ensures Unlines(Pieces(text)) == text && OneLiners(Pieces(text))
    decreases |text|
  {
    if text != "" {
      var k := IndexOf(text, '\n');
      ClosedHasLine(text);
      FirstSpells(text, k, text[..k], text[k + 1..]);
    }
  }

  lemma {:induction false} FirstSpells(text: string, k: nat, line: string, rest: string)
    requires k < |text| && IndexOf(text, '\n') == k && line == text[..k] && rest == text[k + 1..] && Closed(rest)
    ensures Unlines(Pieces(text)) == text && OneLiners(Pieces(text))
    decreases |text|, 0
  {
    PiecesSpell(rest);
    PiecesUnfold(text, k, line, rest);
    UnlinesCons(line, Pieces(rest));
    OneLinersCons(line, Pieces(rest));
    assert text == line + ("\n" + rest);
  }

  lemma {:induction false} UnlinesCons(line: string, lines: seq<string>)
    ensures Unlines([line] + lines) == line + ("\n" + Unlines(lines))
  {
    if lines == [] {
      assert Init([line]) == [];
    } else {
      UnlinesCons(line, Init(lines));
      assert Init([line] + lines) == [line] + Init(lines);
    }
  }

  /** What is read from a file holds no line ends. */
  lemma {:induction false} ReadOneLiners(text: string)
    ensures OneLiners(ReadLines(text))
    decreases |text|
  {
    var k := IndexOf(text, '\n');
    if k < |text| { ReadOneLiners(text[k + 1..]); }
  }

  /** Carriage returns that are stripped make the text shorter. */
  lemma {:induction false} StripShortens(lines: seq<string>)
    ensures |Unlines(StripAll(lines))| <= |Unlines(lines)|
    ensures (exists i | 0 <= i < |lines| :: EndsWith(lines[i], '\r')) ==>
              |Unlines(StripAll(lines))| < |Unlines(lines)|
    ensures (forall i | 0 <= i < |lines| :: !EndsWith(lines[i], '\r')) ==> StripAll(lines) == lines
  {
    if lines != [] {
      StripShortens(Init(lines));
      assert Init(StripAll(lines)) == StripAll(Init(lines));
      assert forall i | 0 <= i < |lines| - 1 :: Init(lines)[i] == lines[i];
    }
  }

  lemma LastOnly(line: string)
    requires line != "" && '\n' !in line
    ensures ReadLines(line) == [line]
  {
    IndexOfUnique(line, '\n', |line|);
  }

  /** A last line without its line end is read as it stands. */
  lemma {:induction false} LastLine(text: string, line: string)
    requires Closed(text) && line != "" && '\n' !in line
    ensures ReadLines(text + line) == ReadLines(text) + [line]
    decreases |text|
  {
    if text == "" {
      LastOnly(line);
      assert text + line == line;
    } else {
      LastAfterFirst(text, IndexOf(text, '\n'), line);
    }
  }

  lemma {:induction false} LastAfterFirst(text: string, k: nat, line: string)
    requires Closed(text) && line != "" && '\n' !in line && k < |text| && IndexOf(text, '\n') == k
    ensures ReadLines(text + line) == ReadLines(text) + [line]
    decreases |text|, 0
  {
    var rest := text[k + 1..];
    ClosedHasLine(text);
    FirstLine(text, k, line);
    LastLine(rest, line);
    ReadUnfold(text, k, text[..k], rest);
    ReadUnfold(text + line, k, text[..k], rest + line);
    ThreeParts(StripCr(text[..k]), ReadLines(rest), line);
  }

  /** A file that ends with a line end is read as its pieces, without carriage returns at their ends. */
  lemma ReadsPieces(text: string)
    requires Closed(text)
    ensures ReadLines(text) == StripAll(Pieces(text))
  {
    PiecesSpell(text);
    UnlinesComeApart(Pieces(text));
  }
}
