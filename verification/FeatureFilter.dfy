/**
 The one-pass evaluator of feature conditionals: a `skip` flag and a nesting counter
 against the meaning of nested conditionals.
 */
module FeatureFilter {
  import opened Text
  import opened Directives
  import opened Lines

  /** What evaluating the condition of an `#if` line gives. */
  datatype Condition = Holds | Fails | Broken

  type Eval = string -> Condition

  // ---------------------------------------------------------------- the one-pass filter

  datatype Filter = Running(skip: bool, nest: nat, out: seq<string>) | Panicked

  /** One line; the counter is unsigned, so stepping below zero would panic. */
  function Step(f: Filter, line: string, eval: Eval): Filter {
    match f
    case Panicked => Panicked
    case Running(skip, nest, out) =>
      var test := TestOf(line);
      if test.SeesIfdef? && skip then Running(true, nest + 1, out)
      else if test.SeesEndif? && skip then
        if nest == 0 then Panicked else Running(nest - 1 != 0, nest - 1, out)
      else if test.SeesIf? then
        if skip then Running(true, nest + 1, out)
        else
          match eval(line)
          case Broken => Panicked
          case Fails => Running(true, nest + 1, out)
          case Holds => Running(false, nest, out + [line])
      else Running(skip, nest, if skip then out else out + [line])
  }

  function Run(lines: seq<string>, eval: Eval): Filter {
    if lines == [] then Running(false, 0, []) else Step(Run(Init(lines), eval), Last(lines), eval)
  }

  /** `process_feature_defines` over the text of the file: what is written is the lines that were kept. */
  method ProcessFeatureDefines(text: string, eval: Eval) returns (out: Option<string>)
    ensures out == FilterText(text, eval)
    ensures match Run(ReadLines(text), eval)
            case Running(_, _, kept) => out.Some? && Closed(out.value) && Pieces(out.value) == kept
            case Panicked => out.None?
  {
    var lines := ReadLines(text);
    var written := "";
    var skip := false;
    var nest := 0;
    ghost var kept: seq<string> := [];
    for i := 0 to |lines|
      invariant nest >= 0 && Run(lines[..i], eval) == Running(skip, nest, kept)
      invariant written == Unlines(kept)
    {
      var line := lines[i];
      assert Init(lines[..i + 1]) == lines[..i];
      Prefixes(line);
      SkipMeansNested(lines[..i], eval);
      if "#ifdef" <= line && skip {
        nest := nest + 1;
      } else if "#endif" <= line && skip {
        nest := nest - 1;
        skip := nest != 0;
        continue;
      } else if "#if " <= line {
        if !skip {
          match eval(line)
          case Broken =>
            PanicStays(lines, eval, i + 1);
            return None;
          case Fails => skip := true;
          case Holds =>
        }
        if skip { nest := nest + 1; }
      }
      if !skip {
        assert Init(kept + [line]) == kept;
        written := written + line + "\n";
        kept := kept + [line];
      }
    }
    assert lines[..|lines|] == lines;
    WrittenComesApart(text, eval);
    return Some(written);
  }

  /** The text that is written for a text. */
  function FilterText(text: string, eval: Eval): Option<string> {
    match Run(ReadLines(text), eval)
    case Running(_, _, kept) => Some(Unlines(kept))
    case Panicked => None
  }

  lemma {:induction false} KeptAreLines(lines: seq<string>, eval: Eval)
    requires Run(lines, eval).Running? && OneLiners(lines)
    ensures OneLiners(Run(lines, eval).out)
  {
    if lines != [] {
      assert forall i | 0 <= i < |lines| - 1 :: Init(lines)[i] == lines[i];
      KeptAreLines(Init(lines), eval);
    }
  }

  /** What was written comes apart into the lines that were kept, and ends with a line end. */
  lemma WrittenComesApart(text: string, eval: Eval)
    requires Run(ReadLines(text), eval).Running?
    ensures var kept := Run(ReadLines(text), eval).out;
            Closed(Unlines(kept)) && Pieces(Unlines(kept)) == kept && ReadLines(Unlines(kept)) == StripAll(kept)
  {
    ReadOneLiners(text);
    KeptAreLines(ReadLines(text), eval);
    UnlinesClosed(Run(ReadLines(text), eval).out);
    UnlinesComeApart(Run(ReadLines(text), eval).out);
  }

  lemma {:induction false} PanicStays(lines: seq<string>, eval: Eval, k: nat)
    requires k <= |lines| && Run(lines[..k], eval).Panicked?
    ensures Run(lines, eval).Panicked?
    decreases |lines|
  {
    if k == |lines| {
      assert lines[..k] == lines;
    } else {
      assert Init(lines)[..k] == lines[..k];
      PanicStays(Init(lines), eval, k);
    }
  }

  /** On every input: skipping is exactly having a nonzero counter, so it never drops below zero. */
  lemma {:induction false} SkipMeansNested(lines: seq<string>, eval: Eval)
    ensures Run(lines, eval).Running? ==> (Run(lines, eval).skip <==> Run(lines, eval).nest > 0)
  {
    if lines != [] { SkipMeansNested(Init(lines), eval); }
  }

  // ---------------------------------------------------------------- the meaning of conditionals

  /** The conditionals around what follows `line`. */
  function After(stack: seq<string>, line: string): seq<string> {
    if Opens(line) then stack + [line]
    else if KindOf(line).Endif? && stack != [] then Init(stack)
    else stack
  }

  /** The opening lines of the conditionals around what comes next, outermost first. */
  function Around(lines: seq<string>): seq<string> {
    if lines == [] then [] else After(Around(Init(lines)), Last(lines))
  }

  /** No `#endif` without its conditional. */
  predicate Matched(lines: seq<string>) {
    lines != [] ==> Matched(Init(lines)) && (KindOf(Last(lines)).Endif? ==> Around(Init(lines)) != [])
  }

  predicate Balanced(lines: seq<string>) {
    Matched(lines) && Around(lines) == []
  }

  /** An `#if` line that the loop evaluates, with a false condition. */
  predicate Dead(line: string, eval: Eval) {
    TestOf(line).SeesIf? && eval(line) == Fails
  }

  /** How many conditionals enclose a line before the outermost false one. */
  function LiveHeight(stack: seq<string>, eval: Eval): (h: nat)
    ensures h <= |stack|
  {
    if stack == [] then 0
    else
      var h := LiveHeight(Init(stack), eval);
      if h == |stack| - 1 && !Dead(Last(stack), eval) then |stack| else h
  }

  /** Every enclosing condition is true. */
  predicate Live(stack: seq<string>, eval: Eval) {
    LiveHeight(stack, eval) == |stack|
  }

  lemma {:induction false} LiveMeaning(stack: seq<string>, eval: Eval)
    ensures Live(stack, eval) <==> forall i | 0 <= i < |stack| :: !Dead(stack[i], eval)
  {
    if stack != [] {
      LiveMeaning(Init(stack), eval);
      assert forall i | 0 <= i < |stack| - 1 :: Init(stack)[i] == stack[i];
    }
  }

  /** No false `#if` is around the line, and it does not open one. */
  predicate Clear(line: string, stack: seq<string>, eval: Eval) {
    Live(stack, eval) && !Dead(line, eval)
  }

  /** The lines that no false `#if` is around, its other branches included. */
  function Cleared(lines: seq<string>, eval: Eval): seq<string> {
    if lines == [] then []
    else if Clear(Last(lines), Around(Init(lines)), eval) then Cleared(Init(lines), eval) + [Last(lines)]
    else Cleared(Init(lines), eval)
  }

  // ---------------------------------------------------------------- the meaning of branches

  /**
   A conditional: kept with all its branches; gone with everything around it; or a false
   `#if`, resolved into the one branch that holds, which may be the live one here.
   */
  datatype Frame = Kept | Gone | Chain(live: bool, taken: bool)

  /** The next line is in the branch that holds of every conditional around it. */
  predicate Inside(frames: seq<Frame>) {
    frames == [] || Last(frames).Kept? || (Last(frames).Chain? && Last(frames).live)
  }

  /** The condition of an `#elif`, written as an `#if`. */
  function ElifCondition(line: string): string {
    "#if" + Directive(line).1
  }

  /** A condition that cannot be evaluated does not hold. */
  predicate ElifHolds(line: string, eval: Eval) {
    eval(ElifCondition(line)) == Holds
  }

  /** The branch of a resolved conditional that `line` leads into. */
  function Branch(frame: Frame, line: string, eval: Eval): Frame {
    match frame
    case Chain(_, taken) =>
      if KindOf(line).Else? then Chain(!taken, true)
      else if KindOf(line).Elif? then Chain(!taken && ElifHolds(line, eval), taken || ElifHolds(line, eval))
      else frame
    case _ => frame
  }

  function Opening(frames: seq<Frame>, line: string, eval: Eval): Frame {
    if !Inside(frames) then Gone else if Dead(line, eval) then Chain(false, false) else Kept
  }

  function Into(frames: seq<Frame>, line: string, eval: Eval): seq<Frame> {
    if Opens(line) then frames + [Opening(frames, line, eval)]
    else if frames == [] then []
    else if KindOf(line).Endif? then Init(frames)
    else Init(frames) + [Branch(Last(frames), line, eval)]
  }

  /** The conditionals around what comes next, and how each of them is resolved. */
  function Branches(lines: seq<string>, eval: Eval): seq<Frame> {
    if lines == [] then [] else Into(Branches(Init(lines), eval), Last(lines), eval)
  }

  /** Directives stay with a conditional that is kept; any other line stays in a branch that holds. */
  predicate Keeps(line: string, frames: seq<Frame>, eval: Eval) {
    match KindOf(line)
    case Plain => Inside(frames)
    case Endif | Else | Elif => frames == [] || Last(frames).Kept?
    case _ => Inside(frames) && !Dead(line, eval)
  }

  /** What the file means under the given features. */
  function Reference(lines: seq<string>, eval: Eval): seq<string> {
    if lines == [] then []
    else if Keeps(Last(lines), Branches(Init(lines), eval), eval) then Reference(Init(lines), eval) + [Last(lines)]
    else Reference(Init(lines), eval)
  }

  /** Some line belongs to the file although a false `#if` is around it: it is in the branch that holds instead. */
  predicate LostBranch(lines: seq<string>, eval: Eval) {
    lines != [] &&
    (LostBranch(Init(lines), eval) ||
     (Keeps(Last(lines), Branches(Init(lines), eval), eval) && !Live(Around(Init(lines)), eval)))
  }

  /** How many conditionals are kept before the outermost one that is not. */
  function KeptHeight(frames: seq<Frame>): (h: nat)
    ensures h <= |frames|
  {
    if frames == [] then 0
    else
      var h := KeptHeight(Init(frames));
      if h == |frames| - 1 && Last(frames).Kept? then |frames| else h
  }

  /** Both stacks see the same conditionals, and the same one as the outermost false one. */
  predicate Agree(stack: seq<string>, frames: seq<Frame>, eval: Eval) {
    |frames| == |stack| && KeptHeight(frames) == LiveHeight(stack, eval)
  }

  lemma AgreePush(stack: seq<string>, frames: seq<Frame>, line: string, eval: Eval)
    requires Agree(stack, frames, eval)
    ensures Agree(stack + [line], frames + [Opening(frames, line, eval)], eval)
  {
    PushHeight(stack, line, eval);
    assert Init(frames + [Opening(frames, line, eval)]) == frames;
  }

  lemma AgreePop(stack: seq<string>, frames: seq<Frame>, eval: Eval)
    requires Agree(stack, frames, eval) && stack != []
    ensures Agree(Init(stack), Init(frames), eval)
  {
    PopHeight(stack, eval);
  }

  lemma AgreeBranch(stack: seq<string>, frames: seq<Frame>, line: string, eval: Eval)
    requires Agree(stack, frames, eval) && stack != []
    ensures Agree(stack, Init(frames) + [Branch(Last(frames), line, eval)], eval)
  {
    assert Init(Init(frames) + [Branch(Last(frames), line, eval)]) == Init(frames);
  }

  lemma {:induction false} StacksAgree(lines: seq<string>, eval: Eval)
    ensures Agree(Around(lines), Branches(lines, eval), eval)
  {
    if lines != [] {
      var stack, frames, line := Around(Init(lines)), Branches(Init(lines), eval), Last(lines);
      StacksAgree(Init(lines), eval);
      AgreePush(stack, frames, line, eval);
      if stack != [] {
        AgreePop(stack, frames, eval);
        AgreeBranch(stack, frames, line, eval);
      }
    }
  }

  /** With no false `#if` around it, a line is kept unless it opens one. */
  lemma KeepsClear(line: string, stack: seq<string>, frames: seq<Frame>, eval: Eval)
    requires Agree(stack, frames, eval)
    ensures Clear(line, stack, eval) <==> Keeps(line, frames, eval) && Live(stack, eval)
  {
  }

  /** What no false `#if` is around is part of what the file means, and all of it unless a branch is lost. */
  lemma {:induction false} ClearedOrLost(lines: seq<string>, eval: Eval)
    ensures if LostBranch(lines, eval) then |Cleared(lines, eval)| < |Reference(lines, eval)|
            else Cleared(lines, eval) == Reference(lines, eval)
  {
    if lines != [] {
      ClearedOrLost(Init(lines), eval);
      StacksAgree(Init(lines), eval);
      KeepsClear(Last(lines), Around(Init(lines)), Branches(Init(lines), eval), eval);
    }
  }

  /** The conditionals that are kept. */
  function KeptCount(frames: seq<Frame>): nat {
    if frames == [] then 0 else KeptCount(Init(frames)) + if Last(frames).Kept? then 1 else 0
  }

  lemma KeptCountPush(frames: seq<Frame>, frame: Frame)
    ensures KeptCount(frames + [frame]) == KeptCount(frames) + if frame.Kept? then 1 else 0
  {
    assert Init(frames + [frame]) == frames;
  }

  lemma KeptCountInto(frames: seq<Frame>, line: string, eval: Eval)
    requires KindOf(line).Endif? ==> frames != []
    ensures KeptCount(Into(frames, line, eval)) == KeptCount(frames) +
            if !Keeps(line, frames, eval) then 0 else if Opens(line) then 1 else if KindOf(line).Endif? then -1 else 0
  {
    if Opens(line) {
      KeptCountPush(frames, Opening(frames, line, eval));
    } else if frames != [] {
      KeptCountPush(Init(frames), Branch(Last(frames), line, eval));
    }
  }

  /** What a file with matched conditionals means has matched conditionals. */
  lemma {:induction false} ReferenceMatched(lines: seq<string>, eval: Eval)
    requires Matched(lines)
    ensures Matched(Reference(lines, eval)) && |Around(Reference(lines, eval))| == KeptCount(Branches(lines, eval))
  {
    if lines != [] {
      var front, line := Init(lines), Last(lines);
      ReferenceMatched(front, eval);
      StacksAgree(front, eval);
      KeptCountInto(Branches(front, eval), line, eval);
      assert Init(Reference(front, eval) + [line]) == Reference(front, eval);
    }
  }

  /** Some line with the property stands between a false `#if` and its `#endif`. */
  predicate InFalse(lines: seq<string>, eval: Eval, p: string -> bool) {
    lines != [] &&
    (InFalse(Init(lines), eval, p) || (p(Last(lines)) && !Live(Around(Init(lines)), eval)))
  }

  /** In a false region, the loop counts some line lower than C does. */
  predicate Undercounted(lines: seq<string>, eval: Eval) {
    InFalse(lines, eval, Under)
  }

  /** In a false region, the loop counts some line higher than C does. */
  predicate Overcounted(lines: seq<string>, eval: Eval) {
    InFalse(lines, eval, Over)
  }

  /** In false regions the loop counts as C does. */
  predicate WellCounted(lines: seq<string>, eval: Eval) {
    !Undercounted(lines, eval) && !Overcounted(lines, eval)
  }

  /** The filter skips exactly below a false `#if`, counts from there, and wrote what no false `#if` is around. */
  predicate Tracks(f: Filter, lines: seq<string>, eval: Eval) {
    var stack := Around(lines);
    && f.Running?
    && (f.skip <==> !Live(stack, eval))
    && f.nest == |stack| - LiveHeight(stack, eval)
    && f.out == Cleared(lines, eval)
  }

  lemma PopHeight(stack: seq<string>, eval: Eval)
    requires stack != []
    ensures LiveHeight(Init(stack), eval) == if Live(stack, eval) then |stack| - 1 else LiveHeight(stack, eval)
  {
  }

  lemma PushHeight(stack: seq<string>, line: string, eval: Eval)
    ensures LiveHeight(stack + [line], eval) ==
            if Live(stack, eval) && !Dead(line, eval) then |stack| + 1 else LiveHeight(stack, eval)
  {
    assert Init(stack + [line]) == stack;
  }

  lemma Snoc(lines: seq<string>, line: string, eval: Eval)
    ensures Run(lines + [line], eval) == Step(Run(lines, eval), line, eval)
    ensures Around(lines + [line]) == After(Around(lines), line)
    ensures Cleared(lines + [line], eval) ==
            if Clear(line, Around(lines), eval) then Cleared(lines, eval) + [line] else Cleared(lines, eval)
  {
    assert Init(lines + [line]) == lines;
  }

  lemma MeaningSnoc(lines: seq<string>, line: string, eval: Eval)
    ensures Branches(lines + [line], eval) == Into(Branches(lines, eval), line, eval)
    ensures Reference(lines + [line], eval) ==
            if Keeps(line, Branches(lines, eval), eval) then Reference(lines, eval) + [line] else Reference(lines, eval)
  {
    assert Init(lines + [line]) == lines;
  }

  lemma TrackOpen(f: Filter, lines: seq<string>, line: string, eval: Eval)
    requires Tracks(f, lines, eval) && Opens(line) && Step(f, line, eval).Running?
    requires Live(Around(lines), eval) || Counted(line) == Weight(line)
    ensures Tracks(Step(f, line, eval), lines + [line], eval)
  {
    Snoc(lines, line, eval);
    PushHeight(Around(lines), line, eval);
  }

  lemma TrackClose(f: Filter, lines: seq<string>, line: string, eval: Eval)
    requires Tracks(f, lines, eval) && KindOf(line).Endif? && Around(lines) != [] && Step(f, line, eval).Running?
    requires Live(Around(lines), eval) || Counted(line) == Weight(line)
    ensures Tracks(Step(f, line, eval), lines + [line], eval)
  {
    Snoc(lines, line, eval);
    PopHeight(Around(lines), eval);
  }

  lemma TrackStep(f: Filter, lines: seq<string>, line: string, eval: Eval)
    requires Tracks(f, lines, eval) && (KindOf(line).Endif? ==> Around(lines) != [])
    requires Live(Around(lines), eval) || Counted(line) == Weight(line)
    requires Step(f, line, eval).Running?
    ensures Tracks(Step(f, line, eval), lines + [line], eval)
  {
    if Opens(line) { TrackOpen(f, lines, line, eval); }
    else if KindOf(line).Endif? { TrackClose(f, lines, line, eval); }
    else { Snoc(lines, line, eval); }
  }

  lemma {:induction false} TracksAlways(lines: seq<string>, eval: Eval)
    requires Matched(lines) && Run(lines, eval).Running? && WellCounted(lines, eval)
    ensures Tracks(Run(lines, eval), lines, eval)
  {
    if lines != [] {
      TracksAlways(Init(lines), eval);
      TrackStep(Run(Init(lines), eval), Init(lines), Last(lines), eval);
      assert Init(lines) + [Last(lines)] == lines;
    }
  }

  /**
   As long as nothing was miscounted, the counter counts from the outermost false `#if`, and
   the output is what the lines so far mean if and only if no branch was lost.
   */
  lemma FilterTracks(lines: seq<string>, eval: Eval)
    requires Matched(lines) && Run(lines, eval).Running? && WellCounted(lines, eval)
    ensures Tracks(Run(lines, eval), lines, eval)
    ensures Run(lines, eval).out == Reference(lines, eval) <==> !LostBranch(lines, eval)
  {
    TracksAlways(lines, eval);
    ClearedOrLost(lines, eval);
  }

  // ---------------------------------------------------------------- counting

  /** Conditionals that C sees opened and not closed. */
  function Opened(lines: seq<string>): int {
    if lines == [] then 0 else Opened(Init(lines)) + Weight(Last(lines))
  }

  lemma {:induction false} OpenedIsHeight(lines: seq<string>)
    requires Matched(lines)
    ensures Opened(lines) == |Around(lines)|
  {
    if lines != [] { OpenedIsHeight(Init(lines)); }
  }

  /** What the filter failed to count among the lines it skipped. */
  function Missed(lines: seq<string>, eval: Eval): int {
    if lines == [] then 0
    else
      var f, line := Run(Init(lines), eval), Last(lines);
      Missed(Init(lines), eval) + if f.Running? && f.skip then Weight(line) - Counted(line) else 0
  }

  lemma OpenedSnoc(lines: seq<string>, line: string)
    ensures Opened(lines + [line]) == Opened(lines) + Weight(line)
  {
    assert Init(lines + [line]) == lines;
  }

  /** Conditionals opened are kept, counted, or missed by the counter. */
  lemma {:induction false} Conservation(lines: seq<string>, eval: Eval)
    requires Run(lines, eval).Running?
    ensures var f := Run(lines, eval); Opened(lines) == Opened(f.out) + f.nest + Missed(lines, eval)
  {
    if lines != [] {
      Conservation(Init(lines), eval);
      SkipMeansNested(Init(lines), eval);
      OpenedSnoc(Run(Init(lines), eval).out, Last(lines));
    }
  }

  /** The kept lines are matched and leave open exactly the live conditionals. */
  predicate Trimmed(kept: seq<string>, stack: seq<string>, eval: Eval) {
    Matched(kept) && Around(kept) == stack[..LiveHeight(stack, eval)]
  }

  lemma AfterLive(stack: seq<string>, line: string, eval: Eval)
    requires Clear(line, stack, eval)
    ensures Live(After(stack, line), eval)
  {
    PushHeight(stack, line, eval);
    if stack != [] { PopHeight(stack, eval); }
  }

  lemma TrimmedLive(kept: seq<string>, stack: seq<string>, eval: Eval)
    requires Live(stack, eval)
    ensures Trimmed(kept, stack, eval) <==> Matched(kept) && Around(kept) == stack
  {
    assert stack[..|stack|] == stack;
  }

  lemma TrimmedClear(kept: seq<string>, stack: seq<string>, line: string, eval: Eval)
    requires Trimmed(kept, stack, eval) && Clear(line, stack, eval) && (KindOf(line).Endif? ==> stack != [])
    ensures Trimmed(kept + [line], After(stack, line), eval)
  {
    TrimmedLive(kept, stack, eval);
    AfterLive(stack, line, eval);
    assert Init(kept + [line]) == kept;
    TrimmedLive(kept + [line], After(stack, line), eval);
  }

  lemma TrimmedDrops(kept: seq<string>, stack: seq<string>, line: string, eval: Eval)
    requires Trimmed(kept, stack, eval) && !Clear(line, stack, eval) && (KindOf(line).Endif? ==> stack != [])
    ensures Trimmed(kept, After(stack, line), eval)
  {
    PushHeight(stack, line, eval);
    if stack != [] { PopHeight(stack, eval); }
  }

  /** What is kept is matched, and its open conditionals are the live ones. */
  lemma {:induction false} ClearedMatched(lines: seq<string>, eval: Eval)
    requires Matched(lines)
    ensures Trimmed(Cleared(lines, eval), Around(lines), eval)
  {
    if lines != [] {
      var front, line := Init(lines), Last(lines);
      ClearedMatched(front, eval);
      if Clear(line, Around(front), eval) {
        TrimmedClear(Cleared(front, eval), Around(front), line, eval);
      } else {
        TrimmedDrops(Cleared(front, eval), Around(front), line, eval);
      }
    }
  }

  /** How many conditionals are open since the outermost false one. */
  function Buried(stack: seq<string>, eval: Eval): nat {
    |stack| - LiveHeight(stack, eval)
  }

  lemma BuriedAfter(stack: seq<string>, line: string, eval: Eval)
    requires KindOf(line).Endif? ==> stack != []
    ensures Buried(After(stack, line), eval) ==
            if !Live(stack, eval) then Buried(stack, eval) + Weight(line) else if Dead(line, eval) then 1 else 0
  {
    PushHeight(stack, line, eval);
    if stack != [] { PopHeight(stack, eval); }
  }

  /** How the counter changes. */
  lemma NestAfter(f: Filter, line: string, eval: Eval)
    requires f.Running? && Step(f, line, eval).Running? && (f.skip <==> f.nest > 0)
    ensures Step(f, line, eval).nest == if f.skip then f.nest + Counted(line) else if Dead(line, eval) then 1 else 0
  {
  }

  /** A counter that never counts too high is never above the number of open conditionals. */
  lemma {:induction false} NestBelow(lines: seq<string>, eval: Eval)
    requires Matched(lines) && Run(lines, eval).Running? && !Overcounted(lines, eval)
    ensures Run(lines, eval).nest <= Buried(Around(lines), eval)
  {
    if lines != [] {
      NestBelow(Init(lines), eval);
      SkipMeansNested(Init(lines), eval);
      BuriedAfter(Around(Init(lines)), Last(lines), eval);
      NestAfter(Run(Init(lines), eval), Last(lines), eval);
    }
  }

  /** A counter that never counts too low is never below it. */
  lemma {:induction false} NestAbove(lines: seq<string>, eval: Eval)
    requires Matched(lines) && Run(lines, eval).Running? && !Undercounted(lines, eval)
    ensures Run(lines, eval).nest >= Buried(Around(lines), eval)
  {
    if lines != [] {
      NestAbove(Init(lines), eval);
      SkipMeansNested(Init(lines), eval);
      BuriedAfter(Around(Init(lines)), Last(lines), eval);
      NestAfter(Run(Init(lines), eval), Last(lines), eval);
    }
  }

  /** Where nothing is counted too high, something was missed exactly if something was counted too low. */
  lemma {:induction false} MissedMeansUnder(lines: seq<string>, eval: Eval)
    requires Matched(lines) && Run(lines, eval).Running? && !Overcounted(lines, eval)
    ensures Missed(lines, eval) >= 0 && (Missed(lines, eval) == 0 ==> !Undercounted(lines, eval))
  {
    if lines != [] {
      var front := Init(lines);
      MissedMeansUnder(front, eval);
      NestBelow(front, eval);
      SkipMeansNested(front, eval);
      if !Undercounted(front, eval) { TracksAlways(front, eval); }
    }
  }

  /**
   On balanced input whose false regions hold nothing that the loop counts too high, the output
   is what the conditionals mean if and only if they hold nothing that it counts too low, like
   `#ifndef`, and no line of a branch that holds instead.
   */
  lemma FilterExact(lines: seq<string>, eval: Eval)
    requires Balanced(lines) && Run(lines, eval).Running?
    ensures !Overcounted(lines, eval) ==>
              (Run(lines, eval).out == Reference(lines, eval) <==>
               !Undercounted(lines, eval) && !LostBranch(lines, eval))
  {
    if !Overcounted(lines, eval) {
      if Undercounted(lines, eval) {
        UnderUnbalances(lines, eval);
        ReferenceBalanced(lines, eval);
        OpenedIsHeight(Reference(lines, eval));
      } else {
        FilterTracks(lines, eval);
      }
    }
  }

  /** A conditional counted too low leaves an `#endif` too many in the output. */
  lemma UnderUnbalances(lines: seq<string>, eval: Eval)
    requires Balanced(lines) && Run(lines, eval).Running? && !Overcounted(lines, eval) && Undercounted(lines, eval)
    ensures Opened(Run(lines, eval).out) < 0
  {
    Conservation(lines, eval);
    OpenedIsHeight(lines);
    MissedMeansUnder(lines, eval);
  }

  lemma ReferenceBalanced(lines: seq<string>, eval: Eval)
    requires Balanced(lines)
    ensures Balanced(Reference(lines, eval))
  {
    ReferenceMatched(lines, eval);
    StacksAgree(lines, eval);
  }

  /** Where nothing is miscounted the filter ends outside every region and its output is balanced. */
  lemma OutputBalanced(lines: seq<string>, eval: Eval)
    requires Balanced(lines) && Run(lines, eval).Running? && WellCounted(lines, eval)
    ensures Balanced(Run(lines, eval).out) && Run(lines, eval).nest == 0 && !Run(lines, eval).skip
    ensures Run(lines, eval) == Running(false, 0, Reference(lines, eval)) <==> !LostBranch(lines, eval)
  {
    FilterTracks(lines, eval);
    ClearedMatched(lines, eval);
  }

  lemma {:induction false} PrefixMatched(lines: seq<string>, k: nat)
    requires k <= |lines| && Matched(lines)
    ensures Matched(lines[..k])
  {
    if k == |lines| {
      assert lines[..k] == lines;
    } else {
      PrefixMatched(Init(lines), k);
      assert Init(lines)[..k] == lines[..k];
    }
  }

  lemma {:induction false} PrefixInFalse(lines: seq<string>, k: nat, eval: Eval, p: string -> bool)
    requires k <= |lines| && InFalse(lines[..k], eval, p)
    ensures InFalse(lines, eval, p)
  {
    if k == |lines| {
      assert lines[..k] == lines;
    } else {
      assert Init(lines)[..k] == lines[..k];
      PrefixInFalse(Init(lines), k, eval, p);
    }
  }

  lemma PrefixDomain(lines: seq<string>, k: nat, eval: Eval)
    requires k <= |lines| && Matched(lines)
    ensures Matched(lines[..k])
    ensures !Undercounted(lines, eval) ==> !Undercounted(lines[..k], eval)
    ensures !Overcounted(lines, eval) ==> !Overcounted(lines[..k], eval)
  {
    PrefixMatched(lines, k);
    if Undercounted(lines[..k], eval) { PrefixInFalse(lines, k, eval, Under); }
    if Overcounted(lines[..k], eval) { PrefixInFalse(lines, k, eval, Over); }
  }

  predicate Wrote(before: Filter, after: Filter, line: string) {
    before.Running? && after.Running? && after.out == before.out + [line]
  }

  /** The filter wrote line `i` when it came to it. */
  predicate Written(lines: seq<string>, i: nat, eval: Eval)
    requires i < |lines|
  {
    Wrote(Run(lines[..i], eval), Run(lines[..i + 1], eval), lines[i])
  }

  lemma WritesClear(lines: seq<string>, line: string, next: seq<string>, eval: Eval)
    requires next == lines + [line]
    requires Tracks(Run(lines, eval), lines, eval) && Tracks(Run(next, eval), next, eval)
    ensures Wrote(Run(lines, eval), Run(next, eval), line) <==> Clear(line, Around(lines), eval)
  {
    Snoc(lines, line, eval);
  }

  /** The filter tracks what it has read after `k` lines. */
  predicate TracksAt(lines: seq<string>, k: nat, eval: Eval)
    requires k <= |lines|
  {
    Tracks(Run(lines[..k], eval), lines[..k], eval)
  }

  lemma TracksPrefix(lines: seq<string>, k: nat, eval: Eval)
    requires Matched(lines) && WellCounted(lines, eval) && Run(lines, eval).Running? && k <= |lines|
    ensures TracksAt(lines, k, eval)
  {
    RunningPrefix(lines, k, eval);
    PrefixDomain(lines, k, eval);
    TracksAlways(lines[..k], eval);
  }

  lemma TracksThroughout(lines: seq<string>, eval: Eval)
    requires Matched(lines) && WellCounted(lines, eval) && Run(lines, eval).Running?
    ensures forall k | 0 <= k <= |lines| :: TracksAt(lines, k, eval)
  {
    forall k | 0 <= k <= |lines| ensures TracksAt(lines, k, eval) {
      TracksPrefix(lines, k, eval);
    }
  }

  /** The filter writes exactly the lines that no false `#if` is around. */
  lemma WrittenClear(lines: seq<string>, i: nat, eval: Eval)
    requires i < |lines| && TracksAt(lines, i, eval) && TracksAt(lines, i + 1, eval)
    ensures Written(lines, i, eval) <==> Clear(lines[i], Around(lines[..i]), eval)
  {
    WritesClear(lines[..i], lines[i], lines[..i + 1], eval);
  }

  lemma WrittenPair(lines: seq<string>, i: nat, j: nat, eval: Eval)
    requires i < j < |lines| && Opens(lines[i]) && KindOf(lines[j]).Endif?
    requires Around(lines[..j]) == Around(lines[..i]) + [lines[i]]
    requires forall k | 0 <= k <= |lines| :: TracksAt(lines, k, eval)
    ensures Written(lines, i, eval) <==> Written(lines, j, eval)
  {
    WrittenClear(lines, i, eval);
    WrittenClear(lines, j, eval);
    PushHeight(Around(lines[..i]), lines[i], eval);
  }

  /** A line that opens a conditional and the `#endif` that closes it are written together or not at all. */
  lemma PairKept(lines: seq<string>, i: nat, j: nat, eval: Eval)
    requires Matched(lines) && WellCounted(lines, eval) && Run(lines, eval).Running?
    requires i < j < |lines| && Opens(lines[i]) && KindOf(lines[j]).Endif?
    requires Around(lines[..j]) == Around(lines[..i]) + [lines[i]]
    ensures Written(lines, i, eval) <==> Written(lines, j, eval)
  {
    TracksThroughout(lines, eval);
    WrittenPair(lines, i, j, eval);
  }

  // ---------------------------------------------------------------- each direction by itself

  /** The filter writes what it does not skip, except a false `#if`. */
  lemma WritesUnlessSkipping(lines: seq<string>, line: string, next: seq<string>, eval: Eval)
    requires next == lines + [line] && Run(next, eval).Running?
    ensures Run(lines, eval).Running?
    ensures Wrote(Run(lines, eval), Run(next, eval), line) <==> !Run(lines, eval).skip && !Dead(line, eval)
  {
    Snoc(lines, line, eval);
  }

  lemma RunningPrefix(lines: seq<string>, k: nat, eval: Eval)
    requires k <= |lines| && Run(lines, eval).Running?
    ensures Run(lines[..k], eval).Running?
  {
    if Run(lines[..k], eval).Panicked? { PanicStays(lines, eval, k); }
  }

  lemma WrittenMeaning(lines: seq<string>, i: nat, eval: Eval)
    requires i < |lines| && Run(lines, eval).Running?
    ensures Run(lines[..i], eval).Running?
    ensures Written(lines, i, eval) <==> Run(lines[..i], eval).nest == 0 && !Dead(lines[i], eval)
  {
    RunningPrefix(lines, i + 1, eval);
    WritesUnlessSkipping(lines[..i], lines[i], lines[..i + 1], eval);
    SkipMeansNested(lines[..i], eval);
  }

  /** A filter that never counts too low lets nothing through: every line it writes belongs to the file. */
  lemma NothingLeaksThrough(lines: seq<string>, i: nat, eval: Eval)
    requires Matched(lines) && Run(lines, eval).Running? && !Undercounted(lines, eval)
    requires i < |lines| && Written(lines, i, eval)
    ensures Clear(lines[i], Around(lines[..i]), eval) && Keeps(lines[i], Branches(lines[..i], eval), eval)
  {
    WrittenMeaning(lines, i, eval);
    PrefixDomain(lines, i, eval);
    NestAbove(lines[..i], eval);
    StacksAgree(lines[..i], eval);
    KeepsClear(lines[i], Around(lines[..i]), Branches(lines[..i], eval), eval);
  }

  /** A filter that never counts too high drops nothing: it writes every line that no false `#if` is around. */
  lemma NothingIsDropped(lines: seq<string>, i: nat, eval: Eval)
    requires Matched(lines) && Run(lines, eval).Running? && !Overcounted(lines, eval)
    requires i < |lines| && Clear(lines[i], Around(lines[..i]), eval)
    ensures Written(lines, i, eval)
  {
    WrittenMeaning(lines, i, eval);
    PrefixDomain(lines, i, eval);
    NestBelow(lines[..i], eval);
  }

  // ---------------------------------------------------------------- inputs outside the domain

  lemma DeadTop(cond: string, ifndef: string, eval: Eval)
    requires Dead(cond, eval)
    ensures !Live([cond], eval) && !Live([cond, ifndef], eval)
  {
    LiveMeaning([cond], eval);
    LiveMeaning([cond, ifndef], eval);
    assert [cond][0] == cond && [cond, ifndef][0] == cond;
  }

  lemma LeakOpens(cond: string, opener: string, eval: Eval)
    requires Dead(cond, eval) && Opens(opener) && Counted(opener) == 0
    ensures var lines := [] + [cond] + [opener];
            && Run(lines, eval) == Running(true, 1, []) && Reference(lines, eval) == []
            && Around(lines) == [cond, opener] && Matched(lines)
            && Branches(lines, eval) == [Chain(false, false), Gone]
  {
    Snoc([], cond, eval);
    MeaningSnoc([], cond, eval);
    Snoc([] + [cond], opener, eval);
    MeaningSnoc([] + [cond], opener, eval);
    DeadTop(cond, opener, eval);
    assert Init([] + [cond] + [opener]) == [] + [cond] && Init([] + [cond]) == [];
  }

  lemma LeakMeans(cond: string, opener: string, endif: string, text: string, close: string, eval: Eval)
    requires Dead(cond, eval) && Opens(opener) && Counted(opener) == 0
    requires KindOf(endif).Endif? && KindOf(text).Plain? && KindOf(close).Endif?
    ensures Reference([] + [cond] + [opener] + [endif] + [text] + [close], eval) == []
  {
    var l2 := [] + [cond] + [opener];
    LeakOpens(cond, opener, eval);
    MeaningSnoc(l2, endif, eval);
    assert Branches(l2 + [endif], eval) == [Chain(false, false)];
    MeaningSnoc(l2 + [endif], text, eval);
    assert Branches(l2 + [endif] + [text], eval) == [Chain(false, false)];
    MeaningSnoc(l2 + [endif] + [text], close, eval);
  }

  /** A conditional that the loop does not see, in a false `#if`, lets the text after its `#endif` through. */
  lemma HiddenOpenerLeaks(cond: string, opener: string, endif: string, text: string, close: string, eval: Eval)
    requires Dead(cond, eval) && Opens(opener) && Counted(opener) == 0
    requires KindOf(endif).Endif? && Counted(endif) == -1 && KindOf(text).Plain? && KindOf(close).Endif?
    ensures var lines := [] + [cond] + [opener] + [endif] + [text] + [close];
            && Balanced(lines) && Reference(lines, eval) == []
            && Run(lines, eval) == Running(false, 0, [text, close])
  {
    var l2 := [] + [cond] + [opener];
    var l3 := l2 + [endif];
    var l4 := l3 + [text];
    LeakOpens(cond, opener, eval);
    LeakMeans(cond, opener, endif, text, close, eval);
    Snoc(l2, endif, eval);
    Snoc(l3, text, eval);
    Snoc(l4, close, eval);
    assert Init([cond, opener]) == [cond];
    assert Init(l3) == l2 && Init(l4) == l3 && Init(l4 + [close]) == l4;
  }

  /** An indented `#if` is such a conditional, and an indented `#endif` may close the false one. */
  lemma IndentedIfLeaks(cond: string, endif: string, text: string, eval: Eval)
    requires Dead(cond, eval) && KindOf(endif).Endif? && Counted(endif) == -1 && KindOf(text).Plain?
    ensures var lines := [] + [cond] + ["  #if Y"] + [endif] + [text] + ["  #endif"];
            && Balanced(lines) && Reference(lines, eval) == []
            && Run(lines, eval) == Running(false, 0, [text, "  #endif"])
  {
    IndentedHidden();
    EndifHidden();
    HiddenOpenerLeaks(cond, "  #if Y", endif, text, "  #endif", eval);
  }

  lemma FalseIf(cond: string, eval: Eval)
    requires Dead(cond, eval)
    ensures var lines := [] + [cond];
            && Run(lines, eval) == Running(true, 1, []) && Around(lines) == [cond] && Matched(lines)
            && Branches(lines, eval) == [Chain(false, false)] && Reference(lines, eval) == []
            && WellCounted(lines, eval) && !Live([cond], eval)
  {
    Snoc([], cond, eval);
    MeaningSnoc([], cond, eval);
    CountedSnoc([], cond, eval);
    DeadTop(cond, cond, eval);
  }

  lemma ClosedFalseIf(cond: string, close: string, eval: Eval)
    requires Dead(cond, eval) && KindOf(close).Endif? && Counted(close) == 0
    ensures var lines := [] + [cond] + [close];
            && Run(lines, eval) == Running(true, 1, []) && Balanced(lines)
            && Branches(lines, eval) == [] && Reference(lines, eval) == []
  {
    FalseIf(cond, eval);
    Snoc([] + [cond], close, eval);
    MeaningSnoc([] + [cond], close, eval);
    assert Init([] + [cond] + [close]) == [] + [cond];
  }

  /** An `#endif` that the loop does not see closes the false `#if`, and the text after it is dropped. */
  lemma HiddenEndifDrops(cond: string, close: string, text: string, eval: Eval)
    requires Dead(cond, eval) && KindOf(close).Endif? && Counted(close) == 0
    requires KindOf(text).Plain? && Counted(text) == 0
    ensures var lines := [] + [cond] + [close] + [text];
            && Balanced(lines) && Reference(lines, eval) == [text] && Run(lines, eval) == Running(true, 1, [])
  {
    var l2 := [] + [cond] + [close];
    ClosedFalseIf(cond, close, eval);
    Snoc(l2, text, eval);
    MeaningSnoc(l2, text, eval);
    assert Init(l2 + [text]) == l2;
  }

  lemma CountedSnoc(lines: seq<string>, line: string, eval: Eval)
    requires WellCounted(lines, eval) && (Live(Around(lines), eval) || Counted(line) == Weight(line))
    ensures WellCounted(lines + [line], eval)
    ensures Matched(lines + [line]) <==> Matched(lines) && (KindOf(line).Endif? ==> Around(lines) != [])
  {
    assert Init(lines + [line]) == lines;
  }

  /** The filter skips the `#else` branch of a false `#if`. */
  lemma ElseSkipped(cond: string, els: string, text: string, endif: string, eval: Eval)
    requires Dead(cond, eval) && KindOf(els).Else? && KindOf(text).Plain? && KindOf(endif).Endif?
    requires Counted(els) == Counted(text) == 0 && Counted(endif) == -1
    ensures var lines := [] + [cond] + [els] + [text] + [endif];
            Balanced(lines) && WellCounted(lines, eval) && Run(lines, eval) == Running(false, 0, [])
  {
    var l1 := [] + [cond];
    FalseIf(cond, eval);
    Snoc(l1, els, eval);
    CountedSnoc(l1, els, eval);
    Snoc(l1 + [els], text, eval);
    CountedSnoc(l1 + [els], text, eval);
    Snoc(l1 + [els] + [text], endif, eval);
    CountedSnoc(l1 + [els] + [text], endif, eval);
  }

  /** It is the branch that holds. */
  lemma ElseMeans(cond: string, els: string, text: string, endif: string, eval: Eval)
    requires Dead(cond, eval) && KindOf(els).Else? && KindOf(text).Plain? && KindOf(endif).Endif?
    requires Counted(els) == Counted(text) == 0 && Counted(endif) == -1
    ensures Reference([] + [cond] + [els] + [text] + [endif], eval) == [text]
  {
    var l1 := [] + [cond];
    FalseIf(cond, eval);
    MeaningSnoc(l1, els, eval);
    assert Branches(l1 + [els], eval) == [Chain(true, true)];
    MeaningSnoc(l1 + [els], text, eval);
    assert Branches(l1 + [els] + [text], eval) == [Chain(true, true)];
    MeaningSnoc(l1 + [els] + [text], endif, eval);
  }

  /** Outside that domain: the `#else` branch of a false `#if` is dropped although it is the one that holds. */
  lemma ElseLost(cond: string, els: string, text: string, endif: string, eval: Eval)
    requires Dead(cond, eval) && KindOf(els).Else? && KindOf(text).Plain? && KindOf(endif).Endif?
    requires Counted(els) == Counted(text) == 0 && Counted(endif) == -1
    ensures var lines := [] + [cond] + [els] + [text] + [endif];
            && Balanced(lines) && WellCounted(lines, eval) && LostBranch(lines, eval)
            && Reference(lines, eval) == [text] && Run(lines, eval) == Running(false, 0, [])
  {
    ElseSkipped(cond, els, text, endif, eval);
    ElseMeans(cond, els, text, endif, eval);
    FilterTracks([] + [cond] + [els] + [text] + [endif], eval);
  }

  // ---------------------------------------------------------------- when it panics, and idempotence

  /** The filter meets a broken condition at line `i` while not skipping. */
  predicate BreaksAt(lines: seq<string>, i: nat, eval: Eval)
    requires i < |lines|
  {
    && TestOf(lines[i]).SeesIf? && eval(lines[i]) == Broken
    && var f := Run(lines[..i], eval);
       f.Running? && !f.skip
  }

  /** That, and nothing else, makes it panic. */
  lemma {:induction false} PanicsAtBreak(lines: seq<string>, eval: Eval)
    ensures Run(lines, eval).Panicked? <==> exists i | 0 <= i < |lines| :: BreaksAt(lines, i, eval)
  {
    if lines != [] {
      var front := Init(lines);
      PanicsAtBreak(front, eval);
      SkipMeansNested(front, eval);
      forall i | 0 <= i < |front| ensures BreaksAt(front, i, eval) <==> BreaksAt(lines, i, eval) {
        assert front[..i] == lines[..i];
      }
      assert lines[..|front|] == front;
      var f, line := Run(front, eval), Last(lines);
      assert BreaksAt(lines, |front|, eval) <==>
             TestOf(line).SeesIf? && eval(line) == Broken && f.Running? && !f.skip;
    }
  }

  /** Line `i` is an `#if` that cannot be evaluated, and no false `#if` is around it. */
  predicate BrokenAt(lines: seq<string>, i: nat, eval: Eval)
    requires i < |lines|
  {
    TestOf(lines[i]).SeesIf? && eval(lines[i]) == Broken && Live(Around(lines[..i]), eval)
  }

  lemma BreaksAtBroken(lines: seq<string>, i: nat, eval: Eval)
    requires Matched(lines) && WellCounted(lines, eval) && i < |lines| && Run(lines[..i], eval).Running?
    ensures BreaksAt(lines, i, eval) <==> BrokenAt(lines, i, eval)
  {
    PrefixDomain(lines, i, eval);
    FilterTracks(lines[..i], eval);
  }

  /** The loop panics exactly when a condition that it has to look at cannot be evaluated. */
  lemma PanicsOnBroken(lines: seq<string>, eval: Eval)
    requires Matched(lines) && WellCounted(lines, eval)
    ensures Run(lines, eval).Panicked? <==> exists i | 0 <= i < |lines| :: BrokenAt(lines, i, eval)
  {
    PanicsAtBreak(lines, eval);
    if i :| 0 <= i < |lines| && BreaksAt(lines, i, eval) {
      BreaksAtBroken(lines, i, eval);
    }
    if i :| 0 <= i < |lines| && BrokenAt(lines, i, eval) {
      if Run(lines[..i], eval).Panicked? {
        PanicStays(lines, eval, i);
      } else {
        BreaksAtBroken(lines, i, eval);
      }
    }
  }

  /** Whatever the input, every `#if` line that is kept holds. */
  lemma {:induction false} KeptHold(lines: seq<string>, eval: Eval)
    requires Run(lines, eval).Running?
    ensures forall l | l in Run(lines, eval).out :: TestOf(l).SeesIf? ==> eval(l) == Holds
  {
    if lines != [] { KeptHold(Init(lines), eval); }
  }

  lemma {:induction false} AllHold(lines: seq<string>, eval: Eval)
    requires forall l | l in lines :: TestOf(l).SeesIf? ==> eval(l) == Holds
    ensures Run(lines, eval) == Running(false, 0, lines)
  {
    if lines != [] {
      AllHold(Init(lines), eval);
      assert Last(lines) in lines;
      assert Init(lines) + [Last(lines)] == lines;
    }
  }

  /** Filtering what was filtered changes nothing, on every input. */
  lemma {:induction false} FilterIdempotent(lines: seq<string>, eval: Eval)
    requires Run(lines, eval).Running?
    ensures Run(Run(lines, eval).out, eval) == Running(false, 0, Run(lines, eval).out)
  {
    KeptHold(lines, eval);
    AllHold(Run(lines, eval).out, eval);
  }

  lemma {:induction false} OutNotLonger(lines: seq<string>, eval: Eval)
    requires Run(lines, eval).Running?
    ensures |Unlines(Run(lines, eval).out)| <= |Unlines(lines)|
  {
    if lines != [] {
      OutNotLonger(Init(lines), eval);
      var f, line := Run(Init(lines), eval), Last(lines);
      assert Init(f.out + [line]) == f.out;
    }
  }

  /** The filter writes some line that ends with a carriage return. */
  predicate WritesCr(text: string, eval: Eval)
    requires Run(ReadLines(text), eval).Running?
  {
    exists i | 0 <= i < |Run(ReadLines(text), eval).out| :: EndsWith(Run(ReadLines(text), eval).out[i], '\r')
  }

  /**
   Filtering the written text again gives the same text if and only if no line of it ends with
   a carriage return, which reading would drop.
   */
  lemma TextIdempotent(text: string, eval: Eval)
    requires FilterText(text, eval).Some?
    ensures FilterText(FilterText(text, eval).value, eval) == FilterText(text, eval) <==> !WritesCr(text, eval)
  {
    var kept := Run(ReadLines(text), eval).out;
    WrittenComesApart(text, eval);
    StripShortens(kept);
    if WritesCr(text, eval) {
      if Run(StripAll(kept), eval).Running? { OutNotLonger(StripAll(kept), eval); }
    } else {
      FilterIdempotent(ReadLines(text), eval);
    }
  }
}
