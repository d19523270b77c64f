/**
 What the C preprocessor makes of a header: the filter resolves conditionals early, and the
 compiler must end up with the same lines as if it had been given the whole file.
 */
module Preprocessing {
  import opened Text
  import opened Directives
  import opened FeatureFilter

  /** An open conditional: whether its present branch holds, and whether some branch has. */
  datatype Group = Group(live: bool, taken: bool)

  /** The lines that reached the compiler, and the conditionals open after them. */
  datatype Compiled = Compiled(groups: seq<Group>, text: seq<string>)

  /** The truth of a directive may depend on everything the compiler has seen, definitions included. */
  type Truth = (seq<string>, string) -> bool

  function Switch(g: Group, line: string, holds: bool): Group {
    if KindOf(line).Else? then Group(!g.taken, true)
    else if KindOf(line).Elif? then Group(!g.taken && holds, g.taken || holds)
    else g
  }

  /** The conditionals after a line. */
  function Regroup(gs: seq<Group>, line: string, holds: bool): seq<Group> {
    if Opens(line) then gs + [Group(holds, holds)]
    else if gs == [] then []
    else if KindOf(line).Endif? then Init(gs)
    else Init(gs) + [Switch(Last(gs), line, holds)]
  }

  predicate Active(gs: seq<Group>) {
    gs == [] || (Last(gs).live && Active(Init(gs)))
  }

  function Feed(s: Compiled, line: string, truth: Truth): Compiled {
    Compiled(Regroup(s.groups, line, truth(s.text, line)),
             if KindOf(line).Plain? && Active(s.groups) then s.text + [line] else s.text)
  }

  function Preprocess(lines: seq<string>, truth: Truth): Compiled {
    if lines == [] then Compiled([], []) else Feed(Preprocess(Init(lines), truth), Last(lines), truth)
  }

  /** Where a condition can be evaluated beforehand, the compiler sees it the same way. */
  ghost predicate Consistent(truth: Truth, eval: Eval) {
    forall text: seq<string>, line: string ::
      && (Dead(line, eval) ==> !truth(text, line))
      && (KindOf(line).Elif? && eval(ElifCondition(line)) != Broken ==> (truth(text, line) <==> ElifHolds(line, eval)))
  }

  /** The `#elif` conditions of false `#if`s can be evaluated. */
  predicate Evaluable(lines: seq<string>, eval: Eval) {
    lines != [] ==>
      var front, line := Init(lines), Last(lines);
      && Evaluable(front, eval)
      && (KindOf(line).Elif? && ChainOnTop(Branches(front, eval)) ==> eval(ElifCondition(line)) != Broken)
  }

  predicate ChainOnTop(frames: seq<Frame>) {
    frames != [] && Last(frames).Chain?
  }

  // ---------------------------------------------------------------- simulation

  /** A conditional is gone exactly if it was opened in a branch that does not hold. */
  predicate Nested(frames: seq<Frame>) {
    frames != [] ==> Nested(Init(frames)) && (Last(frames).Gone? <==> !Inside(Init(frames)))
  }

  /** The compiler given the file has open what it has open given the reference, and the resolved conditionals. */
  predicate Simulates(frames: seq<Frame>, all: seq<Group>, kept: seq<Group>) {
    if frames == [] then all == [] && kept == []
    else
      && all != []
      && match Last(frames)
         case Kept => kept != [] && Last(all) == Last(kept) && Simulates(Init(frames), Init(all), Init(kept))
         case Chain(live, taken) => Last(all) == Group(live, taken) && Simulates(Init(frames), Init(all), kept)
         case Gone => Simulates(Init(frames), Init(all), kept)
  }

  /** Both compilers read a line that the reference keeps, or both skip it; what it drops is skipped. */
  lemma {:induction false} ActiveTogether(frames: seq<Frame>, all: seq<Group>, kept: seq<Group>)
    requires Nested(frames) && Simulates(frames, all, kept)
    ensures if Inside(frames) then Active(all) <==> Active(kept) else !Active(all)
  {
    if frames != [] {
      match Last(frames)
      case Kept => ActiveTogether(Init(frames), Init(all), Init(kept));
      case _ => ActiveTogether(Init(frames), Init(all), kept);
    }
  }

  lemma NestedPush(frames: seq<Frame>, line: string, eval: Eval)
    requires Nested(frames)
    ensures Nested(frames + [Opening(frames, line, eval)])
  {
    assert Init(frames + [Opening(frames, line, eval)]) == frames;
  }

  lemma NestedInto(frames: seq<Frame>, line: string, eval: Eval)
    requires Nested(frames)
    ensures Nested(Into(frames, line, eval))
  {
    NestedPush(frames, line, eval);
    if frames != [] {
      assert Init(Init(frames) + [Branch(Last(frames), line, eval)]) == Init(frames);
    }
  }

  lemma SimulatesPush(frames: seq<Frame>, all: seq<Group>, kept: seq<Group>, line: string, holds: bool, eval: Eval)
    requires Simulates(frames, all, kept) && Opens(line) && (Dead(line, eval) ==> !holds)
    ensures var g := Group(holds, holds);
            Simulates(frames + [Opening(frames, line, eval)], all + [g],
                      if Keeps(line, frames, eval) then kept + [g] else kept)
  {
    var g := Group(holds, holds);
    assert Init(frames + [Opening(frames, line, eval)]) == frames;
    assert Init(all + [g]) == all && Init(kept + [g]) == kept;
  }

  lemma SimulatesBranch(frames: seq<Frame>, all: seq<Group>, kept: seq<Group>, line: string, holds: bool, eval: Eval)
    requires Simulates(frames, all, kept) && (KindOf(line).Else? || KindOf(line).Elif?)
    requires KindOf(line).Elif? && ChainOnTop(frames) ==> (holds <==> ElifHolds(line, eval))
    ensures Simulates(Into(frames, line, eval), Regroup(all, line, holds),
                      if Keeps(line, frames, eval) then Regroup(kept, line, holds) else kept)
  {
    if frames != [] {
      assert Init(Init(frames) + [Branch(Last(frames), line, eval)]) == Init(frames);
      assert Init(Init(all) + [Switch(Last(all), line, holds)]) == Init(all);
      if Last(frames).Kept? {
        assert Init(Init(kept) + [Switch(Last(kept), line, holds)]) == Init(kept);
      }
    }
  }

  lemma RegroupPlain(gs: seq<Group>, line: string, holds: bool)
    requires KindOf(line).Plain?
    ensures Regroup(gs, line, holds) == gs
  {
    if gs != [] { assert Init(gs) + [Last(gs)] == gs; }
  }

  lemma IntoPlain(frames: seq<Frame>, line: string, eval: Eval)
    requires KindOf(line).Plain?
    ensures Into(frames, line, eval) == frames
  {
    if frames != [] { assert Init(frames) + [Last(frames)] == frames; }
  }

  lemma SimulatesInto(frames: seq<Frame>, all: seq<Group>, kept: seq<Group>, line: string, holds: bool, eval: Eval)
    requires Simulates(frames, all, kept) && (Dead(line, eval) ==> !holds)
    requires KindOf(line).Elif? && ChainOnTop(frames) ==> (holds <==> ElifHolds(line, eval))
    ensures Simulates(Into(frames, line, eval), Regroup(all, line, holds),
                      if Keeps(line, frames, eval) then Regroup(kept, line, holds) else kept)
  {
    if Opens(line) { SimulatesPush(frames, all, kept, line, holds, eval); }
    else if KindOf(line).Plain? {
      RegroupPlain(all, line, holds);
      RegroupPlain(kept, line, holds);
      IntoPlain(frames, line, eval);
    }
    else if !KindOf(line).Endif? { SimulatesBranch(frames, all, kept, line, holds, eval); }
  }

  /** The compilers given the file and given the reference are in step. */
  predicate InStep(lines: seq<string>, eval: Eval, truth: Truth) {
    var all, kept := Preprocess(lines, truth), Preprocess(Reference(lines, eval), truth);
    all.text == kept.text && Nested(Branches(lines, eval)) && Simulates(Branches(lines, eval), all.groups, kept.groups)
  }

  lemma PreprocessSnoc(lines: seq<string>, line: string, truth: Truth)
    ensures Preprocess(lines + [line], truth) == Feed(Preprocess(lines, truth), line, truth)
  {
    assert Init(lines + [line]) == lines;
  }

  /** One more line is passed on by both or by neither. */
  lemma SameText(frames: seq<Frame>, all: Compiled, kept: Compiled, line: string, eval: Eval, truth: Truth)
    requires Nested(frames) && Simulates(frames, all.groups, kept.groups) && all.text == kept.text
    ensures Feed(all, line, truth).text == if Keeps(line, frames, eval) then Feed(kept, line, truth).text else kept.text
  {
    ActiveTogether(frames, all.groups, kept.groups);
  }

  lemma SameGroups(frames: seq<Frame>, all: Compiled, kept: Compiled, line: string, eval: Eval, truth: Truth)
    requires Simulates(frames, all.groups, kept.groups) && all.text == kept.text && Consistent(truth, eval)
    requires KindOf(line).Elif? && ChainOnTop(frames) ==> eval(ElifCondition(line)) != Broken
    ensures Simulates(Into(frames, line, eval), Feed(all, line, truth).groups,
                      if Keeps(line, frames, eval) then Feed(kept, line, truth).groups else kept.groups)
  {
    SimulatesInto(frames, all.groups, kept.groups, line, truth(all.text, line), eval);
  }

  lemma {:induction false} StaysInStep(lines: seq<string>, eval: Eval, truth: Truth)
    requires Consistent(truth, eval) && Evaluable(lines, eval)
    ensures InStep(lines, eval, truth)
  {
    if lines != [] {
      var front, line := Init(lines), Last(lines);
      StaysInStep(front, eval, truth);
      var frames := Branches(front, eval);
      var all, kept := Preprocess(front, truth), Preprocess(Reference(front, eval), truth);
      NestedInto(frames, line, eval);
      SameText(frames, all, kept, line, eval, truth);
      SameGroups(frames, all, kept, line, eval, truth);
      PreprocessSnoc(Reference(front, eval), line, truth);
    }
  }

  /** What the file means is what the compiler makes of it, whatever else is defined. */
  lemma ReferencePreserves(lines: seq<string>, eval: Eval, truth: Truth)
    requires Consistent(truth, eval) && Evaluable(lines, eval)
    ensures Preprocess(Reference(lines, eval), truth).text == Preprocess(lines, truth).text
  {
    StaysInStep(lines, eval, truth);
  }

  /** In the domain of the filter, the compiler sees the same lines with and without it. */
  lemma FilterPreserves(lines: seq<string>, eval: Eval, truth: Truth)
    requires Matched(lines) && Run(lines, eval).Running? && WellCounted(lines, eval) && !LostBranch(lines, eval)
    requires Consistent(truth, eval) && Evaluable(lines, eval)
    ensures Preprocess(Run(lines, eval).out, truth).text == Preprocess(lines, truth).text
  {
    FilterTracks(lines, eval);
    ReferencePreserves(lines, eval, truth);
  }
}
