/**
 Where declarations sit: the stack of conditional branches around each of them, and
 how little of it printing a record can disturb.
 */
module Contexts {
  import opened Text
  import opened Lexer
  import opened Reprint
  import opened Records

  /** One enclosing conditional: its opening line and how many `#else` passed since. */
  datatype Branch = Branch(opener: string, elses: nat)

  function StackStep(stack: seq<Branch>, t: Token): seq<Branch> {
    if t.tt.PreprIf? then stack + [Branch(t.span, 0)]
    else if stack == [] then []
    else if t.tt.PreprElse? then Init(stack) + [Last(stack).(elses := Last(stack).elses + 1)]
    else if t.tt.PreprEndif? then Init(stack)
    else stack
  }

  /** The branches open after a run of tokens. */
  function StackAfter(ts: seq<Token>): seq<Branch> {
    if ts == [] then [] else StackStep(StackAfter(Init(ts)), Last(ts))
  }

  datatype Placement = Placement(decl: Token, under: seq<Branch>)

  /** Every declaration with the branches it sits under, in order. */
  function Placed(ts: seq<Token>): seq<Placement> {
    if ts == [] then []
    else if IsDecl(Last(ts)) then Placed(Init(ts)) + [Placement(Last(ts), StackAfter(Init(ts)))]
    else Placed(Init(ts))
  }

  lemma {:induction false} StackHeight(ts: seq<Token>)
    requires NonNegative(ts)
    ensures |StackAfter(ts)| == Depth(ts)
  {
    if ts != [] { StackHeight(Init(ts)); }
  }

  /** After balanced text, what follows is placed as if it stood alone. */
  lemma {:induction false} PlacedAppend(a: seq<Token>, b: seq<Token>)
    requires StackAfter(a) == []
    ensures StackAfter(a + b) == StackAfter(b)
    ensures Placed(a + b) == Placed(a) + Placed(b)
    decreases |b|
  {
    if b == [] {
      assert a + b == a;
    } else {
      assert Init(a + b) == a + Init(b) && Last(a + b) == Last(b);
      PlacedAppend(a, Init(b));
    }
  }

  /** Placements of several runs, run by run. */
  function PlacedRuns(runs: seq<seq<Token>>): seq<Placement> {
    if runs == [] then [] else PlacedRuns(Init(runs)) + Placed(Last(runs))
  }

  predicate AllBalanced(runs: seq<seq<Token>>) {
    forall i | 0 <= i < |runs| :: Balanced(runs[i])
  }

  lemma {:induction false} PlacedFlatten(runs: seq<seq<Token>>)
    requires AllBalanced(runs)
    ensures StackAfter(Flatten(runs)) == []
    ensures Placed(Flatten(runs)) == PlacedRuns(runs)
  {
    if runs != [] {
      PlacedFlatten(Init(runs));
      StackHeight(Last(runs));
      PlacedAppend(Flatten(Init(runs)), Last(runs));
    }
  }

  lemma BlocksBalanced(runs: seq<seq<Token>>)
    requires Blocks(runs)
    ensures AllBalanced(runs)
  {
  }

  /** Grouping keeps every declaration under its branches: records can be placed one by one. */
  lemma GroupingKeepsPlacement(ts: seq<Token>)
    requires Group(ts).Grouped?
    ensures Placed(ts) == PlacedRuns(Runs(Group(ts).done)) + Placed(Group(ts).open.tokens)
  {
    GroupingCuts(ts);
    var runs := Runs(Group(ts).done);
    BlocksBalanced(runs);
    PlacedFlatten(runs);
    PlacedAppend(Flatten(runs), Group(ts).open.tokens);
  }

  // ---------------------------------------------------------------- printing a record

  predicate IsComment(t: Token) {
    t.tt == Comment
  }

  /** Tokens that say something to the compiler. */
  predicate IsCore(t: Token) {
    t.tt != Comment && t.tt != Whitespace
  }

  function Core(ts: seq<Token>): seq<Token> {
    Keep(ts, IsCore)
  }

  /** The order `Display for Record` writes tokens in: comments first, then the rest. */
  function PrintOrder(ts: seq<Token>): seq<Token> {
    Keep(ts, IsComment) + Core(ts)
  }

  /** Everything placement and grouping ask about a run is decided by its core. */
  lemma {:induction false} CoreDecides(ts: seq<Token>)
    ensures Depth(ts) == Depth(Core(ts)) && Decls(ts) == Decls(Core(ts))
    ensures StackAfter(ts) == StackAfter(Core(ts)) && Placed(ts) == Placed(Core(ts))
  {
    if ts != [] {
      CoreDecides(Init(ts));
      if IsCore(Last(ts)) {
        assert Init(Core(ts)) == Core(Init(ts));
      }
    }
  }

  lemma {:induction false} CoreNonNegative(ts: seq<Token>)
    ensures NonNegative(ts) <==> NonNegative(Core(ts))
  {
    if ts != [] {
      CoreNonNegative(Init(ts));
      CoreDecides(ts);
      if IsCore(Last(ts)) {
        assert Init(Core(ts)) == Core(Init(ts));
      } else {
        CoreDecides(Init(ts));
        if NonNegative(Init(ts)) { NonNegativeDepth(Init(ts)); }
      }
    }
  }

  lemma {:induction false} CorePending(ts: seq<Token>)
    ensures Pending(ts) <==> Pending(Core(ts))
  {
    if ts != [] {
      CorePending(Init(ts));
      CoreDecides(ts);
      if IsCore(Last(ts)) {
        assert Init(Core(ts)) == Core(Init(ts));
      } else {
        CoreDecides(Init(ts));
      }
    }
  }

  lemma {:induction false} CoreOfCore(ts: seq<Token>)
    ensures Core(Core(ts)) == Core(ts)
  {
    if ts != [] {
      CoreOfCore(Init(ts));
      if IsCore(Last(ts)) { assert Init(Core(ts)) == Core(Init(ts)); }
    }
  }

  lemma {:induction false} CommentsHaveNoCore(ts: seq<Token>)
    ensures Core(Keep(ts, IsComment)) == []
    ensures Keep(Core(ts), IsComment) == []
    ensures Keep(Keep(ts, IsComment), IsComment) == Keep(ts, IsComment)
  {
    if ts != [] {
      CommentsHaveNoCore(Init(ts));
      var cs := Keep(ts, IsComment);
      if IsComment(Last(ts)) { assert Init(cs) == Keep(Init(ts), IsComment); }
      if IsCore(Last(ts)) { assert Init(Core(ts)) == Core(Init(ts)); }
    }
  }

  /** Printing reorders comments only; printing again changes nothing. */
  lemma PrintOrderCore(ts: seq<Token>)
    ensures Core(PrintOrder(ts)) == Core(ts)
    ensures PrintOrder(PrintOrder(ts)) == PrintOrder(ts)
  {
    CommentsHaveNoCore(ts);
    CoreOfCore(ts);
    KeepAppend(Keep(ts, IsComment), Core(ts), IsCore);
    KeepAppend(Keep(ts, IsComment), Core(ts), IsComment);
  }

  lemma SameCore(a: seq<Token>, b: seq<Token>)
    requires Core(a) == Core(b)
    ensures Depth(a) == Depth(b) && Decls(a) == Decls(b)
    ensures StackAfter(a) == StackAfter(b) && Placed(a) == Placed(b)
    ensures NonNegative(a) == NonNegative(b)
  {
    CoreDecides(a);
    CoreDecides(b);
    CoreNonNegative(a);
    CoreNonNegative(b);
  }

  lemma {:induction false} InkCore(ts: seq<Token>)
    ensures Core(Ink(ts)) == Core(ts)
    ensures Keep(Ink(ts), IsComment) == Keep(ts, IsComment)
  {
    if ts != [] {
      InkCore(Init(ts));
      if IsInk(Last(ts)) { assert Init(Ink(ts)) == Ink(Init(ts)); }
    }
  }

  /** A printed block is still a block. */
  lemma PrintedBlock(b: seq<Token>)
    requires Block(b)
    ensures Block(PrintOrder(b))
  {
    var p := PrintOrder(b);
    PrintOrderCore(b);
    SameCore(b, p);
    LastIsCore(b);
    var front := Keep(b, IsComment) + Core(Init(b));
    assert Core(b) == Core(Init(b)) + [Last(b)];
    assert Init(p) == front && p != [];
    CommentsHaveNoCore(b);
    CoreOfCore(Init(b));
    KeepAppend(Keep(b, IsComment), Core(Init(b)), IsCore);
    assert Core(front) == Core(Init(b));
    CorePending(front);
    CorePending(Init(b));
  }

  /** What closes a record is a declaration or an `#endif`, never a comment or a blank. */
  lemma LastIsCore(b: seq<Token>)
    requires Block(b)
    ensures IsCore(Last(b))
  {
    assert !Complete(Init(b));
  }

  // ---------------------------------------------------------------- what is printed, and where

  lemma PrintOrderCounts(ts: seq<Token>, x: Token)
    ensures multiset(PrintOrder(ts))[x] == multiset(Ink(ts))[x]
  {
    KeepCounts(ts, IsComment, x);
    KeepCounts(ts, IsCore, x);
    KeepCounts(ts, IsInk, x);
  }

  /** Everything but whitespace is printed, comments included, each token as often as it occurs. */
  lemma PrintsAll(ts: seq<Token>)
    ensures multiset(PrintOrder(ts)) == multiset(Ink(ts))
  {
    forall x ensures multiset(PrintOrder(ts))[x] == multiset(Ink(ts))[x] {
      PrintOrderCounts(ts, x);
    }
  }

  /** No comment stands after a token that is none. */
  predicate CommentsLead(ts: seq<Token>) {
    forall i, j | 0 <= i < j < |ts| :: IsComment(ts[j]) ==> IsComment(ts[i])
  }

  lemma LeadAppend(a: seq<Token>, b: seq<Token>)
    requires forall i | 0 <= i < |a| :: IsComment(a[i])
    requires forall i | 0 <= i < |b| :: !IsComment(b[i])
    ensures CommentsLead(a + b)
  {
  }

  /** The comments come first, in their order, and the other tokens follow in theirs. */
  lemma CommentsFirst(ts: seq<Token>)
    ensures Keep(PrintOrder(ts), IsComment) == Keep(ts, IsComment)
    ensures Core(PrintOrder(ts)) == Core(ts)
    ensures CommentsLead(PrintOrder(ts))
  {
    PrintOrderCore(ts);
    CommentsHaveNoCore(ts);
    KeepAppend(Keep(ts, IsComment), Core(ts), IsComment);
    KeptEach(ts, IsComment);
    KeptEach(ts, IsCore);
    assert forall i | 0 <= i < |Core(ts)| :: IsCore(Core(ts)[i]);
    LeadAppend(Keep(ts, IsComment), Core(ts));
  }

  // ---------------------------------------------------------------- branches, by position

  /** The conditional opened at `p` is open at the end. */
  predicate StaysOpen(ts: seq<Token>, p: nat) {
    p < |ts| && ts[p].tt.PreprIf? && forall m | p < m <= |ts| :: Depth(ts[..m]) > Depth(ts[..p])
  }

  /** The `#else` lines after position `p` that belong to the conditional opened there. */
  function ElsesOf(ts: seq<Token>, p: nat): nat
    requires p < |ts|
  {
    if p == |ts| - 1 then 0
    else ElsesOf(Init(ts), p) + if Last(ts).tt.PreprElse? && Depth(Init(ts)) == Depth(ts[..p]) + 1 then 1 else 0
  }

  lemma PrefixOfInit<T>(s: seq<T>, m: nat)
    requires m < |s|
    ensures Init(s)[..m] == s[..m]
  {
  }

  lemma StaysOpenInit(ts: seq<Token>, p: nat)
    requires StaysOpen(ts, p) && p < |ts| - 1
    ensures StaysOpen(Init(ts), p)
  {
    PrefixOfInit(ts, p);
    forall m | p < m <= |ts| - 1 ensures Depth(Init(ts)[..m]) > Depth(Init(ts)[..p]) {
      PrefixOfInit(ts, m);
    }
  }

  lemma StaysOpenDeep(ts: seq<Token>, p: nat)
    requires StaysOpen(ts, p) && p < |ts| - 1
    ensures Depth(Init(ts)) > Depth(ts[..p]) && Depth(ts) > Depth(ts[..p])
  {
    assert ts[..|ts|] == ts && ts[..|ts| - 1] == Init(ts);
  }

  /** A branch below the top is left alone; the top one counts its `#else` lines. */
  lemma BranchStays(stack: seq<Branch>, t: Token, h: nat)
    requires h < |stack| && (t.tt.PreprEndif? ==> h < |stack| - 1)
    ensures h < |StackStep(stack, t)|
    ensures StackStep(stack, t)[h] == if t.tt.PreprElse? && h == |stack| - 1 then stack[h].(elses := stack[h].elses + 1)
                                      else stack[h]
  {
  }

  lemma OpensHere(ts: seq<Token>, p: nat)
    requires NonNegative(ts) && StaysOpen(ts, p) && p == |ts| - 1
    ensures 0 <= Depth(ts[..p]) < |StackAfter(ts)|
    ensures StackAfter(ts)[Depth(ts[..p])] == Branch(ts[p].span, ElsesOf(ts, p))
  {
    assert ts[..p] == Init(ts);
    StackHeight(Init(ts));
  }

  /**
   The branch stack by position: a conditional that is open at the end stands in it at its own
   depth, with the line that opened it and the number of its `#else` lines so far.
   */
  lemma {:induction false} StackByPosition(ts: seq<Token>, p: nat)
    requires NonNegative(ts) && StaysOpen(ts, p)
    ensures 0 <= Depth(ts[..p]) < |StackAfter(ts)|
    ensures StackAfter(ts)[Depth(ts[..p])] == Branch(ts[p].span, ElsesOf(ts, p))
  {
    if p == |ts| - 1 {
      OpensHere(ts, p);
    } else {
      var front := Init(ts);
      StaysOpenInit(ts, p);
      StackByPosition(front, p);
      StackGoesOn(ts, p, front, Depth(ts[..p]));
    }
  }

  lemma StackGoesOn(ts: seq<Token>, p: nat, front: seq<Token>, h: int)
    requires NonNegative(ts) && StaysOpen(ts, p) && p < |ts| - 1 && front == Init(ts) && h == Depth(ts[..p])
    requires 0 <= Depth(front[..p]) < |StackAfter(front)|
    requires StackAfter(front)[Depth(front[..p])] == Branch(front[p].span, ElsesOf(front, p))
    ensures 0 <= h < |StackAfter(ts)| && StackAfter(ts)[h] == Branch(ts[p].span, ElsesOf(ts, p))
  {
    PrefixOfInit(ts, p);
    StaysOpenDeep(ts, p);
    StackHeight(front);
    BranchStays(StackAfter(front), Last(ts), h);
  }

  /** Every declaration is placed once, in order, under the branches that are open where it stands. */
  lemma {:induction false} PlacedByPosition(ts: seq<Token>, p: nat)
    requires DeclaresAt(ts, p)
    ensures |Decls(ts[..p])| < |Placed(ts)| == |Decls(ts)|
    ensures Placed(ts)[|Decls(ts[..p])|] == Placement(ts[p], StackAfter(ts[..p]))
  {
    var front, t := Init(ts), Last(ts);
    DeclaresMeaning(t);
    PlacedCount(ts);
    PlacedCount(front);
    if p == |front| {
      assert ts[..p] == front;
    } else {
      PrefixOfInit(ts, p);
      PlacedByPosition(front, p);
    }
  }

  lemma {:induction false} PlacedCount(ts: seq<Token>)
    ensures |Placed(ts)| == |Decls(ts)|
  {
    if ts != [] { PlacedCount(Init(ts)); }
  }
}
