/**
 Grouping tokens into records: a record is closed as soon as it holds a
 declaration and every conditional it opened is closed again.
 */
module Records {
  import opened Text
  import opened Lexer

  datatype RecordType =
    | Empty | Multiple | PrivateToken | Typedef | Function | Const | PreprDefine | PreprInclude

  datatype Rec = Rec(rt: RecordType, nesting: int, ids: seq<string>, tokens: seq<Token>)

  const FRESH: Rec := Rec(Empty, 0, [], [])

  // ---------------------------------------------------------------- the state machine

  /** `RecordType::update` */
  function Update(rt: RecordType, added: RecordType): RecordType {
    match rt
    case Empty => added
    case _ => Multiple
  }

  /** The record type a declaration token stands for; `None` for everything else. */
  function KindOf(tt: TokenType): Option<RecordType> {
    match tt
    case Typedef => Some(RecordType.Typedef)
    case Function => Some(RecordType.Function)
    case Const => Some(RecordType.Const)
    case PrivateToken => Some(RecordType.PrivateToken)
    case PreprDefine => Some(RecordType.PreprDefine)
    case PreprInclude => Some(RecordType.PreprInclude)
    case _ => None
  }

  predicate IsDecl(t: Token) {
    KindOf(t.tt).Some?
  }

  function Push(r: Rec, t: Token): Rec {
    r.(tokens := r.tokens + [t])
  }

  /** `add_token`; `None` is the "unmatched #endif" error. */
  function AddToken(r: Rec, t: Token): Option<Rec> {
    if IsDecl(t) then
      var ids := if t.id == "" then r.ids else r.ids + [t.id];
      Some(Push(r.(rt := Update(r.rt, KindOf(t.tt).value), ids := ids), t))
    else if t.tt.PreprIf? then
      Some(Push(r.(nesting := r.nesting + 1), t))
    else if t.tt.PreprEndif? then
      if r.nesting - 1 < 0 then None else Some(Push(r.(nesting := r.nesting - 1), t))
    else
      Some(Push(r, t))
  }

  predicate Ready(r: Rec) {
    r.nesting == 0 && r.rt != Empty
  }

  /** The records closed so far and the one being collected. */
  datatype Grouping = Grouped(done: seq<Rec>, open: Rec) | Unmatched

  function Step(g: Grouping, t: Token): Grouping {
    match g
    case Unmatched => Unmatched
    case Grouped(done, open) =>
      match AddToken(open, t)
      case None => Unmatched
      case Some(r) => if Ready(r) then Grouped(done + [r], FRESH) else Grouped(done, r)
  }

  /** `group_tokens` over a token stream. */
  function Group(ts: seq<Token>): Grouping {
    if ts == [] then Grouped([], FRESH) else Step(Group(Init(ts)), Last(ts))
  }

  // ---------------------------------------------------------------- what the fields mean

  function Delta(t: Token): int {
    if t.tt.PreprIf? then 1 else if t.tt.PreprEndif? then -1 else 0
  }

  /** Conditionals opened minus conditionals closed. */
  function Depth(ts: seq<Token>): int {
    if ts == [] then 0 else Depth(Init(ts)) + Delta(Last(ts))
  }

  /** No prefix closes more conditionals than it opened. */
  predicate NonNegative(ts: seq<Token>) {
    ts != [] ==> Depth(ts) >= 0 && NonNegative(Init(ts))
  }

  predicate Balanced(ts: seq<Token>) {
    NonNegative(ts) && Depth(ts) == 0
  }

  function Decls(ts: seq<Token>): seq<Token> {
    if ts == [] then []
    else if IsDecl(Last(ts)) then Decls(Init(ts)) + [Last(ts)]
    else Decls(Init(ts))
  }

  /** One declaration gives the record its type; several make it `Multiple`. */
  function Brand(decls: seq<Token>): RecordType {
    if |decls| == 0 then Empty
    else if |decls| == 1 && IsDecl(decls[0]) then KindOf(decls[0].tt).value
    else Multiple
  }

  function Ids(decls: seq<Token>): seq<string> {
    if decls == [] then []
    else if Last(decls).id == "" then Ids(Init(decls))
    else Ids(Init(decls)) + [Last(decls).id]
  }

  /** The record that a run of tokens makes. */
  function RecOf(ts: seq<Token>): Rec {
    Rec(Brand(Decls(ts)), Depth(ts), Ids(Decls(ts)), ts)
  }

  /** A run that holds a declaration and closes every conditional it opens. */
  predicate Complete(ts: seq<Token>) {
    Depth(ts) == 0 && Decls(ts) != []
  }

  /** No prefix of the run, itself included, is complete. */
  predicate Pending(ts: seq<Token>) {
    !Complete(ts) && (ts != [] ==> Pending(Init(ts)))
  }

  /** The shortest complete run: what a closed record holds. */
  predicate Block(ts: seq<Token>) {
    NonNegative(ts) && Complete(ts) && ts != [] && Pending(Init(ts))
  }

  lemma DeclsAreDecls(ts: seq<Token>)
    ensures forall t | t in Decls(ts) :: IsDecl(t)
  {
  }

  lemma CountSnoc(run: seq<Token>, t: Token)
    ensures Depth(run + [t]) == Depth(run) + Delta(t)
    ensures Decls(run + [t]) == if IsDecl(t) then Decls(run) + [t] else Decls(run)
  {
    assert Init(run + [t]) == run;
  }

  lemma Snoc(run: seq<Token>, t: Token)
    ensures Depth(run + [t]) == Depth(run) + Delta(t)
    ensures NonNegative(run + [t]) <==> Depth(run + [t]) >= 0 && NonNegative(run)
    ensures Pending(run + [t]) <==> !Complete(run + [t]) && Pending(run)
    ensures Init(run + [t]) == run
  {
    CountSnoc(run, t);
    assert Init(run + [t]) == run;
  }

  lemma DeclSnoc(ds: seq<Token>, t: Token)
    requires IsDecl(t) && forall d | d in ds :: IsDecl(d)
    ensures Brand(ds + [t]) == Update(Brand(ds), KindOf(t.tt).value)
    ensures Ids(ds + [t]) == if t.id == "" then Ids(ds) else Ids(ds) + [t.id]
  {
    assert Init(ds + [t]) == ds;
  }

  lemma AddDecl(run: seq<Token>, t: Token)
    requires IsDecl(t)
    ensures AddToken(RecOf(run), t) == Some(RecOf(run + [t]))
  {
    CountSnoc(run, t);
    DeclsAreDecls(run);
    DeclSnoc(Decls(run), t);
  }

  /** Adding a token keeps the record in step with its tokens. */
  lemma AddTokenMeaning(run: seq<Token>, t: Token)
    requires Depth(run) >= 0
    ensures AddToken(RecOf(run), t) == if Depth(run + [t]) < 0 then None else Some(RecOf(run + [t]))
  {
    CountSnoc(run, t);
    if IsDecl(t) { AddDecl(run, t); }
  }

  lemma ReadyMeaning(ts: seq<Token>)
    ensures Ready(RecOf(ts)) <==> Complete(ts)
  {
    DeclsAreDecls(ts);
  }

  // ---------------------------------------------------------------- grouping is cutting into blocks

  function RecsOf(blocks: seq<seq<Token>>): seq<Rec> {
    seq(|blocks|, i requires 0 <= i < |blocks| => RecOf(blocks[i]))
  }

  predicate Blocks(blocks: seq<seq<Token>>) {
    forall i | 0 <= i < |blocks| :: Block(blocks[i])
  }

  lemma NonNegativeDepth(ts: seq<Token>)
    requires NonNegative(ts)
    ensures Depth(ts) >= 0
  {
  }

  /** One token more, as grouping sees it. */
  lemma GroupSnoc(head: seq<Token>, done: seq<Rec>, run: seq<Token>, t: Token)
    requires Group(head) == Grouped(done, RecOf(run)) && Depth(run) >= 0
    ensures Group(head + [t]) ==
            if Depth(run + [t]) < 0 then Unmatched
            else if Complete(run + [t]) then Grouped(done + [RecOf(run + [t])], FRESH)
            else Grouped(done, RecOf(run + [t]))
  {
    assert Init(head + [t]) == head;
    AddTokenMeaning(run, t);
    ReadyMeaning(run + [t]);
  }

  /** While the tail stays pending, grouping keeps collecting it. */
  lemma {:induction false} GroupPending(head: seq<Token>, done: seq<Rec>, tail: seq<Token>)
    requires Group(head) == Grouped(done, FRESH)
    requires Pending(tail) && NonNegative(tail)
    ensures Group(head + tail) == Grouped(done, RecOf(tail))
    decreases |tail|
  {
    if tail == [] {
      assert head + tail == head;
    } else {
      GroupPending(head, done, Init(tail));
      NonNegativeDepth(Init(tail));
      GroupSnoc(head + Init(tail), done, Init(tail), Last(tail));
      Rejoin(head, tail);
    }
  }

  lemma Rejoin(head: seq<Token>, tail: seq<Token>)
    requires tail != []
    ensures (head + Init(tail)) + [Last(tail)] == head + tail
    ensures Init(tail) + [Last(tail)] == tail
  {
  }

  /** A block closes one record. */
  lemma GroupBlock(head: seq<Token>, done: seq<Rec>, b: seq<Token>)
    requires Group(head) == Grouped(done, FRESH) && Block(b)
    ensures Group(head + b) == Grouped(done + [RecOf(b)], FRESH)
  {
    GroupPending(head, done, Init(b));
    NonNegativeDepth(Init(b));
    GroupSnoc(head + Init(b), done, Init(b), Last(b));
    Rejoin(head, b);
  }

  lemma RecsSnoc(blocks: seq<seq<Token>>, b: seq<Token>)
    ensures RecsOf(blocks + [b]) == RecsOf(blocks) + [RecOf(b)]
    ensures Flatten(blocks + [b]) == Flatten(blocks) + b
  {
    assert Init(blocks + [b]) == blocks;
  }

  lemma GroupOneMore(blocks: seq<seq<Token>>, b: seq<Token>)
    requires Group(Flatten(blocks)) == Grouped(RecsOf(blocks), FRESH) && Block(b)
    ensures Group(Flatten(blocks + [b])) == Grouped(RecsOf(blocks + [b]), FRESH)
  {
    GroupBlock(Flatten(blocks), RecsOf(blocks), b);
    RecsSnoc(blocks, b);
  }

  lemma {:induction false} GroupBlocks(blocks: seq<seq<Token>>)
    requires Blocks(blocks)
    ensures Group(Flatten(blocks)) == Grouped(RecsOf(blocks), FRESH)
  {
    if blocks == [] {
    } else {
      GroupBlocks(Init(blocks));
      GroupOneMore(Init(blocks), Last(blocks));
      assert Init(blocks) + [Last(blocks)] == blocks;
    }
  }

  /**
   Any way of writing the stream as shortest complete runs and a pending rest is the
   way `group_tokens` cuts it: there is at most one.
   */
  lemma GroupUnique(blocks: seq<seq<Token>>, rest: seq<Token>)
    requires Blocks(blocks) && Pending(rest) && NonNegative(rest)
    ensures Group(Flatten(blocks) + rest) == Grouped(RecsOf(blocks), RecOf(rest))
  {
    GroupBlocks(blocks);
    GroupPending(Flatten(blocks), RecsOf(blocks), rest);
  }

  /** The token runs of a sequence of records. */
  function Runs(rs: seq<Rec>): seq<seq<Token>> {
    seq(|rs|, i requires 0 <= i < |rs| => rs[i].tokens)
  }

  /** What `group_tokens` has established after any number of tokens. */
  predicate Cut(ts: seq<Token>, g: Grouping)
    requires g.Grouped?
  {
    var blocks := Runs(g.done);
    && Flatten(blocks) + g.open.tokens == ts
    && Blocks(blocks) && g.done == RecsOf(blocks)
    && Pending(g.open.tokens) && NonNegative(g.open.tokens) && g.open == RecOf(g.open.tokens)
    && g.open.nesting == Depth(ts)
  }

  lemma CutPending(ts: seq<Token>, g: Grouping, t: Token)
    requires g.Grouped? && Cut(ts, g)
    requires var run := g.open.tokens + [t]; !Complete(run) && Depth(run) >= 0
    ensures Cut(ts + [t], Grouped(g.done, RecOf(g.open.tokens + [t])))
  {
    Snoc(g.open.tokens, t);
    Snoc(ts, t);
    assert Flatten(Runs(g.done)) + (g.open.tokens + [t]) == ts + [t];
  }

  lemma BlockSnoc(run: seq<Token>, t: Token)
    requires Pending(run) && NonNegative(run) && Complete(run + [t])
    ensures Block(run + [t])
  {
    Snoc(run, t);
  }

  lemma CutComplete(ts: seq<Token>, g: Grouping, t: Token)
    requires g.Grouped? && Cut(ts, g)
    requires var run := g.open.tokens + [t]; Complete(run) && Depth(ts + [t]) == Depth(run)
    ensures Cut(ts + [t], Grouped(g.done + [RecOf(g.open.tokens + [t])], FRESH))
  {
    var run := g.open.tokens + [t];
    var blocks := Runs(g.done);
    BlockSnoc(g.open.tokens, t);
    RecsSnoc(blocks, run);
    assert Runs(g.done + [RecOf(run)]) == blocks + [run];
    assert Flatten(blocks + [run]) + [] == ts + [t];
  }

  lemma CutStep(ts: seq<Token>, t: Token)
    requires Group(ts).Grouped? && Cut(ts, Group(ts))
    ensures Group(ts + [t]).Unmatched? <==> Depth(ts + [t]) < 0
    ensures Group(ts + [t]).Grouped? ==> Cut(ts + [t], Group(ts + [t]))
  {
    var g := Group(ts);
    var run := g.open.tokens + [t];
    NonNegativeDepth(g.open.tokens);
    GroupSnoc(ts, g.done, g.open.tokens, t);
    Snoc(g.open.tokens, t);
    Snoc(ts, t);
    if Complete(run) { CutComplete(ts, g, t); }
    else if Depth(run) >= 0 { CutPending(ts, g, t); }
  }

  /**
   Grouping fails exactly when some prefix of the stream closes a conditional that was
   never opened. Otherwise its records are shortest complete runs, their tokens followed
   by the open record's spell the stream, every field says what those tokens say, and the
   open record's nesting is the nesting of the whole stream.
   */
  lemma {:induction false} GroupingCuts(ts: seq<Token>)
    ensures Group(ts).Grouped? <==> NonNegative(ts)
    ensures Group(ts).Grouped? ==> Cut(ts, Group(ts))
  {
    if ts == [] {
      assert Runs([]) == [];
    } else {
      GroupingCuts(Init(ts));
      if Group(Init(ts)).Grouped? { CutStep(Init(ts), Last(ts)); }
      assert Init(ts) + [Last(ts)] == ts;
    }
  }

  /** `NonNegative` in terms of positions: no prefix has negative depth. */
  lemma {:induction false} NonNegativePrefixes(ts: seq<Token>)
    ensures NonNegative(ts) <==> forall k | 0 <= k <= |ts| :: Depth(ts[..k]) >= 0
  {
    if ts == [] {
    } else {
      NonNegativePrefixes(Init(ts));
      assert forall k | 0 <= k <= |ts| - 1 :: Init(ts)[..k] == ts[..k];
      assert ts[..|ts|] == ts;
    }
  }

  /** "unmatched #endif" is reported exactly when some prefix has negative depth. */
  lemma UnmatchedEndif(ts: seq<Token>)
    ensures Group(ts).Unmatched? <==> exists k | 0 <= k <= |ts| :: Depth(ts[..k]) < 0
  {
    GroupingCuts(ts);
    NonNegativePrefixes(ts);
  }

  /** Nothing shorter than a closed record would have closed it. */
  lemma {:induction false} PendingPrefixes(ts: seq<Token>)
    ensures Pending(ts) <==> forall k | 0 <= k <= |ts| :: !Complete(ts[..k])
  {
    if ts == [] {
    } else {
      PendingPrefixes(Init(ts));
      assert forall k | 0 <= k <= |ts| - 1 :: Init(ts)[..k] == ts[..k];
      assert ts[..|ts|] == ts;
    }
  }

  /** On balanced input the record left over at the end holds no declaration. */
  lemma TrailingHoldsNothing(ts: seq<Token>)
    requires Balanced(ts)
    ensures Group(ts).Grouped? && Decls(Group(ts).open.tokens) == [] && Group(ts).open.rt == Empty
  {
    GroupingCuts(ts);
  }

  // ---------------------------------------------------------------- the fields, by position

  /** Everything but comments, blanks and conditionals declares something. */
  predicate Declares(tt: TokenType) {
    !tt.Comment? && !tt.Whitespace? && !tt.PreprIf? && !tt.PreprElse? && !tt.PreprEndif?
  }

  predicate DeclaresAt(ts: seq<Token>, i: nat) {
    i < |ts| && Declares(ts[i].tt)
  }

  predicate OnlyDecl(ts: seq<Token>, i: nat) {
    DeclaresAt(ts, i) && forall j | 0 <= j < |ts| && j != i :: !Declares(ts[j].tt)
  }

  /** Some run's only declaration is a token of kind `tt`. */
  predicate LoneDecl(ts: seq<Token>, tt: TokenType) {
    exists i | 0 <= i < |ts| :: OnlyDecl(ts, i) && ts[i].tt == tt
  }

  lemma DeclaresMeaning(t: Token)
    ensures IsDecl(t) <==> Declares(t.tt)
  {
  }

  lemma DeclaresSnoc(run: seq<Token>, t: Token, i: nat)
    requires i < |run|
    ensures DeclaresAt(run + [t], i) <==> DeclaresAt(run, i)
    ensures OnlyDecl(run + [t], i) <==> OnlyDecl(run, i) && !Declares(t.tt)
  {
    assert forall j | 0 <= j < |run| :: (run + [t])[j] == run[j];
    if OnlyDecl(run + [t], i) { assert (run + [t])[|run|] == t; }
  }

  /** The declarations of a run are its tokens that declare something. */
  lemma {:induction false} NoDecls(ts: seq<Token>)
    ensures Decls(ts) == [] <==> forall i | 0 <= i < |ts| :: !Declares(ts[i].tt)
  {
    if ts != [] {
      NoDecls(Init(ts));
      DeclaresMeaning(Last(ts));
      assert forall i | 0 <= i < |ts| - 1 :: Init(ts)[i] == ts[i];
    }
  }

  lemma {:induction false} OneDecl(ts: seq<Token>)
    ensures |Decls(ts)| == 1 ==> exists i | 0 <= i < |ts| :: OnlyDecl(ts, i) && Decls(ts) == [ts[i]]
  {
    if ts != [] && |Decls(ts)| == 1 {
      var front, t := Init(ts), Last(ts);
      DeclaresMeaning(t);
      assert front + [t] == ts;
      if IsDecl(t) {
        NoDecls(front);
        assert OnlyDecl(ts, |ts| - 1);
      } else {
        OneDecl(front);
        var i :| 0 <= i < |front| && OnlyDecl(front, i) && Decls(front) == [front[i]];
        DeclaresSnoc(front, t, i);
      }
    }
  }

  lemma {:induction false} OnlyIsOne(ts: seq<Token>, i: nat)
    requires OnlyDecl(ts, i)
    ensures Decls(ts) == [ts[i]]
  {
    var front, t := Init(ts), Last(ts);
    DeclaresMeaning(t);
    assert front + [t] == ts;
    if i == |front| {
      NoDecls(front);
    } else {
      DeclaresSnoc(front, t, i);
      OnlyIsOne(front, i);
    }
  }

  lemma LoneMeaning(ts: seq<Token>, tt: TokenType)
    ensures LoneDecl(ts, tt) <==> |Decls(ts)| == 1 && Decls(ts)[0].tt == tt
  {
    OneDecl(ts);
    if i :| 0 <= i < |ts| && OnlyDecl(ts, i) && ts[i].tt == tt { OnlyIsOne(ts, i); }
  }

  /** The type of a record is the kind of its only declaration, if it has just one. */
  lemma TypeByPosition(ts: seq<Token>)
    ensures var rt := RecOf(ts).rt;
            && (rt == RecordType.Function <==> LoneDecl(ts, TokenType.Function))
            && (rt == RecordType.Typedef <==> LoneDecl(ts, TokenType.Typedef))
            && (rt == RecordType.Const <==> LoneDecl(ts, TokenType.Const))
            && (rt == RecordType.PreprDefine <==> LoneDecl(ts, TokenType.PreprDefine))
            && (rt == RecordType.PreprInclude <==> LoneDecl(ts, TokenType.PreprInclude))
            && (rt == RecordType.PrivateToken <==> LoneDecl(ts, TokenType.PrivateToken))
            && (rt == Empty <==> forall i | 0 <= i < |ts| :: !Declares(ts[i].tt))
  {
    LoneMeaning(ts, TokenType.Function);
    LoneMeaning(ts, TokenType.Typedef);
    LoneMeaning(ts, TokenType.Const);
    LoneMeaning(ts, TokenType.PreprDefine);
    LoneMeaning(ts, TokenType.PreprInclude);
    LoneMeaning(ts, TokenType.PrivateToken);
    NoDecls(ts);
    DeclsAreDecls(ts);
  }

  lemma {:induction false} IdsOf(decls: seq<Token>, id: string)
    ensures id in Ids(decls) <==> id != "" && exists i | 0 <= i < |decls| :: decls[i].id == id
  {
    if decls != [] {
      IdsOf(Init(decls), id);
      assert forall i | 0 <= i < |decls| - 1 :: Init(decls)[i] == decls[i];
    }
  }

  lemma {:induction false} InDecls(ts: seq<Token>, t: Token)
    ensures t in Decls(ts) <==> t in ts && Declares(t.tt)
  {
    if ts != [] {
      InDecls(Init(ts), t);
      DeclaresMeaning(Last(ts));
      assert ts == Init(ts) + [Last(ts)];
    }
  }

  /** A record lists exactly the nonempty ids of its declarations. */
  lemma IdsByPosition(ts: seq<Token>, id: string)
    ensures id in RecOf(ts).ids <==> id != "" && exists t :: t in ts && Declares(t.tt) && t.id == id
  {
    var ds := Decls(ts);
    IdsOf(ds, id);
    if id in Ids(ds) {
      var i :| 0 <= i < |ds| && ds[i].id == id;
      InDecls(ts, ds[i]);
    }
    if t :| t in ts && Declares(t.tt) && t.id == id {
      InDecls(ts, t);
      var i :| 0 <= i < |ds| && ds[i] == t;
    }
  }

  /** Nesting is the number of conditionals opened minus the number closed. */
  lemma {:induction false} DepthCounts(ts: seq<Token>)
    ensures Depth(ts) == |Keep(ts, (t: Token) => t.tt.PreprIf?)| - |Keep(ts, (t: Token) => t.tt.PreprEndif?)|
  {
    if ts != [] { DepthCounts(Init(ts)); }
  }
}
