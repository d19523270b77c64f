/**
 What splitting a generated header into several means, from text to text.
 */
module Splitting {
  import opened Text
  import opened Lexer
  import opened Reprint
  import opened Records
  import opened Contexts
  import opened Router

  datatype Verdict =
    | Done
    | UnmatchedEndif
    | NotFound(id: string)
    | UnusedRecord(rec: Rec)
    | Panicked

  /** All records of a grouping, the trailing one included whatever it holds. */
  function RecordsOf(g: Grouping): seq<Rec>
    requires g.Grouped?
  {
    g.done + [g.open]
  }

  function RuleIds(rules: seq<SplitRule>): seq<string> {
    if rules == [] then []
    else
      match Last(rules)
      case Brand(_) => RuleIds(Init(rules))
      case Exclusive(id) => RuleIds(Init(rules)) + [id]
      case Shared(id) => RuleIds(Init(rules)) + [id]
  }

  /** Ids the guide asks for by name. */
  function RequestedIds(guide: Guide): seq<string> {
    if guide == [] then [] else RequestedIds(Init(guide)) + RuleIds(Last(guide).rules)
  }

  predicate Defined(recs: seq<Rec>, id: string) {
    exists i | 0 <= i < |recs| :: id in recs[i].ids
  }

  /** `is_used` once every record has been offered to the guide. */
  predicate Used(guide: Guide, rec: Rec) {
    Routed(guide, rec) || rec.rt == Empty || rec.rt == RecordType.PrivateToken
  }

  function FirstUndefined(ids: seq<string>, recs: seq<Rec>): Option<string> {
    if ids == [] then None
    else if !Defined(recs, ids[0]) then Some(ids[0])
    else FirstUndefined(ids[1..], recs)
  }

  function FirstUnused(guide: Guide, recs: seq<Rec>): Option<Rec> {
    if recs == [] then None
    else if !Used(guide, recs[0]) then Some(recs[0])
    else FirstUnused(guide, recs[1..])
  }

  /** How the pass over the records ends. */
  function Judge(guide: Guide, recs: seq<Rec>): Verdict {
    match FirstUndefined(RequestedIds(guide), recs)
    case Some(id) => NotFound(id)
    case None =>
      match FirstUnused(guide, recs)
      case Some(rec) => UnusedRecord(rec)
      case None => Done
  }

  /** How `split_bindings` ends. The tokenizer is lazy, so a bad `#endif` is met before later bad text. */
  function Outcome(guide: Guide, text: string): Verdict {
    var g := Group(Lex(text).tokens);
    if g.Unmatched? then UnmatchedEndif
    else if Lex(text).rest != "" then Panicked
    else Judge(guide, RecordsOf(g))
  }

  lemma {:induction false} AllUsed(guide: Guide, recs: seq<Rec>)
    ensures FirstUnused(guide, recs).None? <==> forall i | 0 <= i < |recs| :: Used(guide, recs[i])
  {
    if recs == [] {
    } else {
      AllUsed(guide, recs[1..]);
      assert forall i | 1 <= i < |recs| :: recs[i] == recs[1..][i - 1];
    }
  }

  lemma {:induction false} AllDefined(ids: seq<string>, recs: seq<Rec>)
    ensures FirstUndefined(ids, recs).None? <==> forall id | id in ids :: Defined(recs, id)
  {
    if ids == [] {
    } else {
      AllDefined(ids[1..], recs);
      assert forall id | id in ids :: id == ids[0] || id in ids[1..];
    }
  }

  lemma {:induction false} RuleIdsMeaning(rules: seq<SplitRule>, id: string)
    ensures id in RuleIds(rules) <==> Exclusive(id) in rules || Shared(id) in rules
  {
    if rules == [] {
    } else {
      RuleIdsMeaning(Init(rules), id);
      assert forall r | r in rules :: r == Last(rules) || r in Init(rules);
    }
  }

  lemma {:induction false} RequestedMeaning(guide: Guide, id: string)
    ensures id in RequestedIds(guide) <==>
            exists i | 0 <= i < |guide| :: Exclusive(id) in guide[i].rules || Shared(id) in guide[i].rules
  {
    if guide == [] {
    } else {
      var front := Init(guide);
      RequestedMeaning(front, id);
      RuleIdsMeaning(Last(guide).rules, id);
      assert forall i | 0 <= i < |front| :: front[i] == guide[i];
      assert Last(guide) == guide[|front|];
    }
  }

  /** No token of the record declares anything, or the only one that does is private. */
  predicate Exempt(rec: Rec) {
    (forall i | 0 <= i < |rec.tokens| :: !Declares(rec.tokens[i].tt)) || LoneDecl(rec.tokens, TokenType.PrivateToken)
  }

  /** A record is used if some header receives it, and need not be if it holds nothing public. */
  lemma UsedMeaning(guide: Guide, rec: Rec)
    requires rec == RecOf(rec.tokens)
    ensures Used(guide, rec) <==> (exists path :: Multiplicity(guide, rec, path) > 0) || Exempt(rec)
  {
    RoutedMeaning(guide, rec);
    TypeByPosition(rec.tokens);
  }

  /**
   The split succeeds exactly when no prefix closes a conditional it did not open, the whole
   text can be read, every id the guide names is declared, and every record reaches some
   header, unless it declares nothing or its only declaration is private.
   */
  lemma OutcomeDone(guide: Guide, text: string)
    ensures Outcome(guide, text) == Done <==>
            && NonNegative(Lex(text).tokens) && Lex(text).rest == ""
            && Group(Lex(text).tokens).Grouped?
            && var recs := RecordsOf(Group(Lex(text).tokens));
            && (forall id | id in RequestedIds(guide) :: Defined(recs, id))
            && (forall i | 0 <= i < |recs| ::
                  (exists path :: Multiplicity(guide, recs[i], path) > 0) || Exempt(recs[i]))
  {
    GroupingCuts(Lex(text).tokens);
    if Group(Lex(text).tokens).Grouped? {
      var recs := RecordsOf(Group(Lex(text).tokens));
      AllDefined(RequestedIds(guide), recs);
      AllUsed(guide, recs);
      RecordsFaithful(Lex(text).tokens);
      forall i | 0 <= i < |recs|
        ensures Used(guide, recs[i]) <==> (exists path :: Multiplicity(guide, recs[i], path) > 0) || Exempt(recs[i])
      {
        UsedMeaning(guide, recs[i]);
      }
    }
  }

  predicate FirstBad(ids: seq<string>, recs: seq<Rec>, k: nat) {
    k < |ids| && !Defined(recs, ids[k]) && forall j | 0 <= j < k :: Defined(recs, ids[j])
  }

  lemma {:induction false} UndefinedIsFirst(ids: seq<string>, recs: seq<Rec>, id: string)
    ensures FirstUndefined(ids, recs) == Some(id) <==>
            exists k | 0 <= k < |ids| :: FirstBad(ids, recs, k) && ids[k] == id
  {
    if ids != [] {
      UndefinedIsFirst(ids[1..], recs, id);
      if !Defined(recs, ids[0]) {
        assert FirstBad(ids, recs, 0);
      } else {
        forall k | 1 <= k < |ids| ensures FirstBad(ids, recs, k) <==> FirstBad(ids[1..], recs, k - 1) {
          assert forall j | 1 <= j < |ids| :: ids[j] == ids[1..][j - 1];
        }
        if k :| 0 <= k < |ids[1..]| && FirstBad(ids[1..], recs, k) && ids[1..][k] == id {
          assert FirstBad(ids, recs, k + 1) && ids[k + 1] == id;
        }
      }
    }
  }

  predicate FirstIdle(guide: Guide, recs: seq<Rec>, k: nat) {
    k < |recs| && !Used(guide, recs[k]) && forall j | 0 <= j < k :: Used(guide, recs[j])
  }

  lemma {:induction false} UnusedIsFirst(guide: Guide, recs: seq<Rec>, rec: Rec)
    ensures FirstUnused(guide, recs) == Some(rec) <==>
            exists k | 0 <= k < |recs| :: FirstIdle(guide, recs, k) && recs[k] == rec
  {
    if recs != [] {
      UnusedIsFirst(guide, recs[1..], rec);
      if !Used(guide, recs[0]) {
        assert FirstIdle(guide, recs, 0);
      } else {
        forall k | 1 <= k < |recs| ensures FirstIdle(guide, recs, k) <==> FirstIdle(guide, recs[1..], k - 1) {
          assert forall j | 1 <= j < |recs| :: recs[j] == recs[1..][j - 1];
        }
        if k :| 0 <= k < |recs[1..]| && FirstIdle(guide, recs[1..], k) && recs[1..][k] == rec {
          assert FirstIdle(guide, recs, k + 1) && recs[k + 1] == rec;
        }
      }
    }
  }

  /** A bad `#endif` is reported whatever else is wrong, and text that cannot be read after that. */
  lemma EndifVerdict(guide: Guide, text: string)
    ensures Outcome(guide, text) == Verdict.UnmatchedEndif <==>
            exists k | 0 <= k <= |Lex(text).tokens| :: Depth(Lex(text).tokens[..k]) < 0
    ensures Outcome(guide, text) == Panicked <==>
            Lex(text).rest != "" && forall k | 0 <= k <= |Lex(text).tokens| :: Depth(Lex(text).tokens[..k]) >= 0
  {
    Records.UnmatchedEndif(Lex(text).tokens);
  }

  lemma JudgeUndefined(guide: Guide, recs: seq<Rec>, id: string)
    ensures Judge(guide, recs) == NotFound(id) <==> FirstUndefined(RequestedIds(guide), recs) == Some(id)
  {
  }

  lemma JudgeUnused(guide: Guide, recs: seq<Rec>, rec: Rec)
    ensures Judge(guide, recs) == UnusedRecord(rec) <==>
            FirstUndefined(RequestedIds(guide), recs).None? && FirstUnused(guide, recs) == Some(rec)
  {
  }

  /** Otherwise the first id that the guide names and no record declares is reported. */
  lemma UndefinedVerdict(guide: Guide, text: string, id: string)
    requires Group(Lex(text).tokens).Grouped? && Lex(text).rest == ""
    ensures var recs, ids := RecordsOf(Group(Lex(text).tokens)), RequestedIds(guide);
            Outcome(guide, text) == NotFound(id) <==>
            exists k | 0 <= k < |ids| :: FirstBad(ids, recs, k) && ids[k] == id
  {
    JudgeUndefined(guide, RecordsOf(Group(Lex(text).tokens)), id);
    UndefinedIsFirst(RequestedIds(guide), RecordsOf(Group(Lex(text).tokens)), id);
  }

  /** And only then the first record that is not used. */
  lemma UnusedVerdict(guide: Guide, text: string, rec: Rec)
    requires Group(Lex(text).tokens).Grouped? && Lex(text).rest == ""
    ensures var recs := RecordsOf(Group(Lex(text).tokens));
            Outcome(guide, text) == UnusedRecord(rec) <==>
            && (forall id | id in RequestedIds(guide) :: Defined(recs, id))
            && exists k | 0 <= k < |recs| :: FirstIdle(guide, recs, k) && recs[k] == rec
  {
    var recs := RecordsOf(Group(Lex(text).tokens));
    JudgeUnused(guide, recs, rec);
    AllDefined(RequestedIds(guide), recs);
    UnusedIsFirst(guide, recs, rec);
  }

  // ---------------------------------------------------------------- from tokens to records

  lemma RunsSnoc(rs: seq<Rec>, r: Rec)
    ensures Runs(rs + [r]) == Runs(rs) + [r.tokens]
  {
  }

  lemma RunsBalanced(g: Grouping, ts: seq<Token>)
    requires g.Grouped? && Cut(ts, g) && Balanced(ts)
    ensures AllBalanced(Runs(g.done) + [g.open.tokens])
  {
    BlocksBalanced(Runs(g.done));
  }

  lemma RunsJoin(runs: seq<seq<Token>>, run: seq<Token>)
    ensures Flatten(runs + [run]) == Flatten(runs) + run
    ensures PlacedRuns(runs + [run]) == PlacedRuns(runs) + Placed(run)
  {
    assert Init(runs + [run]) == runs;
  }

  /** The records spell the stream, and on balanced input each is balanced on its own. */
  lemma RecordsSpell(ts: seq<Token>)
    requires Group(ts).Grouped?
    ensures var recs := RecordsOf(Group(ts));
            && Flatten(Runs(recs)) == ts
            && PlacedRuns(Runs(recs)) == Placed(ts)
            && (Balanced(ts) ==> AllBalanced(Runs(recs)))
  {
    var g := Group(ts);
    GroupingCuts(ts);
    GroupingKeepsPlacement(ts);
    RunsSnoc(g.done, g.open);
    RunsJoin(Runs(g.done), g.open.tokens);
    if Balanced(ts) { RunsBalanced(g, ts); }
  }

  lemma {:induction false} RunMembers(runs: seq<seq<Token>>)
    ensures forall i, t | 0 <= i < |runs| && t in runs[i] :: t in Flatten(runs)
  {
    if runs != [] {
      RunMembers(Init(runs));
      forall i, t | 0 <= i < |runs| && t in runs[i] ensures t in Flatten(runs) {
        if i < |runs| - 1 { assert t in Init(runs)[i]; }
      }
    }
  }

  lemma RecordsGenuine(text: string)
    requires Group(Lex(text).tokens).Grouped?
    ensures forall r, t | r in RecordsOf(Group(Lex(text).tokens)) && t in r.tokens :: Genuine(t)
  {
    var ts := Lex(text).tokens;
    var recs := RecordsOf(Group(ts));
    LexGenuine(text);
    RecordsSpell(ts);
    RunMembers(Runs(recs));
    forall r, t | r in recs && t in r.tokens ensures Genuine(t) {
      var i :| 0 <= i < |recs| && recs[i] == r;
      assert Runs(recs)[i] == r.tokens;
    }
  }

  // ---------------------------------------------------------------- meaning is preserved

  /** The tokens that reach one header of a split text. */
  function HeaderTokens(guide: Guide, text: string, path: string): seq<Token>
    requires Group(Lex(text).tokens).Grouped?
  {
    Flatten(RoutedRuns(guide, RecordsOf(Group(Lex(text).tokens)), path))
  }

  /** The text of one header of a split text. */
  function HeaderText(guide: Guide, text: string, path: string): string
    requires Group(Lex(text).tokens).Grouped?
  {
    Body(guide, RecordsOf(Group(Lex(text).tokens)), path)
  }

  /**
   A written header reads back as exactly the tokens routed to it if and only if none of
   them was cut short by the end of the input.
   */
  lemma HeaderReadsBack(guide: Guide, text: string, path: string)
    requires Group(Lex(text).tokens).Grouped?
    ensures var header := Lex(HeaderText(guide, text, path));
            && (header.rest == "" && Ink(header.tokens) == HeaderTokens(guide, text, path)
                <==> AllTerminated(HeaderTokens(guide, text, path)))
  {
    var recs := RecordsOf(Group(Lex(text).tokens));
    BodyPrints(guide, recs, path);
    RecordsGenuine(text);
    RoutedPrintable(guide, recs, path);
    PrintLexRoundTrip(HeaderTokens(guide, text, path));
  }

  lemma HeaderPlaced(guide: Guide, text: string, path: string)
    requires Balanced(Lex(text).tokens) && Group(Lex(text).tokens).Grouped?
    ensures Placed(HeaderTokens(guide, text, path)) ==
            RoutedPlacements(guide, RecordsOf(Group(Lex(text).tokens)), path)
    ensures StackAfter(HeaderTokens(guide, text, path)) == []
    ensures Balanced(HeaderTokens(guide, text, path))
  {
    var recs := RecordsOf(Group(Lex(text).tokens));
    RecordsSpell(Lex(text).tokens);
    RoutedBalanced(guide, recs, path);
    RoutedPlaced(guide, recs, path);
    PlacedFlatten(RoutedRuns(guide, recs, path));
    BalancedFlatten(RoutedRuns(guide, recs, path));
  }

  lemma {:induction false} BalancedAppend(a: seq<Token>, b: seq<Token>)
    requires Balanced(a) && NonNegative(b)
    ensures NonNegative(a + b) && Depth(a + b) == Depth(b)
    decreases |b|
  {
    if b == [] {
      assert a + b == a;
    } else {
      assert Init(a + b) == a + Init(b) && Last(a + b) == Last(b);
      BalancedAppend(a, Init(b));
    }
  }

  lemma {:induction false} BalancedFlatten(runs: seq<seq<Token>>)
    requires AllBalanced(runs)
    ensures Balanced(Flatten(runs))
  {
    if runs != [] {
      BalancedFlatten(Init(runs));
      BalancedAppend(Flatten(Init(runs)), Last(runs));
    }
  }

  /**
   Meaning preservation, text to text. Whatever the guide, a header read back from its
   text is balanced and holds, for every record and once per copy, exactly the record's
   declarations under exactly the branches they had in the input.
   */
  lemma HeadersKeepContext(guide: Guide, text: string, path: string)
    requires Balanced(Lex(text).tokens) && Group(Lex(text).tokens).Grouped?
    requires AllTerminated(HeaderTokens(guide, text, path))
    ensures var recs := RecordsOf(Group(Lex(text).tokens));
            var header := Lex(HeaderText(guide, text, path));
            && header.rest == ""
            && Balanced(header.tokens)
            && Placed(header.tokens) == RoutedPlacements(guide, recs, path)
            && Placed(Lex(text).tokens) == PlacedRuns(Runs(recs))
  {
    var header := Lex(HeaderText(guide, text, path));
    HeaderReadsBack(guide, text, path);
    HeaderPlaced(guide, text, path);
    InkCore(header.tokens);
    SameCore(header.tokens, Ink(header.tokens));
    RecordsSpell(Lex(text).tokens);
  }

  /** A header read back holds the comments of its routed records, in order and once per copy. */
  lemma HeaderComments(guide: Guide, text: string, path: string)
    requires Group(Lex(text).tokens).Grouped? && AllTerminated(HeaderTokens(guide, text, path))
    ensures Keep(Lex(HeaderText(guide, text, path)).tokens, IsComment) ==
            RoutedComments(guide, RecordsOf(Group(Lex(text).tokens)), path)
  {
    HeaderReadsBack(guide, text, path);
    InkCore(Lex(HeaderText(guide, text, path)).tokens);
    RoutedKeepsComments(guide, RecordsOf(Group(Lex(text).tokens)), path);
  }

  // ---------------------------------------------------------------- types decide routes

  /** The rules for types, kind by kind. */
  predicate Stands(rt: RecordType, tt: TokenType) {
    || (rt == RecordType.Function && tt == TokenType.Function)
    || (rt == RecordType.Typedef && tt == TokenType.Typedef)
    || (rt == RecordType.Const && tt == TokenType.Const)
    || (rt == RecordType.PreprDefine && tt == TokenType.PreprDefine)
    || (rt == RecordType.PreprInclude && tt == TokenType.PreprInclude)
    || (rt == RecordType.PrivateToken && tt == TokenType.PrivateToken)
  }

  /** A record of a stream has such a type exactly if its only declaration is a token of that kind. */
  lemma RecordTypes(ts: seq<Token>, k: nat, rt: RecordType, tt: TokenType)
    requires Group(ts).Grouped? && k < |RecordsOf(Group(ts))| && Stands(rt, tt)
    ensures RecordsOf(Group(ts))[k].rt == rt <==> LoneDecl(RecordsOf(Group(ts))[k].tokens, tt)
  {
    RecordsFaithful(ts);
    TypeByPosition(RecordsOf(Group(ts))[k].tokens);
  }

  /**
   A header whose guide entry asks for a type, say `:functions`, receives every record whose
   only declaration is a token of that kind, unless an exclusive rule asks for the record.
   */
  lemma TypeReceives(guide: Guide, ts: seq<Token>, k: nat, i: nat, j: nat, rt: RecordType, tt: TokenType)
    requires Group(ts).Grouped? && k < |RecordsOf(Group(ts))| && Stands(rt, tt)
    requires LoneDecl(RecordsOf(Group(ts))[k].tokens, tt) && !AskedExclusively(guide, RecordsOf(Group(ts))[k])
    requires i < |guide| && j < |guide[i].rules| && guide[i].rules[j] == Brand(rt)
    ensures Multiplicity(guide, RecordsOf(Group(ts))[k], guide[i].path) > 0
    ensures forall pl | pl in Placed(RecordsOf(Group(ts))[k].tokens) ::
              pl in RoutedPlacements(guide, RecordsOf(Group(ts)), guide[i].path)
  {
    var recs := RecordsOf(Group(ts));
    RecordTypes(ts, k, rt, tt);
    BrandReceives(guide, recs[k], i, j);
    forall pl | pl in Placed(recs[k].tokens) ensures pl in RoutedPlacements(guide, recs, guide[i].path) {
      InRoutedPlacements(guide, recs, guide[i].path, pl);
    }
  }

  // ---------------------------------------------------------------- nothing is lost or invented

  lemma {:induction false} InPlacedRuns(runs: seq<seq<Token>>, pl: Placement)
    ensures pl in PlacedRuns(runs) <==> exists i | 0 <= i < |runs| :: pl in Placed(runs[i])
  {
    if runs == [] {
    } else {
      var front := Init(runs);
      InPlacedRuns(front, pl);
      assert forall i | 0 <= i < |front| :: front[i] == runs[i];
      if pl in PlacedRuns(front) {
        var i :| 0 <= i < |front| && pl in Placed(front[i]);
        assert pl in Placed(runs[i]);
      } else if pl in Placed(Last(runs)) {
        assert pl in Placed(runs[|runs| - 1]);
      }
    }
  }

  lemma {:induction false} InCopies(run: seq<Placement>, n: nat, pl: Placement)
    ensures pl in Flatten(Repeat(run, n)) <==> n > 0 && pl in run
  {
    if n > 0 {
      assert Init(Repeat(run, n)) == Repeat(run, n - 1);
      InCopies(run, n - 1, pl);
    }
  }

  lemma {:induction false} InRoutedPlacements(guide: Guide, recs: seq<Rec>, path: string, pl: Placement)
    ensures pl in RoutedPlacements(guide, recs, path) <==>
            exists i | 0 <= i < |recs| :: Multiplicity(guide, recs[i], path) > 0 && pl in Placed(recs[i].tokens)
  {
    if recs == [] {
    } else {
      InRoutedPlacements(guide, Init(recs), path, pl);
      InCopies(Placed(Last(recs).tokens), Multiplicity(guide, Last(recs), path), pl);
      assert forall i | 0 <= i < |recs| - 1 :: Init(recs)[i] == recs[i];
    }
  }

  /** A placed declaration is a declaration of its run. */
  lemma {:induction false} PlacedDecls(ts: seq<Token>)
    ensures |Placed(ts)| == |Decls(ts)| && forall i | 0 <= i < |Decls(ts)| :: Placed(ts)[i].decl == Decls(ts)[i]
  {
    if ts != [] { PlacedDecls(Init(ts)); }
  }

  /** A record with a public declaration must be routed for the split to succeed. */
  lemma PublicMeansRouted(guide: Guide, rec: Rec, pl: Placement)
    requires rec == RecOf(rec.tokens) && pl in Placed(rec.tokens) && pl.decl.tt != TokenType.PrivateToken
    requires Used(guide, rec)
    ensures Routed(guide, rec)
  {
    PlacedDecls(rec.tokens);
    DeclsAreDecls(rec.tokens);
  }

  /** Every record of a stream says what its tokens say. */
  lemma RecordsFaithful(ts: seq<Token>)
    requires Group(ts).Grouped?
    ensures forall i | 0 <= i < |RecordsOf(Group(ts))| ::
              RecordsOf(Group(ts))[i] == RecOf(RecordsOf(Group(ts))[i].tokens)
  {
    GroupingCuts(ts);
    var g := Group(ts);
    forall i | 0 <= i < |g.done| ensures g.done[i] == RecOf(g.done[i].tokens) {
      assert RecsOf(Runs(g.done))[i] == RecOf(Runs(g.done)[i]);
    }
  }

  /**
   Nothing is lost: if the split succeeds, every public declaration of the input is
   written to at least one header, under the branches it had.
   */
  lemma NothingLost(guide: Guide, text: string, pl: Placement) returns (path: string)
    requires Outcome(guide, text) == Done
    requires pl in Placed(Lex(text).tokens) && pl.decl.tt != TokenType.PrivateToken
    ensures Paths(guide, path)
    ensures pl in RoutedPlacements(guide, RecordsOf(Group(Lex(text).tokens)), path)
    ensures Balanced(Lex(text).tokens) && AllTerminated(HeaderTokens(guide, text, path)) ==>
              pl in Placed(Lex(HeaderText(guide, text, path)).tokens)
  {
    var ts := Lex(text).tokens;
    var recs := RecordsOf(Group(ts));
    RecordsSpell(ts);
    RecordsFaithful(ts);
    AllUsed(guide, recs);
    InPlacedRuns(Runs(recs), pl);
    var i :| 0 <= i < |Runs(recs)| && pl in Placed(Runs(recs)[i]);
    assert recs[i].tokens == Runs(recs)[i];
    PublicMeansRouted(guide, recs[i], pl);
    path := RoutedReaches(guide, recs[i]);
    InRoutedPlacements(guide, recs, path, pl);
    if Balanced(ts) && AllTerminated(HeaderTokens(guide, text, path)) {
      HeadersKeepContext(guide, text, path);
    }
  }

  lemma RoutedFromInput(guide: Guide, text: string, path: string, pl: Placement)
    requires Group(Lex(text).tokens).Grouped?
    requires pl in RoutedPlacements(guide, RecordsOf(Group(Lex(text).tokens)), path)
    ensures pl in Placed(Lex(text).tokens)
  {
    var ts := Lex(text).tokens;
    var recs := RecordsOf(Group(ts));
    InRoutedPlacements(guide, recs, path, pl);
    var i :| 0 <= i < |recs| && pl in Placed(recs[i].tokens);
    RecordsSpell(ts);
    InPlacedRuns(Runs(recs), pl);
    assert Runs(recs)[i] == recs[i].tokens;
  }

  /**
   Nothing is invented: what is routed to a header, and what its text declares when it is
   read back, the input declares under the same branches.
   */
  lemma NothingInvented(guide: Guide, text: string, path: string, pl: Placement)
    requires Group(Lex(text).tokens).Grouped?
    ensures pl in RoutedPlacements(guide, RecordsOf(Group(Lex(text).tokens)), path) ==> pl in Placed(Lex(text).tokens)
    ensures Balanced(Lex(text).tokens) && AllTerminated(HeaderTokens(guide, text, path)) ==>
              (pl in Placed(Lex(HeaderText(guide, text, path)).tokens) ==> pl in Placed(Lex(text).tokens))
  {
    if pl in RoutedPlacements(guide, RecordsOf(Group(Lex(text).tokens)), path) {
      RoutedFromInput(guide, text, path, pl);
    }
    if Balanced(Lex(text).tokens) && AllTerminated(HeaderTokens(guide, text, path)) {
      HeadersKeepContext(guide, text, path);
    }
  }

  lemma {:induction false} RoutedMembers(guide: Guide, recs: seq<Rec>, path: string)
    ensures forall t | t in Flatten(RoutedRuns(guide, recs, path)) :: t in Flatten(Runs(recs))
  {
    if recs == [] {
    } else {
      RoutedMembers(guide, Init(recs), path);
      var run := PrintOrder(Last(recs).tokens);
      var n := Multiplicity(guide, Last(recs), path);
      KeepMembers(Last(recs).tokens, IsComment);
      KeepMembers(Last(recs).tokens, IsCore);
      FlattenAppend(RoutedRuns(guide, Init(recs), path), Repeat(run, n));
      FlattenCopies(run, n);
      assert Init(Runs(recs)) == Runs(Init(recs));
    }
  }

  lemma LastDecides(text: string)
    requires Lex(text).tokens != [] ==> Terminated(Last(Lex(text).tokens))
    ensures AllTerminated(Lex(text).tokens)
  {
    var ts := Lex(text).tokens;
    OnlyLastUnterminated(text);
    forall t | t in ts ensures Terminated(t) {
      var i :| 0 <= i < |ts| && ts[i] == t;
      assert i == |ts| - 1 || i < |ts| - 1;
    }
  }

  lemma PartTerminated(part: seq<Token>, whole: seq<Token>)
    requires AllTerminated(whole) && forall t | t in part :: t in whole
    ensures AllTerminated(part)
  {
  }

  /** A text whose last token is terminated gives only terminated tokens to every header. */
  lemma TerminatedText(guide: Guide, text: string, path: string)
    requires Group(Lex(text).tokens).Grouped?
    requires Lex(text).tokens != [] ==> Terminated(Last(Lex(text).tokens))
    ensures AllTerminated(HeaderTokens(guide, text, path))
  {
    LastDecides(text);
    RecordsSpell(Lex(text).tokens);
    RoutedMembers(guide, RecordsOf(Group(Lex(text).tokens)), path);
    PartTerminated(HeaderTokens(guide, text, path), Lex(text).tokens);
  }

  // ---------------------------------------------------------------- regrouping a printed record

  /** A record without its whitespace. */
  function Strip(r: Rec): Rec {
    r.(tokens := Ink(r.tokens))
  }

  function StripAll(rs: seq<Rec>): seq<Rec> {
    seq(|rs|, i requires 0 <= i < |rs| => Strip(rs[i]))
  }

  function StripGrouping(g: Grouping): Grouping {
    match g
    case Unmatched => Unmatched
    case Grouped(done, open) => Grouped(StripAll(done), Strip(open))
  }

  lemma StripStep(g: Grouping, t: Token)
    requires g.Grouped? ==> !Ready(g.open)
    ensures StripGrouping(Step(g, t)) == if IsInk(t) then Step(StripGrouping(g), t) else StripGrouping(g)
  {
    if g.Grouped? {
      assert Init(g.open.tokens + [t]) == g.open.tokens;
      var a := AddToken(g.open, t);
      if a.Some? {
        assert Ink(a.value.tokens) == if IsInk(t) then Ink(g.open.tokens) + [t] else Ink(g.open.tokens);
        assert StripAll(g.done + [a.value]) == StripAll(g.done) + [Strip(a.value)];
      }
    }
  }

  /** Whitespace never changes how a stream is grouped. */
  lemma {:induction false} GroupInk(ts: seq<Token>)
    ensures Group(Ink(ts)) == StripGrouping(Group(ts))
    ensures Group(ts).Grouped? ==> !Ready(Group(ts).open)
  {
    if ts == [] {
      assert StripAll([]) == [];
    } else {
      GroupInk(Init(ts));
      StripStep(Group(Init(ts)), Last(ts));
      if IsInk(Last(ts)) { assert Init(Ink(ts)) == Ink(Init(ts)); }
    }
  }

  /**
   Printing is a normal form: a closed record, printed and read again, is one closed
   record of the same type with the same ids that prints to the same text, followed by
   nothing but whitespace.
   */
  lemma RegroupPrinted(rec: Rec)
    requires Block(rec.tokens) && rec == RecOf(rec.tokens)
    requires (forall t | t in rec.tokens :: Genuine(t)) && AllTerminated(PrintOrder(rec.tokens))
    ensures var g := Group(Lex(Print(rec)).tokens);
            && Lex(Print(rec)).rest == ""
            && g.Grouped? && |g.done| == 1
            && Ink(g.done[0].tokens) == PrintOrder(rec.tokens)
            && g.done[0].rt == rec.rt && g.done[0].ids == rec.ids
            && Print(g.done[0]) == Print(rec)
            && Keep(g.done[0].tokens, IsComment) == Keep(rec.tokens, IsComment)
            && Ink(g.open.tokens) == []
  {
    var p := PrintOrder(rec.tokens);
    KeepMembers(rec.tokens, IsComment);
    KeepMembers(rec.tokens, IsCore);
    PrintLexRoundTrip(p);
    PrintedBlock(rec.tokens);
    PrintOrderCore(rec.tokens);
    SameCore(rec.tokens, p);
    var ts := Lex(Print(rec)).tokens;
    GroupBlock([], [], p);
    assert [] + p == p;
    GroupInk(ts);
    var g := Group(ts);
    assert StripAll(g.done)[0] == RecOf(p);
    InkCore(g.done[0].tokens);
    CommentsFirst(rec.tokens);
    assert Strip(g.open) == FRESH;
  }

  /** Every closed record of every text has that normal form, unless the text ended inside one of its tokens. */
  lemma ClosedRecordsRegroup(text: string, i: nat)
    requires Group(Lex(text).tokens).Grouped? && i < |Group(Lex(text).tokens).done|
    requires AllTerminated(PrintOrder(Group(Lex(text).tokens).done[i].tokens))
    ensures var rec := Group(Lex(text).tokens).done[i];
            var again := Group(Lex(Print(rec)).tokens);
            && again.Grouped? && |again.done| == 1 && Ink(again.open.tokens) == []
            && again.done[0].rt == rec.rt && again.done[0].ids == rec.ids && Print(again.done[0]) == Print(rec)
  {
    var ts := Lex(text).tokens;
    var rec := Group(ts).done[i];
    GroupingCuts(ts);
    assert Runs(Group(ts).done)[i] == rec.tokens;
    RecordsFaithful(ts);
    assert RecordsOf(Group(ts))[i] == rec;
    RecordsGenuine(text);
    assert rec in RecordsOf(Group(ts));
    RegroupPrinted(rec);
  }
}
