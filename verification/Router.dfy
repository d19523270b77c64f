/**
 The split guide: which header every record is written to, how often, and what the
 headers then say.
 */
module Router {
  import opened Text
  import opened Lexer
  import opened Reprint
  import opened Records
  import opened Contexts

  datatype SplitRule = Brand(rt: RecordType) | Exclusive(id: string) | Shared(id: string)

  /** One header and its rules. */
  datatype Entry = Entry(path: string, rules: seq<SplitRule>)

  type Guide = seq<Entry>

  // ---------------------------------------------------------------- multiplicities

  /** The rule asks for the record, as an exclusive rule or as a shared or brand one. */
  predicate Hits(rule: SplitRule, rec: Rec, exclusive: bool) {
    match rule
    case Brand(rt) => !exclusive && rt == rec.rt
    case Exclusive(id) => exclusive && id in rec.ids
    case Shared(id) => !exclusive && id in rec.ids
  }

  function CountHits(rules: seq<SplitRule>, rec: Rec, exclusive: bool): nat {
    if rules == [] then 0
    else CountHits(Init(rules), rec, exclusive) + if Hits(Last(rules), rec, exclusive) then 1 else 0
  }

  /** Matching rules of one class that name the header `path`. */
  function FileHits(guide: Guide, rec: Rec, exclusive: bool, path: string): nat {
    if guide == [] then 0
    else
      FileHits(Init(guide), rec, exclusive, path)
      + if Last(guide).path == path then CountHits(Last(guide).rules, rec, exclusive) else 0
  }

  /** Matching rules of one class over all headers. */
  function TotalHits(guide: Guide, rec: Rec, exclusive: bool): nat {
    if guide == [] then 0
    else TotalHits(Init(guide), rec, exclusive) + CountHits(Last(guide).rules, rec, exclusive)
  }

  /** How often a header receives a record: once per matching rule of the winning class. */
  function Multiplicity(guide: Guide, rec: Rec, path: string): nat {
    FileHits(guide, rec, TotalHits(guide, rec, true) > 0, path)
  }

  predicate Routed(guide: Guide, rec: Rec) {
    TotalHits(guide, rec, true) > 0 || TotalHits(guide, rec, false) > 0
  }

  ghost predicate Paths(guide: Guide, path: string) {
    exists i :: 0 <= i < |guide| && guide[i].path == path
  }

  lemma {:induction false} SomeFileHit(guide: Guide, rec: Rec, exclusive: bool) returns (path: string)
    requires TotalHits(guide, rec, exclusive) > 0
    ensures Paths(guide, path) && FileHits(guide, rec, exclusive, path) > 0
  {
    var e := Last(guide);
    if CountHits(e.rules, rec, exclusive) > 0 {
      path := e.path;
      assert guide[|guide| - 1].path == path;
    } else {
      path := SomeFileHit(Init(guide), rec, exclusive);
      var i :| 0 <= i < |Init(guide)| && Init(guide)[i].path == path;
      assert guide[i].path == path;
    }
  }

  /** A routed record reaches at least one header. */
  lemma RoutedReaches(guide: Guide, rec: Rec) returns (path: string)
    requires Routed(guide, rec)
    ensures Paths(guide, path) && Multiplicity(guide, rec, path) > 0
  {
    path := SomeFileHit(guide, rec, TotalHits(guide, rec, true) > 0);
  }

  lemma {:induction false} FileHitExists(guide: Guide, rec: Rec, exclusive: bool, path: string)
    ensures FileHits(guide, rec, exclusive, path) > 0 <==>
            exists i, j | 0 <= i < |guide| && 0 <= j < |guide[i].rules| ::
              guide[i].path == path && Hits(guide[i].rules[j], rec, exclusive)
  {
    if guide == [] {
    } else {
      var front, e := Init(guide), Last(guide);
      FileHitExists(front, rec, exclusive, path);
      RuleHitExists(e.rules, rec, exclusive);
      assert forall i | 0 <= i < |front| :: front[i] == guide[i];
      if FileHits(front, rec, exclusive, path) > 0 {
        var i, j :| 0 <= i < |front| && 0 <= j < |front[i].rules| &&
                    front[i].path == path && Hits(front[i].rules[j], rec, exclusive);
        assert guide[i].path == path && Hits(guide[i].rules[j], rec, exclusive);
      } else if e.path == path && CountHits(e.rules, rec, exclusive) > 0 {
        var j :| 0 <= j < |e.rules| && Hits(e.rules[j], rec, exclusive);
        assert guide[|front|].path == path && Hits(guide[|front|].rules[j], rec, exclusive);
      }
    }
  }

  lemma {:induction false} RuleHitExists(rules: seq<SplitRule>, rec: Rec, exclusive: bool)
    ensures CountHits(rules, rec, exclusive) > 0 <==> exists j | 0 <= j < |rules| :: Hits(rules[j], rec, exclusive)
  {
    if rules == [] {
    } else {
      RuleHitExists(Init(rules), rec, exclusive);
      assert forall j | 0 <= j < |rules| - 1 :: Init(rules)[j] == rules[j];
    }
  }

  /**
   When any exclusive rule asks for the record, a header receives it exactly when one of
   its own exclusive rules does.
   */
  lemma ExclusiveWins(guide: Guide, rec: Rec, path: string)
    requires TotalHits(guide, rec, true) > 0
    ensures Multiplicity(guide, rec, path) > 0 <==>
            exists i, j | 0 <= i < |guide| && 0 <= j < |guide[i].rules| ::
              guide[i].path == path && guide[i].rules[j].Exclusive? && guide[i].rules[j].id in rec.ids
  {
    FileHitExists(guide, rec, true, path);
    assert forall r: SplitRule :: Hits(r, rec, true) <==> r.Exclusive? && r.id in rec.ids;
  }

  /** Otherwise a header receives it exactly when a brand or shared rule of its own asks for it. */
  lemma SharedOtherwise(guide: Guide, rec: Rec, path: string)
    requires TotalHits(guide, rec, true) == 0
    ensures Multiplicity(guide, rec, path) > 0 <==>
            exists i, j | 0 <= i < |guide| && 0 <= j < |guide[i].rules| ::
              && guide[i].path == path
              && (guide[i].rules[j] == Brand(rec.rt) || (guide[i].rules[j].Shared? && guide[i].rules[j].id in rec.ids))
  {
    FileHitExists(guide, rec, false, path);
    assert forall r: SplitRule :: Hits(r, rec, false) <==> r == Brand(rec.rt) || (r.Shared? && r.id in rec.ids);
  }

  // ---------------------------------------------------------------- the guide is an unordered map

  lemma {:induction false} HitsAppend(a: Guide, b: Guide, rec: Rec, exclusive: bool, path: string)
    ensures FileHits(a + b, rec, exclusive, path) ==
            FileHits(a, rec, exclusive, path) + FileHits(b, rec, exclusive, path)
    ensures TotalHits(a + b, rec, exclusive) == TotalHits(a, rec, exclusive) + TotalHits(b, rec, exclusive)
    decreases |b|
  {
    if b == [] {
      assert a + b == a;
    } else {
      assert Init(a + b) == a + Init(b) && Last(a + b) == Last(b);
      HitsAppend(a, Init(b), rec, exclusive, path);
    }
  }

  lemma {:induction false} HitsPermute(a: Guide, b: Guide, rec: Rec, exclusive: bool, path: string)
    requires multiset(a) == multiset(b)
    ensures FileHits(a, rec, exclusive, path) == FileHits(b, rec, exclusive, path)
    ensures TotalHits(a, rec, exclusive) == TotalHits(b, rec, exclusive)
  {
    if a == [] {
      assert |multiset(b)| == 0;
    } else {
      var e := Last(a);
      assert a == Init(a) + [e];
      assert e in multiset(b);
      var i :| 0 <= i < |b| && b[i] == e;
      var front, back := b[..i], b[i + 1..];
      assert b == front + ([e] + back);
      assert multiset(front + back) == multiset(b) - multiset{e};
      HitsPermute(Init(a), front + back, rec, exclusive, path);
      HitsAppend(front, back, rec, exclusive, path);
      HitsAppend(front, [e] + back, rec, exclusive, path);
      HitsAppend([e], back, rec, exclusive, path);
      HitsAppend(Init(a), [e], rec, exclusive, path);
    }
  }

  /** The order in which the guide lists its headers changes no header's text. */
  lemma {:induction false} GuideOrderIrrelevant(a: Guide, b: Guide, recs: seq<Rec>, path: string)
    requires multiset(a) == multiset(b)
    ensures Body(a, recs, path) == Body(b, recs, path)
  {
    if recs != [] {
      GuideOrderIrrelevant(a, b, Init(recs), path);
      HitsPermute(a, b, Last(recs), true, path);
      HitsPermute(a, b, Last(recs), false, path);
    }
  }

  // ---------------------------------------------------------------- what a header says

  function Repeat<T>(x: T, n: nat): (s: seq<T>)
    ensures |s| == n && forall i | 0 <= i < n :: s[i] == x
  {
    seq(n, i => x)
  }

  /** The text of a record. */
  function Print(rec: Rec): string {
    PrintTokens(PrintOrder(rec.tokens))
  }

  /** Everything written to one header after its banner. */
  function Body(guide: Guide, recs: seq<Rec>, path: string): string {
    if recs == [] then ""
    else Body(guide, Init(recs), path) + Concat(Repeat(Print(Last(recs)), Multiplicity(guide, Last(recs), path)))
  }

  /** The printed token runs that reach one header. */
  function RoutedRuns(guide: Guide, recs: seq<Rec>, path: string): seq<seq<Token>> {
    if recs == [] then []
    else RoutedRuns(guide, Init(recs), path)
         + Repeat(PrintOrder(Last(recs).tokens), Multiplicity(guide, Last(recs), path))
  }

  lemma {:induction false} PrintAppend(a: seq<Token>, b: seq<Token>)
    ensures PrintTokens(a + b) == PrintTokens(a) + PrintTokens(b)
  {
    if a == [] {
      assert a + b == b;
    } else {
      assert (a + b)[1..] == a[1..] + b;
      PrintAppend(a[1..], b);
      LineAssoc(a[0].span, PrintTokens(a[1..]), PrintTokens(b));
    }
  }

  lemma LineAssoc(span: string, x: string, y: string)
    ensures Line(span, x + y) == Line(span, x) + y
  {
  }

  lemma FlattenSnoc<T>(runs: seq<seq<T>>, run: seq<T>)
    ensures Flatten(runs + [run]) == Flatten(runs) + run
  {
    assert Init(runs + [run]) == runs;
  }

  lemma {:induction false} FlattenAppend<T>(a: seq<seq<T>>, b: seq<seq<T>>)
    ensures Flatten(a + b) == Flatten(a) + Flatten(b)
    decreases |b|
  {
    if b == [] {
      assert a + b == a;
    } else {
      assert Init(a + b) == a + Init(b) && Last(a + b) == Last(b);
      FlattenAppend(a, Init(b));
      assert (Flatten(a) + Flatten(Init(b))) + Last(b) == Flatten(a) + (Flatten(Init(b)) + Last(b));
    }
  }

  lemma {:induction false} PrintCopies(run: seq<Token>, n: nat)
    ensures Concat(Repeat(PrintTokens(run), n)) == PrintTokens(Flatten(Repeat(run, n)))
  {
    if n == 0 {
      assert Repeat(run, 0) == [] && Repeat(PrintTokens(run), 0) == [];
    } else {
      PrintCopies(run, n - 1);
      assert Repeat(run, n) == Repeat(run, n - 1) + [run];
      assert Repeat(PrintTokens(run), n) == Repeat(PrintTokens(run), n - 1) + [PrintTokens(run)];
      FlattenSnoc(Repeat(run, n - 1), run);
      ConcatAppend(Repeat(PrintTokens(run), n - 1), [PrintTokens(run)]);
      PrintAppend(Flatten(Repeat(run, n - 1)), run);
      ConcatOne(PrintTokens(run));
    }
  }

  lemma ConcatOne(s: string)
    ensures Concat([s]) == s
  {
    assert [s][1..] == [];
  }

  /** The text of a header is the printed text of the runs routed to it. */
  lemma {:induction false} BodyPrints(guide: Guide, recs: seq<Rec>, path: string)
    ensures Body(guide, recs, path) == PrintTokens(Flatten(RoutedRuns(guide, recs, path)))
  {
    if recs == [] {
    } else {
      BodyPrints(guide, Init(recs), path);
      var run := PrintOrder(Last(recs).tokens);
      var n := Multiplicity(guide, Last(recs), path);
      PrintCopies(run, n);
      FlattenAppend(RoutedRuns(guide, Init(recs), path), Repeat(run, n));
      PrintAppend(Flatten(RoutedRuns(guide, Init(recs), path)), Flatten(Repeat(run, n)));
    }
  }

  /** The placements a header should carry: each record's own, once per copy. */
  function RoutedPlacements(guide: Guide, recs: seq<Rec>, path: string): seq<Placement> {
    if recs == [] then []
    else RoutedPlacements(guide, Init(recs), path)
         + Flatten(Repeat(Placed(Last(recs).tokens), Multiplicity(guide, Last(recs), path)))
  }

  lemma {:induction false} PlacedRunsAppend(a: seq<seq<Token>>, b: seq<seq<Token>>)
    ensures PlacedRuns(a + b) == PlacedRuns(a) + PlacedRuns(b)
    decreases |b|
  {
    if b == [] {
      assert a + b == a;
    } else {
      assert Init(a + b) == a + Init(b) && Last(a + b) == Last(b);
      PlacedRunsAppend(a, Init(b));
      assert (PlacedRuns(a) + PlacedRuns(Init(b))) + Placed(Last(b)) ==
             PlacedRuns(a) + (PlacedRuns(Init(b)) + Placed(Last(b)));
    }
  }

  lemma {:induction false} PlacedCopies(run: seq<Token>, n: nat)
    ensures PlacedRuns(Repeat(run, n)) == Flatten(Repeat(Placed(run), n))
  {
    if n == 0 {
    } else {
      PlacedCopies(run, n - 1);
      assert Init(Repeat(run, n)) == Repeat(run, n - 1);
      assert Init(Repeat(Placed(run), n)) == Repeat(Placed(run), n - 1);
    }
  }

  lemma {:induction false} RoutedPlaced(guide: Guide, recs: seq<Rec>, path: string)
    ensures PlacedRuns(RoutedRuns(guide, recs, path)) == RoutedPlacements(guide, recs, path)
  {
    if recs == [] {
    } else {
      RoutedPlaced(guide, Init(recs), path);
      var ts := Last(recs).tokens;
      var n := Multiplicity(guide, Last(recs), path);
      PrintOrderCore(ts);
      SameCore(ts, PrintOrder(ts));
      PlacedCopies(PrintOrder(ts), n);
      PlacedRunsAppend(RoutedRuns(guide, Init(recs), path), Repeat(PrintOrder(ts), n));
    }
  }

  lemma {:induction false} RoutedBalanced(guide: Guide, recs: seq<Rec>, path: string)
    requires AllBalanced(Runs(recs))
    ensures AllBalanced(RoutedRuns(guide, recs, path))
  {
    if recs == [] {
    } else {
      assert forall i | 0 <= i < |recs| - 1 :: Runs(Init(recs))[i] == Runs(recs)[i];
      RoutedBalanced(guide, Init(recs), path);
      var ts := Last(recs).tokens;
      assert Runs(recs)[|recs| - 1] == ts;
      PrintOrderCore(ts);
      SameCore(ts, PrintOrder(ts));
    }
  }

  lemma {:induction false} RoutedPrintable(guide: Guide, recs: seq<Rec>, path: string)
    requires forall r, t | r in recs && t in r.tokens :: Genuine(t)
    ensures Printable(Flatten(RoutedRuns(guide, recs, path)))
  {
    if recs == [] {
    } else {
      RoutedPrintable(guide, Init(recs), path);
      var run := PrintOrder(Last(recs).tokens);
      var n := Multiplicity(guide, Last(recs), path);
      KeepMembers(Last(recs).tokens, IsComment);
      KeepMembers(Last(recs).tokens, IsCore);
      FlattenAppend(RoutedRuns(guide, Init(recs), path), Repeat(run, n));
      FlattenCopies(run, n);
    }
  }

  lemma {:induction false} FlattenCopies<T>(run: seq<T>, n: nat)
    ensures forall t | t in Flatten(Repeat(run, n)) :: t in run
  {
    if n > 0 {
      assert Init(Repeat(run, n)) == Repeat(run, n - 1);
      FlattenCopies(run, n - 1);
    }
  }

  // ---------------------------------------------------------------- copies, by rule positions

  /** What a rule asks for: an id by an exclusive rule, or a type or an id by the others. */
  predicate Asks(rule: SplitRule, rec: Rec, exclusive: bool) {
    if exclusive then rule.Exclusive? && rule.id in rec.ids
    else rule == Brand(rec.rt) || (rule.Shared? && rule.id in rec.ids)
  }

  function AskersAt(n: nat, rules: seq<SplitRule>, rec: Rec, exclusive: bool): set<(nat, nat)> {
    set j: nat | j < |rules| && Asks(rules[j], rec, exclusive) :: (n, j)
  }

  /** The rules of one header that ask for the record, by the positions of the header and of the rule. */
  function Askers(guide: Guide, rec: Rec, exclusive: bool, path: string): set<(nat, nat)> {
    set i: nat, j: nat | i < |guide| && j < |guide[i].rules| && guide[i].path == path &&
                         Asks(guide[i].rules[j], rec, exclusive) :: (i, j)
  }

  lemma AskersAtSnoc(n: nat, rules: seq<SplitRule>, rec: Rec, exclusive: bool)
    requires rules != []
    ensures var k, front := |rules| - 1, AskersAt(n, Init(rules), rec, exclusive);
            (n, k) !in front &&
            AskersAt(n, rules, rec, exclusive) == front + if Asks(rules[k], rec, exclusive) then {(n, k)} else {}
  {
  }

  lemma {:induction false} CountAskersAt(n: nat, rules: seq<SplitRule>, rec: Rec, exclusive: bool)
    ensures |AskersAt(n, rules, rec, exclusive)| == CountHits(rules, rec, exclusive)
  {
    if rules == [] {
      assert AskersAt(n, rules, rec, exclusive) == {};
    } else {
      CountAskersAt(n, Init(rules), rec, exclusive);
      AskersAtSnoc(n, rules, rec, exclusive);
    }
  }

  lemma AskersSplit(guide: Guide, rec: Rec, exclusive: bool, path: string)
    requires guide != []
    ensures var n := |guide| - 1;
            var front, row := Askers(Init(guide), rec, exclusive, path), AskersAt(n, guide[n].rules, rec, exclusive);
            front !! row && Askers(guide, rec, exclusive, path) == front + if guide[n].path == path then row else {}
  {
    assert forall i | 0 <= i < |guide| - 1 :: Init(guide)[i] == guide[i];
  }

  lemma {:induction false} CountAskers(guide: Guide, rec: Rec, exclusive: bool, path: string)
    ensures |Askers(guide, rec, exclusive, path)| == FileHits(guide, rec, exclusive, path)
  {
    if guide == [] {
      assert Askers(guide, rec, exclusive, path) == {};
    } else {
      CountAskers(Init(guide), rec, exclusive, path);
      AskersSplit(guide, rec, exclusive, path);
      CountAskersAt(|guide| - 1, Last(guide).rules, rec, exclusive);
    }
  }

  /** Some exclusive rule of some header asks for the record. */
  predicate AskedExclusively(guide: Guide, rec: Rec) {
    exists i, j | 0 <= i < |guide| && 0 <= j < |guide[i].rules| :: Asks(guide[i].rules[j], rec, true)
  }

  lemma {:induction false} TotalHitExists(guide: Guide, rec: Rec, exclusive: bool)
    ensures TotalHits(guide, rec, exclusive) > 0 <==>
            exists i, j | 0 <= i < |guide| && 0 <= j < |guide[i].rules| :: Asks(guide[i].rules[j], rec, exclusive)
  {
    if guide != [] {
      var front, e := Init(guide), Last(guide);
      TotalHitExists(front, rec, exclusive);
      RuleHitExists(e.rules, rec, exclusive);
      assert forall i | 0 <= i < |front| :: front[i] == guide[i];
      if TotalHits(front, rec, exclusive) > 0 {
        var i, j :| 0 <= i < |front| && 0 <= j < |front[i].rules| && Asks(front[i].rules[j], rec, exclusive);
        assert Asks(guide[i].rules[j], rec, exclusive);
      } else if CountHits(e.rules, rec, exclusive) > 0 {
        var j :| 0 <= j < |e.rules| && Hits(e.rules[j], rec, exclusive);
        assert Asks(guide[|front|].rules[j], rec, exclusive);
      }
    }
  }

  /** A header receives a record once for every rule of its own that asks for it in the class that counts. */
  lemma CopiesCounted(guide: Guide, rec: Rec, path: string)
    ensures Multiplicity(guide, rec, path) == |Askers(guide, rec, AskedExclusively(guide, rec), path)|
  {
    TotalHitExists(guide, rec, true);
    CountAskers(guide, rec, AskedExclusively(guide, rec), path);
  }

  /** A record is routed exactly if some header receives it. */
  lemma RoutedMeaning(guide: Guide, rec: Rec)
    ensures Routed(guide, rec) <==> exists path :: Multiplicity(guide, rec, path) > 0
  {
    if Routed(guide, rec) {
      var path := RoutedReaches(guide, rec);
    }
    if path :| Multiplicity(guide, rec, path) > 0 {
      var exclusive := TotalHits(guide, rec, true) > 0;
      FileHitExists(guide, rec, exclusive, path);
      TotalHitExists(guide, rec, exclusive);
    }
  }

  /** A header that asks for a type receives every record of it that no exclusive rule asks for. */
  lemma BrandReceives(guide: Guide, rec: Rec, i: nat, j: nat)
    requires i < |guide| && j < |guide[i].rules| && guide[i].rules[j] == Brand(rec.rt)
    requires !AskedExclusively(guide, rec)
    ensures Multiplicity(guide, rec, guide[i].path) > 0
  {
    TotalHitExists(guide, rec, true);
    FileHitExists(guide, rec, false, guide[i].path);
    assert Hits(guide[i].rules[j], rec, false);
  }

  // ---------------------------------------------------------------- comments

  /** The comments a header should carry: each record's own, once per copy. */
  function RoutedComments(guide: Guide, recs: seq<Rec>, path: string): seq<Token> {
    if recs == [] then []
    else RoutedComments(guide, Init(recs), path)
         + Flatten(Repeat(Keep(Last(recs).tokens, IsComment), Multiplicity(guide, Last(recs), path)))
  }

  lemma {:induction false} CommentCopies(run: seq<Token>, n: nat)
    ensures Keep(Flatten(Repeat(run, n)), IsComment) == Flatten(Repeat(Keep(run, IsComment), n))
  {
    if n > 0 {
      CommentCopies(run, n - 1);
      assert Init(Repeat(run, n)) == Repeat(run, n - 1);
      assert Init(Repeat(Keep(run, IsComment), n)) == Repeat(Keep(run, IsComment), n - 1);
      KeepAppend(Flatten(Repeat(run, n - 1)), run, IsComment);
    }
  }

  /** Routing and printing keep all comments. */
  lemma {:induction false} RoutedKeepsComments(guide: Guide, recs: seq<Rec>, path: string)
    ensures Keep(Flatten(RoutedRuns(guide, recs, path)), IsComment) == RoutedComments(guide, recs, path)
  {
    if recs != [] {
      var front, ts := Init(recs), Last(recs).tokens;
      var n := Multiplicity(guide, Last(recs), path);
      RoutedKeepsComments(guide, front, path);
      CommentsFirst(ts);
      CommentCopies(PrintOrder(ts), n);
      FlattenAppend(RoutedRuns(guide, front, path), Repeat(PrintOrder(ts), n));
      KeepAppend(Flatten(RoutedRuns(guide, front, path)), Flatten(Repeat(PrintOrder(ts), n)), IsComment);
    }
  }

  // ---------------------------------------------------------------- in the order of the records

  /** The copies of each record in one header, record by record. */
  function RunBlocks(guide: Guide, recs: seq<Rec>, path: string): seq<seq<seq<Token>>> {
    seq(|recs|, i requires 0 <= i < |recs| => Repeat(PrintOrder(recs[i].tokens), Multiplicity(guide, recs[i], path)))
  }

  function PlacementBlocks(guide: Guide, recs: seq<Rec>, path: string): seq<seq<Placement>> {
    seq(|recs|, i requires 0 <= i < |recs| =>
          Flatten(Repeat(Placed(recs[i].tokens), Multiplicity(guide, recs[i], path))))
  }

  function CommentBlocks(guide: Guide, recs: seq<Rec>, path: string): seq<seq<Token>> {
    seq(|recs|, i requires 0 <= i < |recs| =>
          Flatten(Repeat(Keep(recs[i].tokens, IsComment), Multiplicity(guide, recs[i], path))))
  }

  /** What is routed to a header comes in the order of the records. */
  lemma {:induction false} RoutedInOrder(guide: Guide, recs: seq<Rec>, path: string)
    ensures RoutedRuns(guide, recs, path) == Flatten(RunBlocks(guide, recs, path))
    ensures RoutedPlacements(guide, recs, path) == Flatten(PlacementBlocks(guide, recs, path))
    ensures RoutedComments(guide, recs, path) == Flatten(CommentBlocks(guide, recs, path))
  {
    if recs != [] {
      RoutedInOrder(guide, Init(recs), path);
      BlocksInit(guide, recs, path);
    }
  }

  lemma BlocksInit(guide: Guide, recs: seq<Rec>, path: string)
    requires recs != []
    ensures Init(RunBlocks(guide, recs, path)) == RunBlocks(guide, Init(recs), path)
    ensures Init(PlacementBlocks(guide, recs, path)) == PlacementBlocks(guide, Init(recs), path)
    ensures Init(CommentBlocks(guide, recs, path)) == CommentBlocks(guide, Init(recs), path)
  {
  }
}
