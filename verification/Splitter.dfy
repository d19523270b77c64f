/**
 The splitter as the build script runs it: a tokenizer that eats its text, a record
 that collects tokens, and the loops that group, route and check.
 */
module Splitter {
  import opened Text
  import opened Lexer
  import opened Reprint
  import opened Records
  import opened Contexts
  import opened Router
  import opened Splitting

  // ---------------------------------------------------------------- recognisers with loops

  method ReadTypedef(s: string) returns (r: Scan)
    ensures r == ScanTypedef(s)
  {
    if !("typedef" <= s) { return Missing; }
    var len, accolades := 0, 0;
    var closed := false;
    while len < |s| && !closed
      invariant 0 <= len <= |s|
      invariant !closed ==> accolades == BraceDepth(s[..len]) && TypedefEnd(s, 0) == TypedefEnd(s, len)
      invariant closed ==> TypedefEnd(s, 0) == Some(len)
      decreases |s| - len, !closed
    {
      var c := s[len];
      assert s[..len + 1][..len] == s[..len];
      if c == '{' {
        accolades := accolades + 1;
      } else if c == '}' {
        accolades := accolades - 1;
      } else if c == ';' && accolades == 0 {
        closed := true;
      }
      len := len + 1;
    }
    assert TypedefSpan(s) == s[..len];
    r := TypedefToken(s[..len]);
  }

  method ReadWhitespace(s: string) returns (r: Scan)
    ensures r == ScanWhitespace(s)
  {
    var len := 0;
    while len < |s| && IsSpace(s[len])
      invariant 0 <= len <= |s|
      invariant SpaceEnd(s, 0) == SpaceEnd(s, len)
    {
      len := len + 1;
    }
    if len > 0 { r := Found(Token(Whitespace, "", s[..len])); } else { r := Missing; }
  }

  /** `Token::next`: the first recogniser that accepts. */
  method ReadToken(s: string) returns (r: Scan)
    ensures r == Next(s)
  {
    r := ReadWhitespace(s);
    if r == Missing { r := ScanComment(s); }
    if r == Missing { r := ScanEndif(s); }
    if r == Missing { r := ScanInclude(s); }
    if r == Missing { r := ScanDefine(s); }
    if r == Missing { r := ScanIf(s); }
    if r == Missing { r := ScanElse(s); }
    if r == Missing { r := ReadTypedef(s); }
    if r == Missing { r := ScanConst(s); }
    if r == Missing { r := ScanFunction(s); }
  }

  /** What pulling one item from the tokenizer gives. */
  datatype Pull = Pulled(token: Token) | End | Stuck

  class Tokenizer {
    var inner: string

    constructor (text: string)
      ensures inner == text
    {
      inner := text;
    }

    /** `Iterator::next`: the next token is cut off the front of the remaining text. */
    method Advance() returns (r: Pull)
      modifies this
      ensures r.End? <==> old(inner) == ""
      ensures r.Pulled? ==> r.token.span + inner == old(inner) && |inner| < |old(inner)|
      ensures r.Pulled? ==> Lex(old(inner)) == Lexed([r.token] + Lex(inner).tokens, Lex(inner).rest)
      ensures !r.Pulled? ==> inner == old(inner) && Lex(inner) == Lexed([], inner)
    {
      if inner == "" { return End; }
      var n := ReadToken(inner);
      if n.Found? {
        LexUnfold(inner, n.token);
        inner := inner[|n.token.span|..];
        return Pulled(n.token);
      }
      return Stuck;
    }
  }

  // ---------------------------------------------------------------- records

  class Record {
    var used: bool
    var rt: RecordType
    var nesting: int
    var ids: seq<string>
    var tokens: seq<Token>

    function View(): Rec
      reads this
    {
      Rec(rt, nesting, ids, tokens)
    }

    constructor ()
      ensures View() == FRESH && !used
    {
      used, rt, nesting, ids, tokens := false, Empty, 0, [], [];
    }

    method PushToken(t: Token)
      modifies this`tokens
      ensures tokens == old(tokens) + [t]
    {
      tokens := tokens + [t];
    }

    method PushRecordTypeToken(t: Token, kind: RecordType)
      modifies this`rt, this`ids, this`tokens
      ensures rt == Update(old(rt), kind)
      ensures ids == if t.id == "" then old(ids) else old(ids) + [t.id]
      ensures tokens == old(tokens) + [t]
    {
      rt := match rt case Empty => kind case _ => Multiple;
      if t.id != "" { ids := ids + [t.id]; }
      PushToken(t);
    }

    /** `add_token`: the record stays in step with its tokens, or the `#endif` is refused. */
    method Add(t: Token) returns (ok: bool)
      modifies this
      ensures used == old(used)
      ensures ok <==> AddToken(old(View()), t).Some?
      ensures ok ==> AddToken(old(View()), t) == Some(View())
    {
      ok := true;
      match t.tt
      case Comment => PushToken(t);
      case Typedef => PushRecordTypeToken(t, RecordType.Typedef);
      case Function => PushRecordTypeToken(t, RecordType.Function);
      case Const => PushRecordTypeToken(t, RecordType.Const);
      case PrivateToken => PushRecordTypeToken(t, RecordType.PrivateToken);
      case PreprDefine => PushRecordTypeToken(t, RecordType.PreprDefine);
      case PreprInclude => PushRecordTypeToken(t, RecordType.PreprInclude);
      case PreprIf => PushPreprIf(t);
      case PreprElse => PushToken(t);
      case PreprEndif => ok := PushPreprEndif(t);
      case Whitespace => PushToken(t);
    }

    method PushPreprIf(t: Token)
      modifies this`nesting, this`tokens
      ensures nesting == old(nesting) + 1 && tokens == old(tokens) + [t]
    {
      nesting := nesting + 1;
      PushToken(t);
    }

    /** An `#endif` with nothing open is refused. */
    method PushPreprEndif(t: Token) returns (ok: bool)
      modifies this`nesting, this`tokens
      ensures ok <==> old(nesting) > 0
      ensures nesting == old(nesting) - 1 && tokens == if ok then old(tokens) + [t] else old(tokens)
    {
      nesting := nesting - 1;
      if nesting < 0 { return false; }
      PushToken(t);
      return true;
    }

    method MarkUsed()
      modifies this`used
      ensures used
    {
      used := true;
    }
  }

  /** The heap records are distinct objects that show these values. */
  ghost predicate Shows(records: seq<Record>, recs: seq<Rec>)
    reads records
  {
    && |records| == |recs|
    && (forall i | 0 <= i < |records| :: records[i].View() == recs[i])
    && (forall i, j | 0 <= i < j < |records| :: records[i] != records[j])
  }

  lemma {:induction false} UnmatchedStays(a: seq<Token>, b: seq<Token>)
    requires Group(a).Unmatched?
    ensures Group(a + b).Unmatched?
    decreases |b|
  {
    if b == [] {
      assert a + b == a;
    } else {
      assert Init(a + b) == a + Init(b);
      UnmatchedStays(a, Init(b));
    }
  }

  /** The collected records and the one being collected show where grouping has got to. */
  ghost predicate Collecting(seen: seq<Token>, records: seq<Record>, collect: Record)
    reads records, collect
  {
    && Group(seen).Grouped? && Group(seen).open == collect.View()
    && Shows(records, Group(seen).done)
    && (forall i | 0 <= i < |records| :: records[i] != collect && !records[i].used)
    && !collect.used
  }

  /** One round of the grouping loop. */
  method Collect(ghost seen: seq<Token>, records: seq<Record>, collect: Record, t: Token)
    returns (ok: bool, records': seq<Record>, collect': Record)
    requires Collecting(seen, records, collect)
    modifies collect
    ensures ok <==> Group(seen + [t]).Grouped?
    ensures ok ==> Collecting(seen + [t], records', collect')
    ensures collect' == collect || fresh(collect')
    ensures records' == records || records' == records + [collect]
  {
    assert Init(seen + [t]) == seen;
    records', collect' := records, collect;
    ok := collect.Add(t);
    if ok && collect.nesting == 0 && collect.rt != Empty {
      records' := records + [collect];
      collect' := new Record();
    }
  }

  datatype GroupEnd = Complete | BadEndif | BadText

  /** What has been read and what is still to be read make up the whole stream. */
  ghost predicate Ahead(all: Lexed, seen: seq<Token>, inner: string) {
    all == Lexed(seen + Lex(inner).tokens, Lex(inner).rest)
  }

  lemma Shift(all: Lexed, seen: seq<Token>, t: Token, before: string, inner: string)
    requires Ahead(all, seen, before) && Lex(before) == Lexed([t] + Lex(inner).tokens, Lex(inner).rest)
    ensures Ahead(all, seen + [t], inner)
  {
    assert seen + ([t] + Lex(inner).tokens) == (seen + [t]) + Lex(inner).tokens;
  }

  datatype Round = More | NoMore | Refused

  /** One round of the grouping loop: pull a token and collect it. */
  method PullOne(stream: Tokenizer, ghost all: Lexed, ghost seen: seq<Token>, records: seq<Record>, collect: Record)
    returns (round: Round, ghost seen': seq<Token>, records': seq<Record>, collect': Record)
    requires Ahead(all, seen, stream.inner) && Collecting(seen, records, collect)
    modifies stream, collect
    ensures round.More? ==> Ahead(all, seen', stream.inner) && |stream.inner| < |old(stream.inner)|
    ensures round.NoMore? ==> all == Lexed(seen', stream.inner)
    ensures round.Refused? ==> Group(all.tokens).Unmatched?
    ensures !round.Refused? ==> Collecting(seen', records', collect')
    ensures collect' == collect || fresh(collect')
    ensures records' == records || records' == records + [collect]
  {
    seen', records', collect' := seen, records, collect;
    var pulled := stream.Advance();
    if !pulled.Pulled? { return NoMore, seen', records', collect'; }
    Shift(all, seen, pulled.token, old(stream.inner), stream.inner);
    seen' := seen + [pulled.token];
    var ok;
    ok, records', collect' := Collect(seen, records, collect, pulled.token);
    if ok { return More, seen', records', collect'; }
    UnmatchedStays(seen', Lex(stream.inner).tokens);
    return Refused, seen', records', collect';
  }

  /** The grouping loop: pull tokens until the text ends, is unreadable, or an `#endif` is refused. */
  method Drain(stream: Tokenizer) returns (ok: bool, ghost seen: seq<Token>, records: seq<Record>, collect: Record)
    modifies stream
    ensures !ok ==> Group(Lex(old(stream.inner)).tokens).Unmatched?
    ensures ok ==> Lex(old(stream.inner)) == Lexed(seen, stream.inner) && Collecting(seen, records, collect)
    ensures fresh(collect) && forall i | 0 <= i < |records| :: fresh(records[i])
  {
    records, seen := [], [];
    collect := new Record();
    ghost var mine := {collect};
    ghost var all := Lex(stream.inner);
    var round := More;
    while round.More?
      invariant round.More? ==> Ahead(all, seen, stream.inner)
      invariant round.NoMore? ==> all == Lexed(seen, stream.inner)
      invariant round.Refused? ==> Group(all.tokens).Unmatched?
      invariant !round.Refused? ==> Collecting(seen, records, collect)
      invariant fresh(mine) && collect in mine && forall i | 0 <= i < |records| :: records[i] in mine
      decreases round.More?, |stream.inner|
    {
      round, seen, records, collect := PullOne(stream, all, seen, records, collect);
      mine := mine + {collect};
    }
    ok := round.NoMore?;
  }

  /** `group_tokens`: tokens are pulled one at a time; the last record is kept whatever it holds. */
  method GroupTokens(stream: Tokenizer) returns (end: GroupEnd, records: seq<Record>)
    modifies stream
    ensures var g := Group(Lex(old(stream.inner)).tokens);
            && (end.BadEndif? <==> g.Unmatched?)
            && (end.BadText? <==> g.Grouped? && Lex(old(stream.inner)).rest != "")
            && (end.Complete? ==> Shows(records, RecordsOf(g)))
    ensures forall i | 0 <= i < |records| :: fresh(records[i]) && !records[i].used
  {
    var ok, seen, closed, collect := Drain(stream);
    if !ok { return BadEndif, []; }
    if stream.inner != "" { return BadText, []; }
    return Complete, closed + [collect];
  }

  // ---------------------------------------------------------------- routing

  lemma CountsSnoc(files: seq<string>, f: string, p: string)
    ensures multiset(files + [f])[p] == multiset(files)[p] + if f == p then 1 else 0
  {
  }

  /** `files` lists every header once per matching rule of one class. */
  ghost predicate Lists(files: seq<string>, guide: Guide, rec: Rec, exclusive: bool) {
    && |files| == TotalHits(guide, rec, exclusive)
    && forall p :: multiset(files)[p] == FileHits(guide, rec, exclusive, p)
  }

  /** As above, part of the way through the rules of one more entry. */
  ghost predicate ListsPartly(files: seq<string>, guide: Guide, path: string, rules: seq<SplitRule>, rec: Rec,
                              exclusive: bool) {
    && |files| == TotalHits(guide, rec, exclusive) + CountHits(rules, rec, exclusive)
    && forall p :: multiset(files)[p] ==
                   FileHits(guide, rec, exclusive, p) + if p == path then CountHits(rules, rec, exclusive) else 0
  }

  lemma ListRule(files: seq<string>, guide: Guide, e: Entry, j: nat, rec: Rec, exclusive: bool)
    requires j < |e.rules| && ListsPartly(files, guide, e.path, e.rules[..j], rec, exclusive)
    ensures var files' := if Hits(e.rules[j], rec, exclusive) then files + [e.path] else files;
            ListsPartly(files', guide, e.path, e.rules[..j + 1], rec, exclusive)
  {
    assert Init(e.rules[..j + 1]) == e.rules[..j];
    forall p ensures multiset(files + [e.path])[p] == multiset(files)[p] + if e.path == p then 1 else 0 {
      CountsSnoc(files, e.path, p);
    }
  }

  lemma ListEntry(files: seq<string>, guide: Guide, i: nat, rec: Rec, exclusive: bool)
    requires i < |guide| && ListsPartly(files, guide[..i], guide[i].path, guide[i].rules, rec, exclusive)
    ensures Lists(files, guide[..i + 1], rec, exclusive)
  {
    assert Init(guide[..i + 1]) == guide[..i];
  }

  /** `appropriate_files`: each header as often as the guide's winning rules ask. */
  method AppropriateFiles(guide: Guide, rec: Rec) returns (files: seq<string>)
    ensures forall p :: multiset(files)[p] == Multiplicity(guide, rec, p)
    ensures files != [] <==> Routed(guide, rec)
  {
    var shared: seq<string>, exclusives: seq<string> := [], [];
    for i := 0 to |guide|
      invariant Lists(shared, guide[..i], rec, false) && Lists(exclusives, guide[..i], rec, true)
    {
      var e := guide[i];
      for j := 0 to |e.rules|
        invariant ListsPartly(shared, guide[..i], e.path, e.rules[..j], rec, false)
        invariant ListsPartly(exclusives, guide[..i], e.path, e.rules[..j], rec, true)
      {
        ListRule(shared, guide[..i], e, j, rec, false);
        ListRule(exclusives, guide[..i], e, j, rec, true);
        match e.rules[j] {
          case Brand(rt) => if rt == rec.rt { shared := shared + [e.path]; }
          case Exclusive(id) => if id in rec.ids { exclusives := exclusives + [e.path]; }
          case Shared(id) => if id in rec.ids { shared := shared + [e.path]; }
        }
      }
      assert e.rules[..|e.rules|] == e.rules;
      ListEntry(shared, guide, i, rec, false);
      ListEntry(exclusives, guide, i, rec, true);
    }
    assert guide[..|guide|] == guide;
    files := if exclusives == [] then shared else exclusives;
  }

  // ---------------------------------------------------------------- the whole pass

  /** Every header holds the text of the first records, as often as the guide asks. */
  ghost predicate Written(bodies: map<string, string>, guide: Guide, recs: seq<Rec>) {
    && (forall p :: p in bodies <==> Paths(guide, p))
    && (forall p | p in bodies :: bodies[p] == Body(guide, recs, p))
  }

  method EmptyBodies(guide: Guide) returns (bodies: map<string, string>)
    ensures Written(bodies, guide, [])
  {
    bodies := map[];
    for i := 0 to |guide|
      invariant forall p :: p in bodies <==> exists k :: 0 <= k < i && guide[k].path == p
      invariant forall p | p in bodies :: bodies[p] == ""
    {
      bodies := bodies[guide[i].path := ""];
    }
  }

  lemma CopiesSnoc(s: string, n: nat)
    ensures Concat(Repeat(s, n + 1)) == Concat(Repeat(s, n)) + s
  {
    assert Repeat(s, n + 1) == Repeat(s, n) + [s];
    ConcatAppend(Repeat(s, n), [s]);
    ConcatOne(s);
  }

  lemma ListedPath(guide: Guide, rec: Rec, p: string)
    requires Multiplicity(guide, rec, p) > 0
    ensures Paths(guide, p)
  {
    FileHitExists(guide, rec, TotalHits(guide, rec, true) > 0, p);
  }

  /** Part of one record's copies have been written. */
  ghost predicate WrittenPartly(bodies: map<string, string>, guide: Guide, recs: seq<Rec>, text: string,
                                files: seq<string>)
  {
    && (forall p :: p in bodies <==> Paths(guide, p))
    && (forall p | p in bodies :: bodies[p] == Body(guide, recs, p) + Concat(Repeat(text, multiset(files)[p])))
  }

  lemma OneMoreCopy(text: string, files: seq<string>, f: string, p: string)
    ensures Concat(Repeat(text, multiset(files + [f])[p])) ==
            Concat(Repeat(text, multiset(files)[p])) + if p == f then text else ""
  {
    CountsSnoc(files, f, p);
    if p == f { CopiesSnoc(text, multiset(files)[p]); }
  }

  lemma WriteOneAt(text: string, files: seq<string>, f: string, p: string, body: string, now: string)
    requires now == body + Concat(Repeat(text, multiset(files)[p]))
    ensures (if p == f then now + text else now) == body + Concat(Repeat(text, multiset(files + [f])[p]))
  {
    OneMoreCopy(text, files, f, p);
    assert p == f ==> now + text == body + (Concat(Repeat(text, multiset(files)[p])) + text);
    assert p != f ==> now == body + (Concat(Repeat(text, multiset(files)[p])) + "");
  }

  lemma WriteOne(bodies: map<string, string>, guide: Guide, recs: seq<Rec>, text: string, files: seq<string>, f: string)
    requires WrittenPartly(bodies, guide, recs, text, files) && f in bodies
    ensures WrittenPartly(bodies[f := bodies[f] + text], guide, recs, text, files + [f])
  {
    var bodies' := bodies[f := bodies[f] + text];
    assert bodies'.Keys == bodies.Keys;
    forall p | p in bodies'
      ensures bodies'[p] == Body(guide, recs, p) + Concat(Repeat(text, multiset(files + [f])[p]))
    {
      WriteOneAt(text, files, f, p, Body(guide, recs, p), bodies[p]);
    }
  }

  lemma WriteStart(bodies: map<string, string>, guide: Guide, recs: seq<Rec>, text: string)
    requires Written(bodies, guide, recs)
    ensures WrittenPartly(bodies, guide, recs, text, [])
  {
    assert Repeat(text, 0) == [];
  }

  lemma WriteEnd(bodies: map<string, string>, guide: Guide, recs: seq<Rec>, rec: Rec, files: seq<string>)
    requires WrittenPartly(bodies, guide, recs, Print(rec), files)
    requires forall p :: multiset(files)[p] == Multiplicity(guide, rec, p)
    ensures Written(bodies, guide, recs + [rec])
  {
    assert Init(recs + [rec]) == recs;
  }

  /** Writes one record to every header the guide names for it. */
  method WriteRecord(guide: Guide, ghost done: seq<Rec>, record: Record, bodies: map<string, string>)
    returns (bodies': map<string, string>)
    requires Written(bodies, guide, done)
    modifies record
    ensures Written(bodies', guide, done + [old(record.View())])
    ensures record.View() == old(record.View())
    ensures record.used <==> old(record.used) || Routed(guide, record.View())
  {
    ghost var rec := record.View();
    var files := AppropriateFiles(guide, record.View());
    bodies' := WriteCopies(guide, done, Print(record.View()), rec, files, bodies);
    if files != [] { record.MarkUsed(); }
    WriteEnd(bodies', guide, done, rec, files);
  }

  method WriteCopies(guide: Guide, ghost done: seq<Rec>, text: string, ghost rec: Rec, files: seq<string>,
                     bodies: map<string, string>) returns (bodies': map<string, string>)
    requires Written(bodies, guide, done)
    requires forall p :: multiset(files)[p] == Multiplicity(guide, rec, p)
    ensures WrittenPartly(bodies', guide, done, text, files)
  {
    bodies' := bodies;
    WriteStart(bodies, guide, done, text);
    for k := 0 to |files|
      invariant WrittenPartly(bodies', guide, done, text, files[..k])
    {
      var f := files[k];
      assert f in multiset(files);
      ListedPath(guide, rec, f);
      WriteOne(bodies', guide, done, text, files[..k], f);
      assert files[..k + 1] == files[..k] + [f];
      bodies' := bodies'[f := bodies'[f] + text];
    }
    assert files[..|files|] == files;
  }

  /** `split_bindings`, from the text of the generated header to the bodies of the split ones. */
  method SplitBindings(guide: Guide, text: string) returns (verdict: Verdict, bodies: map<string, string>)
    ensures verdict == Outcome(guide, text)
    ensures verdict.Done? || verdict.UnusedRecord? ==>
              Written(bodies, guide, RecordsOf(Group(Lex(text).tokens)))
    ensures !verdict.Done? && !verdict.UnusedRecord? ==> Written(bodies, guide, [])
  {
    bodies := EmptyBodies(guide);
    var stream := new Tokenizer(text);
    var end, records := GroupTokens(stream);
    match end
    case BadEndif => return UnmatchedEndif, bodies;
    case BadText => return Panicked, bodies;
    case Complete =>
      verdict, bodies := Deliver(guide, records, RecordsOf(Group(Lex(text).tokens)), bodies);
  }

  /** The requested ids are checked first, then every record is written, then every record is checked. */
  method Deliver(guide: Guide, records: seq<Record>, ghost recs: seq<Rec>, empty: map<string, string>)
    returns (verdict: Verdict, bodies: map<string, string>)
    requires Shows(records, recs) && Written(empty, guide, [])
    requires forall i | 0 <= i < |records| :: !records[i].used
    modifies records
    ensures verdict == Judge(guide, recs)
    ensures Written(bodies, guide, if verdict.NotFound? then [] else recs)
  {
    bodies := empty;
    var missing := FindUndefined(RequestedIds(guide), records, recs);
    if missing.Some? { return NotFound(missing.value), bodies; }
    bodies := WriteAll(guide, records, recs, bodies);
    var unused := FindUnused(guide, records, recs);
    verdict := if unused.Some? then UnusedRecord(unused.value) else Done;
  }

  method FindUndefined(ids: seq<string>, records: seq<Record>, ghost recs: seq<Rec>) returns (missing: Option<string>)
    requires Shows(records, recs)
    ensures missing == FirstUndefined(ids, recs)
  {
    for i := 0 to |ids|
      invariant FirstUndefined(ids, recs) == FirstUndefined(ids[i..], recs)
    {
      assert ids[i..][1..] == ids[i + 1..];
      if !exists k | 0 <= k < |records| :: ids[i] in records[k].ids {
        assert forall k | 0 <= k < |recs| :: recs[k] == records[k].View();
        return Some(ids[i]);
      }
      var k :| 0 <= k < |records| && ids[i] in records[k].ids;
      assert recs[k] == records[k].View();
    }
    return None;
  }

  method WriteAll(guide: Guide, records: seq<Record>, ghost recs: seq<Rec>, empty: map<string, string>)
    returns (bodies: map<string, string>)
    requires Shows(records, recs) && Written(empty, guide, [])
    requires forall i | 0 <= i < |records| :: !records[i].used
    modifies records
    ensures Shows(records, recs) && Written(bodies, guide, recs)
    ensures forall i | 0 <= i < |records| :: records[i].used <==> Routed(guide, recs[i])
  {
    bodies := empty;
    for i := 0 to |records|
      invariant Shows(records, recs) && Written(bodies, guide, recs[..i])
      invariant forall k | 0 <= k < i :: records[k].used <==> Routed(guide, recs[k])
      invariant forall k | i <= k < |records| :: !records[k].used
    {
      bodies := WriteRecord(guide, recs[..i], records[i], bodies);
      assert recs[..i + 1] == recs[..i] + [recs[i]];
    }
    assert recs[..|recs|] == recs;
  }

  method FindUnused(guide: Guide, records: seq<Record>, ghost recs: seq<Rec>) returns (unused: Option<Rec>)
    requires Shows(records, recs)
    requires forall i | 0 <= i < |records| :: records[i].used <==> Routed(guide, recs[i])
    ensures unused == FirstUnused(guide, recs)
  {
    for i := 0 to |records|
      invariant FirstUnused(guide, recs) == FirstUnused(guide, recs[i..])
    {
      var r := records[i];
      assert recs[i] == r.View();
      assert recs[i..][1..] == recs[i + 1..];
      if !(r.used || r.rt == Empty || r.rt == RecordType.PrivateToken) { return Some(r.View()); }
    }
    return None;
  }
}
