/**
 Subscriber and query handlers interleaved on one mutex. The steps are taking the mutex,
 searching a bin, emptying, linking or unlinking a node, cloning into it, starting a pass,
 visiting one node and releasing the mutex; handlers can be interleaved between any two.
 A handler in its critical section does not look at the mutex again; that nobody else
 is in there with it is a theorem.
 */
module StorageRuns {
  import opened Text
  import opened Keys
  import opened Tables

  datatype Op = PutOp(sample: Sample) | DeleteOp(key: Key)

  function KeyOf(op: Op): Key {
    match op
    case PutOp(x) => x.key
    case DeleteOp(key) => key
  }

  /** A linked node; `None` while its sample is dropped or not yet cloned. */
  type Cell = Option<Sample>

  datatype Thread =
    | SubWaiting(op: Op)
    | SubHolding(op: Op)
    | SubFound(op: Op, bin: nat, index: nat)
    | SubMid(sample: Sample, bin: nat, index: nat)
    | SubLeaving(op: Op)
    | SubDone(op: Op)
    | QueryWaiting(query: Key)
    | QueryHolding(query: Key)
    | QueryScanning(query: Key, bin: nat, index: nat, replies: seq<Reply>)
    | QueryDone(query: Key, replies: seq<Reply>)
    | Crashed

  datatype State = State(lock: Option<nat>, cells: seq<seq<Cell>>, threads: map<nat, Thread>, log: seq<Op>)

  /** The bins and the intersection test every handler works with. */
  datatype Config = Config(bins: nat, place: Place, intersects: (Key, Key) -> bool)

  // ---------------------------------------------------------------- memory

  function FullBin(bin: Bin): seq<Cell> {
    seq(|bin|, i requires 0 <= i < |bin| => Some(bin[i]))
  }

  /** A table none of whose nodes is half written. */
  function Full(t: Table): seq<seq<Cell>> {
    seq(|t|, b requires 0 <= b < |t| => FullBin(t[b]))
  }

  /** A key, as far as memory shows one. */
  predicate HasKey(c: Cell, key: Key) {
    c.Some? && c.value.key == key
  }

  function CellPos(bin: seq<Cell>, key: Key): (k: nat)
    ensures k <= |bin|
    ensures forall j | 0 <= j < k :: !HasKey(bin[j], key)
    ensures k < |bin| ==> HasKey(bin[k], key)
  {
    if bin == [] then 0
    else
      var k := CellPos(Init(bin), key);
      if k < |bin| - 1 then k else if HasKey(Last(bin), key) then k else |bin|
  }

  /** The node at `k` is emptied, or an empty one is linked at the end of the bin. */
  function HollowBin(bin: seq<Cell>, k: nat): seq<Cell> {
    if k < |bin| then bin[k := None] else bin + [None]
  }

  /** The node at `k`, if there is one, is unlinked. */
  function UnlinkBin(bin: seq<Cell>, k: nat): seq<Cell> {
    if k < |bin| then Without(bin, k) else bin
  }

  /** The first nonempty bin from `b` on, or the number of bins. */
  function FirstBin(cells: seq<seq<Cell>>, b: nat): (c: nat)
    requires b <= |cells|
    ensures b <= c <= |cells| && (forall k | b <= k < c :: cells[k] == []) && (c < |cells| ==> cells[c] != [])
    decreases |cells| - b
  {
    if b < |cells| && cells[b] == [] then FirstBin(cells, b + 1) else b
  }

  // ---------------------------------------------------------------- steps

  predicate Critical(t: Thread) {
    t.SubHolding? || t.SubFound? || t.SubMid? || t.SubLeaving? || InQuery(t)
  }

  /** A query between taking and releasing the mutex. */
  predicate InQuery(t: Thread) {
    t.QueryHolding? || t.QueryScanning?
  }

  function Move(s: State, tid: nat, t: Thread): State {
    s.(threads := s.threads[tid := t])
  }

  /** The mutex is free and the handler takes it. */
  function Enter(s: State, tid: nat, t: Thread): State {
    Move(s, tid, t).(lock := Some(tid))
  }

  function Leave(s: State, tid: nat, t: Thread): State {
    Move(s, tid, t).(lock := None)
  }

  /** A subscriber walks its bin and remembers where the key was. */
  function SearchStep(c: Config, s: State, tid: nat, op: Op): State {
    var b := c.place(KeyOf(op));
    if b < |s.cells| then Move(s, tid, SubFound(op, b, CellPos(s.cells[b], KeyOf(op)))) else Move(s, tid, Crashed)
  }

  /** At the place it remembers, a subscriber empties, links or unlinks a node. */
  function WriteStep(s: State, tid: nat, op: Op, b: nat, k: nat): State {
    if b >= |s.cells| || k > |s.cells[b]| then Move(s, tid, Crashed)
    else
      match op
      case PutOp(x) => Move(s, tid, SubMid(x, b, k)).(cells := s.cells[b := HollowBin(s.cells[b], k)])
      case DeleteOp(_) =>
        Move(s, tid, SubLeaving(op)).(cells := s.cells[b := UnlinkBin(s.cells[b], k)], log := s.log + [op])
  }

  /** The clone is written into the node that was prepared for it. */
  function FillStep(s: State, tid: nat, x: Sample, b: nat, k: nat): State {
    if b < |s.cells| && k < |s.cells[b]| then
      Move(s, tid, SubLeaving(PutOp(x))).(cells := s.cells[b := s.cells[b][k := Some(x)]], log := s.log + [PutOp(x)])
    else Move(s, tid, Crashed)
  }

  /** A query reads one node and moves its iterator; reading an empty node is undefined behaviour. */
  function ScanStep(c: Config, s: State, tid: nat, query: Key, b: nat, k: nat, rs: seq<Reply>): State {
    if b >= |s.cells| then Leave(s, tid, QueryDone(query, rs))
    else if k >= |s.cells[b]| || s.cells[b][k].None? then Move(s, tid, Crashed)
    else
      var x := s.cells[b][k].value;
      var rs' := if c.intersects(query, x.key) then rs + [Reply(x.key, x.payload)] else rs;
      if k + 1 < |s.cells[b]| then Move(s, tid, QueryScanning(query, b, k + 1, rs'))
      else Move(s, tid, QueryScanning(query, FirstBin(s.cells, b + 1), 0, rs'))
  }

  /** What a handler that is running can do next. */
  function Act(c: Config, s: State, tid: nat): State
    requires tid in s.threads
  {
    match s.threads[tid]
    case SubWaiting(op) => if s.lock.None? then Enter(s, tid, SubHolding(op)) else s
    case SubHolding(op) => SearchStep(c, s, tid, op)
    case SubFound(op, b, k) => WriteStep(s, tid, op, b, k)
    case SubMid(x, b, k) => FillStep(s, tid, x, b, k)
    case SubLeaving(op) => Leave(s, tid, SubDone(op))
    case QueryWaiting(q) => if s.lock.None? then Enter(s, tid, QueryHolding(q)) else s
    case QueryHolding(q) => Move(s, tid, QueryScanning(q, FirstBin(s.cells, 0), 0, []))
    case QueryScanning(q, b, k, rs) => ScanStep(c, s, tid, q, b, k, rs)
    case SubDone(_) => s
    case QueryDone(_, _) => s
    case Crashed => s
  }

  /** A new sample or query arrives, or some handler takes a step. */
  ghost predicate Next(c: Config, s: State, s': State) {
    || (exists tid: nat, t: Thread | tid !in s.threads && (t.SubWaiting? || t.QueryWaiting?) :: s' == Move(s, tid, t))
    || (exists tid | tid in s.threads :: s' == Act(c, s, tid))
  }

  predicate Initial(c: Config, s: State) {
    s == State(None, seq(c.bins, _ => []), map[], [])
  }

  ghost predicate Sane(c: Config) {
    forall k: Key :: c.place(k) < c.bins
  }

  ghost predicate StepAt(c: Config, run: seq<State>, i: nat)
    requires i + 1 < |run|
  {
    Next(c, run[i], run[i + 1])
  }

  ghost predicate IsRun(c: Config, run: seq<State>) {
    && Sane(c) && run != [] && Initial(c, run[0])
    && forall i | 0 <= i < |run| - 1 :: StepAt(c, run, i)
  }

  // ---------------------------------------------------------------- what the log means

  /** The table after the logged operations, one after the other. */
  function Replay(c: Config, log: seq<Op>): (t: Table)
    ensures |t| == c.bins
  {
    if log == [] then seq(c.bins, _ => [])
    else
      var t := Replay(c, Init(log));
      match Last(log)
      case PutOp(x) => if c.place(x.key) < |t| then Put(t, x, c.place) else t
      case DeleteOp(key) => if c.place(key) < |t| then Delete(t, key, c.place) else t
  }

  /** The last writer of each key wins. */
  function LastWriter(log: seq<Op>): map<Key, Sample> {
    if log == [] then map[]
    else
      match Last(log)
      case PutOp(x) => LastWriter(Init(log))[x.key := x]
      case DeleteOp(key) => LastWriter(Init(log)) - {key}
  }

  lemma {:induction false} ReplayRefines(c: Config, log: seq<Op>)
    requires Sane(c)
    ensures WellFormed(Replay(c, log), c.place)
    ensures Contents(Replay(c, log), c.place) == LastWriter(log)
  {
    if log == [] {
      EmptyTable(Replay(c, log));
    } else {
      ReplayRefines(c, Init(log));
      var t := Replay(c, Init(log));
      match Last(log)
      case PutOp(x) =>
        PutWellFormed(t, x, c.place);
        PutContents(t, x, c.place);
      case DeleteOp(key) =>
        DeleteWellFormed(t, key, c.place);
        DeleteContents(t, key, c.place);
    }
  }

  // ---------------------------------------------------------------- memory and tables agree

  lemma FullPos(bin: Bin, key: Key)
    ensures CellPos(FullBin(bin), key) == Pos(bin, key)
  {
    var k, p := CellPos(FullBin(bin), key), Pos(bin, key);
    assert forall j | 0 <= j < |bin| :: FullBin(bin)[j] == Some(bin[j]);
  }

  /** Emptying a node and then filling it is a put. */
  lemma HollowThenFill(bin: Bin, x: Sample)
    ensures var k := Pos(bin, x.key);
            var hollow := HollowBin(FullBin(bin), k);
            k < |hollow| && hollow[k := Some(x)] == FullBin(PutBin(bin, x))
  {
  }

  lemma UnlinkDeletes(bin: Bin, key: Key)
    ensures UnlinkBin(FullBin(bin), Pos(bin, key)) == FullBin(DeleteBin(bin, key))
  {
  }

  /** Memory while a put to `x` is half done. */
  function Hollow(c: Config, t: Table, x: Sample): seq<seq<Cell>>
    requires c.place(x.key) < |t|
  {
    var b := c.place(x.key);
    Full(t)[b := HollowBin(FullBin(t[b]), Pos(t[b], x.key))]
  }

  lemma FillIsPut(c: Config, t: Table, x: Sample)
    requires c.place(x.key) < |t|
    ensures var b := c.place(x.key);
            var k := Pos(t[b], x.key);
            && k < |Hollow(c, t, x)[b]|
            && Hollow(c, t, x)[b := Hollow(c, t, x)[b][k := Some(x)]] == Full(Put(t, x, c.place))
  {
    HollowThenFill(t[c.place(x.key)], x);
  }

  lemma UnlinkIsDelete(c: Config, t: Table, key: Key)
    requires c.place(key) < |t|
    ensures var b := c.place(key);
            Full(t)[b := UnlinkBin(Full(t)[b], Pos(t[b], key))] == Full(Delete(t, key, c.place))
  {
    UnlinkDeletes(t[c.place(key)], key);
  }

  // ---------------------------------------------------------------- the invariant

  /** What a query has replied when its iterator stands at node `k` of bin `b`. */
  ghost predicate Scanned(c: Config, t: Table, query: Key, b: nat, k: nat, rs: seq<Reply>) {
    if b < |t| then k < |t[b]| && rs == Replies(Passed(t, b, k), query, c.intersects)
    else rs == Replies(Samples(t), query, c.intersects)
  }

  /** What holds of the handler in the critical section, given the table of the logged operations. */
  ghost predicate HolderOk(c: Config, s: State, t: Thread) {
    var base := Replay(c, s.log);
    match t
    case SubFound(op, b, k) =>
      s.cells == Full(base) && c.place(KeyOf(op)) == b < |base| && k == Pos(base[b], KeyOf(op))
    case SubMid(x, b, k) =>
      && c.place(x.key) == b < |base| && k == Pos(base[b], x.key)
      && s.cells == Hollow(c, base, x)
    case QueryScanning(q, b, k, rs) => s.cells == Full(base) && Scanned(c, base, q, b, k, rs)
    case _ => s.cells == Full(base)
  }

  /**
   Exactly the holder of the mutex is in its critical section; memory is the table of the
   logged operations except for the one node the holder is writing; nobody crashed.
   */
  ghost predicate Inv(c: Config, s: State) {
    && Sane(c)
    && (forall tid | tid in s.threads :: Critical(s.threads[tid]) <==> s.lock == Some(tid))
    && (forall tid | tid in s.threads :: !s.threads[tid].Crashed?)
    && (s.lock.Some? ==> s.lock.value in s.threads && HolderOk(c, s, s.threads[s.lock.value]))
    && (s.lock.None? ==> s.cells == Full(Replay(c, s.log)))
  }

  lemma InitialInv(c: Config, s: State)
    requires Sane(c) && Initial(c, s)
    ensures Inv(c, s)
  {
    assert Full(Replay(c, [])) == s.cells;
  }

  lemma ArriveInv(c: Config, s: State, tid: nat, t: Thread)
    requires Inv(c, s) && tid !in s.threads && (t.SubWaiting? || t.QueryWaiting?)
    ensures Inv(c, Move(s, tid, t))
  {
  }

  /** The empty prefix of a pass, at the first nonempty bin or the end. */
  lemma ScanStarts(c: Config, t: Table, query: Key)
    ensures Scanned(c, t, query, FirstBin(Full(t), 0), 0, [])
  {
    var b := FirstBin(Full(t), 0);
    assert forall k | 0 <= k < |t| :: |Full(t)[k]| == |t[k]|;
    SkipEmpty(t, 0, b);
    assert t[..|t|] == t;
  }

  /** One node read and answered moves the pass on by one sample. */
  lemma ScanMoves(c: Config, t: Table, query: Key, b: nat, k: nat, rs: seq<Reply>)
    requires b < |t| && Scanned(c, t, query, b, k, rs)
    ensures var x := t[b][k];
            var rs' := if c.intersects(query, x.key) then rs + [Reply(x.key, x.payload)] else rs;
            if k + 1 < |t[b]| then Scanned(c, t, query, b, k + 1, rs')
            else Scanned(c, t, query, FirstBin(Full(t), b + 1), 0, rs')
  {
    assert forall j | 0 <= j < |t| :: |Full(t)[j]| == |t[j]|;
    PassedMore(t, b, k);
    RepliesMore(Passed(t, b, k), t[b][k], query, c.intersects);
    if k + 1 == |t[b]| {
      PassedOver(t, b, FirstBin(Full(t), b + 1));
    }
  }

  lemma LockInv(c: Config, s: State, tid: nat)
    requires Inv(c, s) && tid in s.threads && (s.threads[tid].SubWaiting? || s.threads[tid].QueryWaiting?)
    ensures Inv(c, Act(c, s, tid))
  {
  }

  lemma BeginInv(c: Config, s: State, tid: nat)
    requires Inv(c, s) && tid in s.threads && s.threads[tid].QueryHolding?
    ensures Inv(c, Act(c, s, tid))
  {
    ScanStarts(c, Replay(c, s.log), s.threads[tid].query);
  }

  lemma SearchInv(c: Config, s: State, tid: nat)
    requires Inv(c, s) && tid in s.threads && s.threads[tid].SubHolding?
    ensures Inv(c, Act(c, s, tid))
  {
    var key := KeyOf(s.threads[tid].op);
    FullPos(Replay(c, s.log)[c.place(key)], key);
  }

  lemma PutStartsInv(c: Config, s: State, tid: nat)
    requires Inv(c, s) && tid in s.threads && s.threads[tid].SubFound? && s.threads[tid].op.PutOp?
    ensures Inv(c, Act(c, s, tid))
  {
    var base, b := Replay(c, s.log), s.threads[tid].bin;
    assert |Full(base)[b]| == |base[b]|;
  }

  lemma DeleteLogged(c: Config, log: seq<Op>, key: Key)
    requires Sane(c)
    ensures var b, t := c.place(key), Replay(c, log);
            && b < |t|
            && Full(t)[b := UnlinkBin(Full(t)[b], Pos(t[b], key))] == Full(Replay(c, log + [DeleteOp(key)]))
  {
    UnlinkIsDelete(c, Replay(c, log), key);
    ReplaySnoc(c, log, DeleteOp(key));
  }

  lemma DeleteInv(c: Config, s: State, tid: nat)
    requires Inv(c, s) && tid in s.threads && s.threads[tid].SubFound? && s.threads[tid].op.DeleteOp?
    ensures Inv(c, Act(c, s, tid))
  {
    DeleteLogged(c, s.log, s.threads[tid].op.key);
  }

  lemma WriteInv(c: Config, s: State, tid: nat)
    requires Inv(c, s) && tid in s.threads && s.threads[tid].SubFound?
    ensures Inv(c, Act(c, s, tid))
  {
    if s.threads[tid].op.PutOp? { PutStartsInv(c, s, tid); } else { DeleteInv(c, s, tid); }
  }

  lemma ReplaySnoc(c: Config, log: seq<Op>, op: Op)
    requires Sane(c)
    ensures Replay(c, log + [op]) ==
            match op
            case PutOp(x) => Put(Replay(c, log), x, c.place)
            case DeleteOp(key) => Delete(Replay(c, log), key, c.place)
  {
    assert Init(log + [op]) == log;
  }

  lemma SubMidInv(c: Config, s: State, tid: nat)
    requires Inv(c, s) && tid in s.threads && s.threads[tid].SubMid?
    ensures Inv(c, Act(c, s, tid))
  {
    var x := s.threads[tid].sample;
    FillIsPut(c, Replay(c, s.log), x);
    ReplaySnoc(c, s.log, PutOp(x));
  }

  lemma ScanInv(c: Config, s: State, tid: nat)
    requires Inv(c, s) && tid in s.threads && s.threads[tid].QueryScanning?
    ensures Inv(c, Act(c, s, tid))
  {
    var QueryScanning(q, b, k, rs) := s.threads[tid];
    var base := Replay(c, s.log);
    if b < |base| {
      ScanMoves(c, base, q, b, k, rs);
      assert s.cells[b][k] == Some(base[b][k]) && |s.cells[b]| == |base[b]|;
    }
  }

  lemma ActInv(c: Config, s: State, tid: nat)
    requires Inv(c, s) && tid in s.threads
    ensures Inv(c, Act(c, s, tid))
  {
    match s.threads[tid]
    case SubWaiting(_) => LockInv(c, s, tid);
    case QueryWaiting(_) => LockInv(c, s, tid);
    case SubHolding(_) => SearchInv(c, s, tid);
    case SubFound(_, _, _) => WriteInv(c, s, tid);
    case SubMid(_, _, _) => SubMidInv(c, s, tid);
    case QueryHolding(_) => BeginInv(c, s, tid);
    case QueryScanning(_, _, _, _) => ScanInv(c, s, tid);
    case _ =>
  }

  lemma NextInv(c: Config, s: State, s': State)
    requires Inv(c, s) && Next(c, s, s')
    ensures Inv(c, s')
  {
    if tid: nat, t: Thread :| tid !in s.threads && (t.SubWaiting? || t.QueryWaiting?) && s' == Move(s, tid, t) {
      ArriveInv(c, s, tid, t);
    } else {
      var tid :| tid in s.threads && s' == Act(c, s, tid);
      ActInv(c, s, tid);
    }
  }

  /** Every state of every run satisfies the invariant. */
  lemma {:induction false} RunInv(c: Config, run: seq<State>, k: nat)
    requires IsRun(c, run) && k < |run|
    ensures Inv(c, run[k])
  {
    if k == 0 {
      InitialInv(c, run[0]);
    } else {
      RunInv(c, run, k - 1);
      assert StepAt(c, run, k - 1);
      NextInv(c, run[k - 1], run[k]);
    }
  }

  /**
   Safety over whole runs, whatever the interleaving: no two handlers are in the critical
   section, none reads a node that is being written, and whenever the mutex is free the
   memory holds the last-writer-wins map of the operations done so far.
   */
  lemma RunsAreSafe(c: Config, run: seq<State>, k: nat)
    requires IsRun(c, run) && k < |run|
    ensures forall x, y | x in run[k].threads && y in run[k].threads && x != y ::
              !(Critical(run[k].threads[x]) && Critical(run[k].threads[y]))
    ensures forall x | x in run[k].threads :: !run[k].threads[x].Crashed?
    ensures run[k].lock.None? ==>
              && run[k].cells == Full(Replay(c, run[k].log)) && WellFormed(Replay(c, run[k].log), c.place)
              && Contents(Replay(c, run[k].log), c.place) == LastWriter(run[k].log)
  {
    RunInv(c, run, k);
    ReplayRefines(c, run[k].log);
  }

  /** A step changes the entry of the handler that takes it and no other. */
  lemma ActsAlone(c: Config, s: State, tid: nat)
    requires tid in s.threads
    ensures var s' := Act(c, s, tid);
            tid in s'.threads && s'.threads == s.threads[tid := s'.threads[tid]]
  {
    assert s.threads == s.threads[tid := s.threads[tid]];
  }

  /** Taking the mutex changes neither the log nor the memory. */
  lemma QueryEnters(c: Config, s: State, s': State, tid: nat, query: Key)
    requires Next(c, s, s') && tid in s.threads && s.threads[tid] == QueryWaiting(query)
    requires tid in s'.threads && InQuery(s'.threads[tid])
    ensures s'.log == s.log && s'.cells == s.cells && s'.threads[tid].query == query
  {
    if t: nat :| t in s.threads && s' == Act(c, s, t) {
      ActsAlone(c, s, t);
    }
  }

  /** What one step of the query that holds the mutex can do to it. */
  ghost predicate QueryMoved(c: Config, s: State, s': State, tid: nat)
    requires tid in s.threads && InQuery(s.threads[tid])
  {
    && s'.log == s.log && s'.cells == s.cells && tid in s'.threads
    && match s'.threads[tid]
       case QueryHolding(q) => q == s.threads[tid].query
       case QueryScanning(q, _, _, _) => q == s.threads[tid].query
       case QueryDone(q, rs) =>
         q == s.threads[tid].query && rs == Replies(Samples(Replay(c, s.log)), q, c.intersects)
       case _ => false
  }

  lemma OtherActs(c: Config, s: State, t: nat, tid: nat)
    requires Inv(c, s) && t in s.threads && tid in s.threads && t != tid && InQuery(s.threads[tid])
    ensures Act(c, s, t) == s
  {
    assert !Critical(s.threads[t]);
  }

  /** A pass that is at its end has replied to everything. */
  lemma ScanEnds(c: Config, s: State, tid: nat)
    requires Inv(c, s) && tid in s.threads && s.threads[tid].QueryScanning?
    ensures QueryMoved(c, s, Act(c, s, tid), tid)
  {
    ActInv(c, s, tid);
  }

  lemma OwnAct(c: Config, s: State, tid: nat)
    requires Inv(c, s) && tid in s.threads && InQuery(s.threads[tid])
    ensures QueryMoved(c, s, Act(c, s, tid), tid)
  {
    if s.threads[tid].QueryScanning? { ScanEnds(c, s, tid); }
  }

  /** While a query holds the mutex it only moves on or ends, and nothing else changes. */
  lemma QuerySteps(c: Config, s: State, s': State, tid: nat)
    requires Inv(c, s) && Next(c, s, s') && tid in s.threads && InQuery(s.threads[tid])
    ensures QueryMoved(c, s, s', tid)
  {
    if t: nat :| t in s.threads && s' == Act(c, s, t) {
      if t == tid { OwnAct(c, s, tid); } else { OtherActs(c, s, t, tid); }
    }
  }

  /** A query that took the mutex at step `i` and has held it up to step `k`. */
  ghost predicate Scanning(run: seq<State>, i: nat, k: nat, tid: nat, query: Key)
    requires i < k < |run|
  {
    && tid in run[i].threads && run[i].threads[tid] == QueryWaiting(query)
    && forall m | i < m <= k :: tid in run[m].threads && InQuery(run[m].threads[tid])
  }

  /** Log, memory and query are those of step `i`. */
  predicate SameView(s: State, first: State, tid: nat, query: Key) {
    && s.log == first.log && s.cells == first.cells
    && tid in s.threads && InQuery(s.threads[tid]) && s.threads[tid].query == query
  }

  lemma ViewSteps(c: Config, first: State, s: State, s': State, tid: nat, query: Key)
    requires Inv(c, s) && Next(c, s, s') && SameView(s, first, tid, query)
    requires tid in s'.threads && InQuery(s'.threads[tid])
    ensures SameView(s', first, tid, query)
  {
    QuerySteps(c, s, s', tid);
  }

  lemma ViewStepsAt(c: Config, run: seq<State>, first: State, k: nat, tid: nat, query: Key)
    requires IsRun(c, run) && k + 1 < |run| && SameView(run[k], first, tid, query)
    requires tid in run[k + 1].threads && InQuery(run[k + 1].threads[tid])
    ensures SameView(run[k + 1], first, tid, query)
  {
    RunInv(c, run, k);
    assert StepAt(c, run, k);
    ViewSteps(c, first, run[k], run[k + 1], tid, query);
  }

  lemma QueryEntersAt(c: Config, run: seq<State>, i: nat, tid: nat, query: Key)
    requires IsRun(c, run) && i + 1 < |run| && Scanning(run, i, i + 1, tid, query)
    ensures SameView(run[i + 1], run[i], tid, query)
  {
    assert StepAt(c, run, i);
    QueryEnters(c, run[i], run[i + 1], tid, query);
  }

  lemma {:induction false} SnapshotHeld(c: Config, run: seq<State>, i: nat, k: nat, tid: nat, query: Key)
    requires IsRun(c, run) && i < k < |run| && Scanning(run, i, k, tid, query)
    ensures SameView(run[k], run[i], tid, query)
    decreases k
  {
    if k - 1 == i {
      QueryEntersAt(c, run, i, tid, query);
    } else {
      SnapshotHeld(c, run, i, k - 1, tid, query);
      ViewStepsAt(c, run, run[i], k - 1, tid, query);
    }
  }

  lemma LastStep(c: Config, first: State, s: State, s': State, tid: nat, query: Key, replies: seq<Reply>)
    requires Inv(c, s) && Next(c, s, s') && SameView(s, first, tid, query)
    requires tid in s'.threads && s'.threads[tid] == QueryDone(query, replies)
    ensures s'.log == first.log && s'.cells == first.cells
    ensures Answers(replies, LastWriter(first.log), query, c.intersects)
  {
    QuerySteps(c, s, s', tid);
    ReplayRefines(c, first.log);
    PassAnswers(Replay(c, first.log), c.place, query, c.intersects);
  }

  lemma LastStepAt(c: Config, run: seq<State>, first: State, k: nat, tid: nat, query: Key, replies: seq<Reply>)
    requires IsRun(c, run) && k + 1 < |run| && SameView(run[k], first, tid, query)
    requires tid in run[k + 1].threads && run[k + 1].threads[tid] == QueryDone(query, replies)
    ensures run[k + 1].log == first.log && run[k + 1].cells == first.cells
    ensures Answers(replies, LastWriter(first.log), query, c.intersects)
  {
    RunInv(c, run, k);
    assert StepAt(c, run, k);
    LastStep(c, first, run[k], run[k + 1], tid, query, replies);
  }

  /**
   Snapshot semantics: for every interleaving, the replies of a query are exactly the
   entries that intersect it in the one map that held when it took the mutex, each
   replied once; nothing changes until it is done.
   */
  lemma QuerySnapshot(c: Config, run: seq<State>, i: nat, j: nat, tid: nat, query: Key, replies: seq<Reply>)
    requires IsRun(c, run) && i + 1 < j < |run| && Scanning(run, i, j - 1, tid, query)
    requires tid in run[j].threads && run[j].threads[tid] == QueryDone(query, replies)
    ensures forall k | i < k <= j :: run[k].log == run[i].log && run[k].cells == run[i].cells
    ensures Answers(replies, LastWriter(run[i].log), query, c.intersects)
  {
    forall k | i < k < j ensures SameView(run[k], run[i], tid, query) {
      SnapshotHeld(c, run, i, k, tid, query);
    }
    LastStepAt(c, run, run[i], j - 1, tid, query, replies);
  }

  /** A query that holds the mutex held it before, or took it in this step when it was free. */
  lemma QueryHeldBefore(c: Config, s: State, s': State, tid: nat)
    requires Next(c, s, s') && tid in s'.threads && InQuery(s'.threads[tid])
    ensures tid in s.threads
    ensures InQuery(s.threads[tid]) || (s.threads[tid] == QueryWaiting(s'.threads[tid].query) && s.lock.None?)
  {
    if t: nat :| t in s.threads && s' == Act(c, s, t) {
      ActsAlone(c, s, t);
    }
  }

  lemma DoneByAct(c: Config, s: State, tid: nat)
    requires tid in s.threads && Act(c, s, tid).threads[tid].QueryDone?
    ensures s.threads[tid] == Act(c, s, tid).threads[tid] ||
            (InQuery(s.threads[tid]) && s.threads[tid].query == Act(c, s, tid).threads[tid].query)
  {
  }

  /** A query that is done was done before, or held the mutex before. */
  lemma QueryDoneBefore(c: Config, s: State, s': State, tid: nat)
    requires Next(c, s, s') && tid in s'.threads && s'.threads[tid].QueryDone?
    ensures tid in s.threads
    ensures s.threads[tid] == s'.threads[tid] ||
            (InQuery(s.threads[tid]) && s.threads[tid].query == s'.threads[tid].query)
  {
    if t: nat :| t in s.threads && s' == Act(c, s, t) {
      ActsAlone(c, s, t);
      if t == tid { DoneByAct(c, s, tid); }
    }
  }

  /** Wherever a query holds the mutex, there is the step at which it took it. */
  lemma {:induction false} QueryEntered(c: Config, run: seq<State>, k: nat, tid: nat) returns (i: nat, query: Key)
    requires IsRun(c, run) && k < |run| && tid in run[k].threads && InQuery(run[k].threads[tid])
    ensures i < k && Scanning(run, i, k, tid, query) && run[i].lock.None?
    decreases k
  {
    assert k > 0;
    assert StepAt(c, run, k - 1);
    QueryHeldBefore(c, run[k - 1], run[k], tid);
    if InQuery(run[k - 1].threads[tid]) {
      i, query := QueryEntered(c, run, k - 1, tid);
    } else {
      i, query := k - 1, run[k].threads[tid].query;
    }
  }

  /** Wherever a query is done, there is the step at which it finished. */
  lemma {:induction false} QueryFinished(c: Config, run: seq<State>, j: nat, tid: nat) returns (k: nat)
    requires IsRun(c, run) && j < |run| && tid in run[j].threads && run[j].threads[tid].QueryDone?
    ensures 0 < k <= j && tid in run[k].threads && run[k].threads[tid] == run[j].threads[tid]
    ensures tid in run[k - 1].threads && InQuery(run[k - 1].threads[tid])
    ensures run[k - 1].threads[tid].query == run[j].threads[tid].query
    decreases j
  {
    assert j > 0;
    assert StepAt(c, run, j - 1);
    QueryDoneBefore(c, run[j - 1], run[j], tid);
    if run[j - 1].threads[tid] == run[j].threads[tid] {
      k := QueryFinished(c, run, j - 1, tid);
    } else {
      k := j;
    }
  }

  /**
   Every answered query of every run: there was a step at which it was waiting and the mutex was
   free, nothing changed from there until it was done, and it replied exactly the entries that
   intersect it in the map of that step.
   */
  lemma EveryQueryIsASnapshot(c: Config, run: seq<State>, j: nat, tid: nat) returns (i: nat, k: nat)
    requires IsRun(c, run) && j < |run| && tid in run[j].threads && run[j].threads[tid].QueryDone?
    ensures i < k <= j && tid in run[i].threads && run[i].lock.None?
    ensures run[i].threads[tid] == QueryWaiting(run[j].threads[tid].query)
    ensures forall m | i < m <= k :: run[m].log == run[i].log && run[m].cells == run[i].cells
    ensures Answers(run[j].threads[tid].replies, LastWriter(run[i].log), run[j].threads[tid].query, c.intersects)
  {
    var QueryDone(query, replies) := run[j].threads[tid];
    k := QueryFinished(c, run, j, tid);
    var q;
    i, q := QueryEntered(c, run, k - 1, tid);
    SnapshotHeld(c, run, i, k - 1, tid, q);
    QuerySnapshot(c, run, i, k, tid, query, replies);
  }

  // ---------------------------------------------------------------- every finished operation took effect

  /** What a handler was asked to do. */
  datatype Request = Apply(op: Op) | Answer(query: Key) | Lost

  function Asked(t: Thread): Request {
    match t
    case SubMid(x, _, _) => Apply(PutOp(x))
    case QueryWaiting(q) => Answer(q)
    case QueryHolding(q) => Answer(q)
    case QueryScanning(q, _, _, _) => Answer(q)
    case QueryDone(q, _) => Answer(q)
    case Crashed => Lost
    case SubWaiting(op) => Apply(op)
    case SubHolding(op) => Apply(op)
    case SubFound(op, _, _) => Apply(op)
    case SubLeaving(op) => Apply(op)
    case SubDone(op) => Apply(op)
  }

  /** The operation a subscriber has finished, even if it still holds the mutex. */
  function Finished(t: Thread): multiset<Op> {
    match t
    case SubLeaving(op) => multiset{op}
    case SubDone(op) => multiset{op}
    case _ => multiset{}
  }

  ghost function AllFinished(threads: map<nat, Thread>): multiset<Op>
    decreases |threads|
  {
    if threads == map[] then multiset{}
    else
      var tid :| tid in threads;
      AllFinished(threads - {tid}) + Finished(threads[tid])
  }

  lemma CountFirst(threads: map<nat, Thread>) returns (first: nat)
    requires threads != map[]
    ensures first in threads
    ensures AllFinished(threads) == AllFinished(threads - {first}) + Finished(threads[first])
  {
    first :| first in threads && AllFinished(threads) == AllFinished(threads - {first}) + Finished(threads[first]);
  }

  lemma MinusTwo(threads: map<nat, Thread>, a: nat, b: nat)
    ensures (threads - {a}) - {b} == (threads - {b}) - {a}
  {
  }

  /** The handlers can be counted in any order. */
  lemma {:induction false} CountAny(threads: map<nat, Thread>, tid: nat)
    requires tid in threads
    ensures AllFinished(threads) == AllFinished(threads - {tid}) + Finished(threads[tid])
    decreases |threads|
  {
    var first: nat := CountFirst(threads);
    if first != tid {
      CountAny(threads - {first}, tid);
      CountAny(threads - {tid}, first);
      MinusTwo(threads, tid, first);
      assert (threads - {first})[tid] == threads[tid] && (threads - {tid})[first] == threads[first];
    }
  }

  lemma CountMoved(threads: map<nat, Thread>, tid: nat, t: Thread)
    ensures AllFinished(threads[tid := t]) == AllFinished(threads - {tid}) + Finished(t)
  {
    CountAny(threads[tid := t], tid);
    assert threads[tid := t] - {tid} == threads - {tid};
  }

  /** The log holds the operations of the subscribers that have finished theirs, and no others. */
  ghost predicate Logged(s: State) {
    multiset(s.log) == AllFinished(s.threads)
  }

  lemma Arrives(s: State, tid: nat, t: Thread)
    requires Logged(s) && tid !in s.threads && Finished(t) == multiset{}
    ensures Logged(Move(s, tid, t))
  {
    CountMoved(s.threads, tid, t);
    assert s.threads - {tid} == s.threads;
  }

  /** The handler's step adds to the log exactly what it finishes by it, and its request stays. */
  ghost predicate LogsOwn(s: State, s': State, tid: nat) {
    && tid in s.threads && tid in s'.threads && s.log <= s'.log
    && Finished(s'.threads[tid]) == Finished(s.threads[tid]) + multiset(s'.log[|s.log|..])
    && Asked(s'.threads[tid]) == Asked(s.threads[tid])
  }

  lemma WriteLogs(c: Config, s: State, tid: nat)
    requires tid in s.threads && s.threads[tid].SubFound? && !Act(c, s, tid).threads[tid].Crashed?
    ensures LogsOwn(s, Act(c, s, tid), tid)
  {
    var s', op := Act(c, s, tid), s.threads[tid].op;
    if op.DeleteOp? { assert s'.log[|s.log|..] == [op]; }
  }

  lemma FillLogs(c: Config, s: State, tid: nat)
    requires tid in s.threads && s.threads[tid].SubMid? && !Act(c, s, tid).threads[tid].Crashed?
    ensures LogsOwn(s, Act(c, s, tid), tid)
  {
    assert Act(c, s, tid).log[|s.log|..] == [PutOp(s.threads[tid].sample)];
  }

  lemma LockLogs(c: Config, s: State, tid: nat)
    requires tid in s.threads && !Act(c, s, tid).threads[tid].Crashed?
    requires s.threads[tid].SubWaiting? || s.threads[tid].SubHolding? || s.threads[tid].SubLeaving?
    ensures LogsOwn(s, Act(c, s, tid), tid)
  {
    assert Act(c, s, tid).log[|s.log|..] == [];
  }

  lemma QueryLogs(c: Config, s: State, tid: nat)
    requires tid in s.threads && !Act(c, s, tid).threads[tid].Crashed?
    requires s.threads[tid].QueryWaiting? || InQuery(s.threads[tid])
    ensures LogsOwn(s, Act(c, s, tid), tid)
  {
    assert Act(c, s, tid).log[|s.log|..] == [];
  }

  lemma ActLogs(c: Config, s: State, tid: nat)
    requires tid in s.threads && !Act(c, s, tid).threads[tid].Crashed?
    ensures LogsOwn(s, Act(c, s, tid), tid)
  {
    var t := s.threads[tid];
    if t.SubFound? { WriteLogs(c, s, tid); }
    else if t.SubMid? { FillLogs(c, s, tid); }
    else if t.SubWaiting? || t.SubHolding? || t.SubLeaving? { LockLogs(c, s, tid); }
    else if t.QueryWaiting? || InQuery(t) { QueryLogs(c, s, tid); }
  }

  lemma CountGrows(threads: map<nat, Thread>, tid: nat, t: Thread, added: multiset<Op>)
    requires tid in threads && Finished(t) == Finished(threads[tid]) + added
    ensures AllFinished(threads[tid := t]) == AllFinished(threads) + added
  {
    CountMoved(threads, tid, t);
    CountAny(threads, tid);
  }

  lemma LogSplits(log: seq<Op>, log': seq<Op>)
    requires log <= log'
    ensures multiset(log') == multiset(log) + multiset(log'[|log|..])
  {
    assert log' == log + log'[|log|..];
  }

  lemma OwnLogged(s: State, s': State, tid: nat)
    requires Logged(s) && LogsOwn(s, s', tid) && s'.threads == s.threads[tid := s'.threads[tid]]
    ensures Logged(s')
  {
    CountGrows(s.threads, tid, s'.threads[tid], multiset(s'.log[|s.log|..]));
    LogSplits(s.log, s'.log);
  }

  /** Its request stays; and if it finishes by the step, the step logs it. */
  predicate Follows(s: State, s': State, tid: nat)
    requires tid in s.threads && |s.log| <= |s'.log|
  {
    && tid in s'.threads && Asked(s'.threads[tid]) == Asked(s.threads[tid])
    && (Finished(s'.threads[tid]) == Finished(s.threads[tid]) ||
        Finished(s'.threads[tid]) <= multiset(s'.log[|s.log|..]))
  }

  /** What a step does to the log and to the handlers. */
  ghost predicate Grows(s: State, s': State) {
    && s.log <= s'.log
    && (forall tid | tid in s.threads :: Follows(s, s', tid))
    && (forall tid | tid in s'.threads :: tid in s.threads || Finished(s'.threads[tid]) == multiset{})
  }

  lemma FinishesOnce(s: State, s': State, tid: nat)
    requires LogsOwn(s, s', tid)
    ensures Follows(s, s', tid)
  {
    if Finished(s.threads[tid]) != multiset{} {
      var op :| Finished(s.threads[tid]) == multiset{op};
      assert |Finished(s'.threads[tid])| <= 1;
      assert |multiset(s'.log[|s.log|..])| == 0;
    }
  }

  lemma OwnGrows(s: State, s': State, tid: nat)
    requires LogsOwn(s, s', tid) && s'.threads == s.threads[tid := s'.threads[tid]]
    ensures Grows(s, s')
  {
    FinishesOnce(s, s', tid);
  }

  lemma ActGrows(c: Config, s: State, tid: nat)
    requires Inv(c, s) && Logged(s) && tid in s.threads
    ensures Logged(Act(c, s, tid)) && Grows(s, Act(c, s, tid))
  {
    var s' := Act(c, s, tid);
    ActInv(c, s, tid);
    ActsAlone(c, s, tid);
    ActLogs(c, s, tid);
    OwnLogged(s, s', tid);
    OwnGrows(s, s', tid);
  }

  lemma ArriveGrows(s: State, tid: nat, t: Thread)
    requires tid !in s.threads && (t.SubWaiting? || t.QueryWaiting?)
    ensures Grows(s, Move(s, tid, t))
  {
  }

  lemma NextLogged(c: Config, s: State, s': State)
    requires Inv(c, s) && Logged(s) && Next(c, s, s')
    ensures Logged(s') && Grows(s, s')
  {
    if tid: nat, t: Thread :| tid !in s.threads && (t.SubWaiting? || t.QueryWaiting?) && s' == Move(s, tid, t) {
      ArriveGrows(s, tid, t);
      Arrives(s, tid, t);
    } else {
      var tid :| tid in s.threads && s' == Act(c, s, tid);
      ActGrows(c, s, tid);
    }
  }

  /** `Logged`, as a fact about a step of a run. */
  ghost predicate LoggedAt(run: seq<State>, k: nat)
    requires k < |run|
  {
    Logged(run[k])
  }

  lemma GrowsAt(c: Config, run: seq<State>, k: nat)
    requires IsRun(c, run) && k + 1 < |run| && LoggedAt(run, k)
    ensures LoggedAt(run, k + 1) && Grows(run[k], run[k + 1])
  {
    RunInv(c, run, k);
    assert StepAt(c, run, k);
    NextLogged(c, run[k], run[k + 1]);
  }

  lemma {:induction false} AlwaysLogged(c: Config, run: seq<State>, k: nat)
    requires IsRun(c, run) && k < |run|
    ensures LoggedAt(run, k)
  {
    if k > 0 {
      AlwaysLogged(c, run, k - 1);
      GrowsAt(c, run, k - 1);
    }
  }

  /**
   In every state of every run, the log holds exactly the operations of the subscribers
   that have finished, each as often as subscribers were asked for it.
   */
  lemma FinishedIsLogged(c: Config, run: seq<State>, k: nat)
    requires IsRun(c, run) && k < |run|
    ensures multiset(run[k].log) == AllFinished(run[k].threads)
  {
    AlwaysLogged(c, run, k);
  }

  /** The log is longer at its end, and the handlers are asked for the same. */
  ghost predicate Continues(s: State, s': State) {
    && s.log <= s'.log
    && forall tid | tid in s.threads :: tid in s'.threads && Asked(s'.threads[tid]) == Asked(s.threads[tid])
  }

  lemma GrowsContinues(a: State, b: State, d: State)
    requires Continues(a, b) && Grows(b, d)
    ensures Continues(a, d)
  {
    forall tid | tid in a.threads ensures tid in d.threads && Asked(d.threads[tid]) == Asked(a.threads[tid]) {
      assert Follows(b, d, tid);
    }
  }

  lemma ContinuesAt(c: Config, run: seq<State>, first: State, k: nat)
    requires IsRun(c, run) && k + 1 < |run| && Continues(first, run[k])
    ensures Continues(first, run[k + 1])
  {
    AlwaysLogged(c, run, k);
    GrowsAt(c, run, k);
    GrowsContinues(first, run[k], run[k + 1]);
  }

  lemma {:induction false} RunContinues(c: Config, run: seq<State>, i: nat, j: nat)
    requires IsRun(c, run) && i <= j < |run|
    ensures Continues(run[i], run[j])
    decreases j
  {
    if i < j {
      RunContinues(c, run, i, j - 1);
      ContinuesAt(c, run, run[i], j - 1);
    }
  }

  /** The log only grows at its end, and no handler is ever asked for anything else. */
  lemma LogGrows(c: Config, run: seq<State>, i: nat, j: nat)
    requires IsRun(c, run) && i <= j < |run|
    ensures run[i].log <= run[j].log
    ensures forall tid | tid in run[i].threads ::
              tid in run[j].threads && Asked(run[j].threads[tid]) == Asked(run[i].threads[tid])
  {
    RunContinues(c, run, i, j);
  }

  /** Once a subscriber is done, the operation it was asked for is in the log for good. */
  lemma DoneIsLogged(c: Config, run: seq<State>, i: nat, j: nat, tid: nat)
    requires IsRun(c, run) && i <= j < |run| && tid in run[i].threads
    requires run[i].threads[tid].SubDone?
    ensures run[i].threads[tid].op in run[j].log
  {
    var op := run[i].threads[tid].op;
    FinishedIsLogged(c, run, i);
    CountAny(run[i].threads, tid);
    assert op in AllFinished(run[i].threads);
    LogGrows(c, run, i, j);
  }

  /** The subscriber has finished `op`, or has not. */
  predicate HasFinished(s: State, tid: nat, op: Op) {
    tid in s.threads && Finished(s.threads[tid]) == multiset{op}
  }

  lemma StepFinishes(c: Config, run: seq<State>, k: nat, tid: nat, op: Op)
    requires IsRun(c, run) && k + 1 < |run|
    requires HasFinished(run[k + 1], tid, op) && !HasFinished(run[k], tid, op)
    ensures run[k].log <= run[k + 1].log && op in run[k + 1].log[|run[k].log|..]
  {
    AlwaysLogged(c, run, k);
    GrowsAt(c, run, k);
    assert op in Finished(run[k + 1].threads[tid]);
    if tid in run[k].threads { assert Follows(run[k], run[k + 1], tid); }
  }

  /** Real time is respected: what is finished after step `i` is logged after all that was finished by then. */
  lemma {:induction false} FinishedLater(c: Config, run: seq<State>, i: nat, j: nat, tid: nat, op: Op)
    requires IsRun(c, run) && i <= j < |run|
    requires HasFinished(run[j], tid, op) && !HasFinished(run[i], tid, op)
    ensures run[i].log <= run[j].log && op in run[j].log[|run[i].log|..]
    decreases j
  {
    LogGrows(c, run, i, j - 1);
    LogGrows(c, run, j - 1, j);
    var n := |run[i].log|;
    if HasFinished(run[j - 1], tid, op) {
      FinishedLater(c, run, i, j - 1, tid, op);
      var p :| 0 <= p < |run[j - 1].log[n..]| && run[j - 1].log[n..][p] == op;
      assert run[j].log[n..][p] == op;
    } else {
      StepFinishes(c, run, j - 1, tid, op);
      var m := |run[j - 1].log|;
      var p :| 0 <= p < |run[j].log[m..]| && run[j].log[m..][p] == op;
      assert run[j].log[n..][p + m - n] == op;
    }
  }

  /** No operation on the key is logged from position `p` on. */
  predicate Untouched(log: seq<Op>, key: Key, p: nat) {
    forall q | p <= q < |log| :: KeyOf(log[q]) != key
  }

  lemma UntouchedSnoc(log: seq<Op>, key: Key, p: nat)
    requires p < |log|
    ensures Untouched(log, key, p) <==> Untouched(Init(log), key, p) && KeyOf(Last(log)) != key
  {
    assert forall q | 0 <= q < |log| - 1 :: Init(log)[q] == log[q];
  }

  /** The operation at `p` decides what the map holds for its key, if no later one touches it. */
  lemma {:induction false} LastOneDecides(log: seq<Op>, p: nat)
    requires p < |log| && Untouched(log, KeyOf(log[p]), p + 1)
    ensures match log[p]
            case PutOp(x) => x.key in LastWriter(log) && LastWriter(log)[x.key] == x
            case DeleteOp(key) => key !in LastWriter(log)
    decreases |log|
  {
    if p < |log| - 1 {
      UntouchedSnoc(log, KeyOf(log[p]), p + 1);
      assert Init(log)[p] == log[p];
      LastOneDecides(Init(log), p);
    }
  }

  lemma {:induction false} NeverTouched(log: seq<Op>, key: Key)
    requires Untouched(log, key, 0)
    ensures key !in LastWriter(log)
  {
    if log != [] {
      UntouchedSnoc(log, key, 0);
      NeverTouched(Init(log), key);
    }
  }

  /**
   An operation that was still to be done at step `i` and is finished at step `j`, while no
   different one on its key was finished in between, decides what the map at `j` holds for the key.
   */
  lemma LatestWins(c: Config, run: seq<State>, i: nat, j: nat, tid: nat, op: Op)
    requires IsRun(c, run) && i <= j < |run|
    requires HasFinished(run[j], tid, op) && !HasFinished(run[i], tid, op)
    requires forall q | |run[i].log| <= q < |run[j].log| :: KeyOf(run[j].log[q]) == KeyOf(op) ==> run[j].log[q] == op
    ensures match op
            case PutOp(x) => x.key in LastWriter(run[j].log) && LastWriter(run[j].log)[x.key] == x
            case DeleteOp(key) => key !in LastWriter(run[j].log)
  {
    FinishedLater(c, run, i, j, tid, op);
    var log, n := run[j].log, |run[i].log|;
    var p :| 0 <= p < |log[n..]| && log[n..][p] == op;
    var last := LastTouch(log, op, n + p);
    LastOneDecides(log, last);
  }

  lemma {:induction false} LastTouch(log: seq<Op>, op: Op, p: nat) returns (last: nat)
    requires p < |log| && log[p] == op
    requires forall q | p <= q < |log| :: KeyOf(log[q]) == KeyOf(op) ==> log[q] == op
    ensures last < |log| && log[last] == op && Untouched(log, KeyOf(op), last + 1)
    decreases |log| - p
  {
    if q :| p < q < |log| && KeyOf(log[q]) == KeyOf(op) {
      last := LastTouch(log, op, q);
    } else {
      last := p;
    }
  }

  /** A query asked after a subscriber was done answers a map that its operation went into. */
  lemma QueryAfterDone(c: Config, run: seq<State>, a: nat, j: nat, sub: nat, tid: nat) returns (i: nat)
    requires IsRun(c, run) && a < |run| && j < |run|
    requires sub in run[a].threads && run[a].threads[sub].SubDone? && tid !in run[a].threads
    requires tid in run[j].threads && run[j].threads[tid].QueryDone?
    ensures a <= i < j && run[a].threads[sub].op in run[i].log
    ensures Answers(run[j].threads[tid].replies, LastWriter(run[i].log), run[j].threads[tid].query, c.intersects)
  {
    var k: nat;
    i, k := EveryQueryIsASnapshot(c, run, j, tid);
    if i < a { LogGrows(c, run, i, a); }
    DoneIsLogged(c, run, a, i, sub);
  }
}
