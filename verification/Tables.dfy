/**
 The storage as a value: bins of samples, each key in the bin its hash names, and the
 finite map the bins stand for.
 */
module Tables {
  import opened Text
  import opened Keys

  datatype Sample = Sample(key: Key, payload: seq<int>)

  /** The bin of every key. */
  type Place = Key -> nat

  type Bin = seq<Sample>
  type Table = seq<Bin>

  /** Where a bin holds a key, or its length. */
  function Pos(bin: Bin, key: Key): (k: nat)
    ensures k <= |bin|
    ensures forall j | 0 <= j < k :: bin[j].key != key
    ensures k < |bin| ==> bin[k].key == key
  {
    if bin == [] then 0
    else
      var k := Pos(Init(bin), key);
      if k < |bin| - 1 then k else if Last(bin).key == key then k else |bin|
  }

  predicate Distinct(bin: Bin) {
    forall i, j | 0 <= i < j < |bin| :: bin[i].key != bin[j].key
  }

  /** Every key sits in its own bin, once. */
  ghost predicate WellFormed(t: Table, place: Place) {
    && (forall k: Key :: place(k) < |t|)
    && (forall b | 0 <= b < |t| :: Distinct(t[b]))
    && (forall b, i | 0 <= b < |t| && 0 <= i < |t[b]| :: place(t[b][i].key) == b)
  }

  function Without<T>(s: seq<T>, k: nat): seq<T>
    requires k < |s|
  {
    s[..k] + s[k + 1..]
  }

  /** Overwrite in place, or append. */
  function PutBin(bin: Bin, s: Sample): Bin {
    var k := Pos(bin, s.key);
    if k < |bin| then bin[k := s] else bin + [s]
  }

  function DeleteBin(bin: Bin, key: Key): Bin {
    var k := Pos(bin, key);
    if k < |bin| then Without(bin, k) else bin
  }

  function Put(t: Table, s: Sample, place: Place): Table
    requires place(s.key) < |t|
  {
    var b := place(s.key);
    t[b := PutBin(t[b], s)]
  }

  function Delete(t: Table, key: Key, place: Place): Table
    requires place(key) < |t|
  {
    var b := place(key);
    t[b := DeleteBin(t[b], key)]
  }

  // ---------------------------------------------------------------- the map

  function Lookup(bin: Bin, key: Key): Option<Sample> {
    var k := Pos(bin, key);
    if k < |bin| then Some(bin[k]) else None
  }

  function Find(t: Table, key: Key, place: Place): Option<Sample>
    requires place(key) < |t|
  {
    Lookup(t[place(key)], key)
  }

  function Samples(t: Table): seq<Sample> {
    Flatten(t)
  }

  function KeysOf(ss: seq<Sample>): set<Key> {
    set s | s in ss :: s.key
  }

  /** The finite map a table stands for. */
  ghost function Contents(t: Table, place: Place): map<Key, Sample>
    requires WellFormed(t, place)
  {
    map k | k in KeysOf(Samples(t)) && Find(t, k, place).Some? :: Find(t, k, place).value
  }

  lemma {:induction false} InFlatten<T>(parts: seq<seq<T>>, x: T)
    ensures x in Flatten(parts) <==> exists b | 0 <= b < |parts| :: x in parts[b]
  {
    if parts == [] {
    } else {
      var front := Init(parts);
      InFlatten(front, x);
      assert forall b | 0 <= b < |front| :: front[b] == parts[b];
      if x in Flatten(front) {
        var b :| 0 <= b < |front| && x in front[b];
        assert x in parts[b];
      } else if x in Last(parts) {
        assert x in parts[|parts| - 1];
      }
    }
  }

  lemma LookupMember(bin: Bin, s: Sample)
    requires Distinct(bin)
    ensures s in bin <==> Lookup(bin, s.key) == Some(s)
  {
    if s in bin {
      var i :| 0 <= i < |bin| && bin[i] == s;
      var k := Pos(bin, s.key);
      assert k < |bin|;
    }
  }

  /** A sample is stored exactly when looking up its key finds it. */
  lemma FindMember(t: Table, s: Sample, place: Place)
    requires WellFormed(t, place)
    ensures s in Samples(t) <==> Find(t, s.key, place) == Some(s)
  {
    var b := place(s.key);
    InFlatten(t, s);
    LookupMember(t[b], s);
    if s in Samples(t) {
      var c :| 0 <= c < |t| && s in t[c];
      var i :| 0 <= i < |t[c]| && t[c][i] == s;
      assert c == b;
    }
  }

  lemma FindKey(t: Table, key: Key, place: Place)
    requires WellFormed(t, place)
    ensures Find(t, key, place).Some? ==> Find(t, key, place).value.key == key
  {
  }

  /** The map, key by key. */
  lemma ContentsMeaning(t: Table, key: Key, place: Place)
    requires WellFormed(t, place)
    ensures key in Contents(t, place) <==> Find(t, key, place).Some?
    ensures key in Contents(t, place) ==> Find(t, key, place) == Some(Contents(t, place)[key])
  {
    FindKey(t, key, place);
    if Find(t, key, place).Some? {
      var s := Find(t, key, place).value;
      FindMember(t, s, place);
      assert s in Samples(t);
    }
  }

  lemma PutBinFacts(bin: Bin, s: Sample, key: Key)
    requires Distinct(bin)
    ensures Distinct(PutBin(bin, s))
    ensures Lookup(PutBin(bin, s), key) == if key == s.key then Some(s) else Lookup(bin, key)
    ensures forall i | 0 <= i < |PutBin(bin, s)| :: PutBin(bin, s)[i] == s || PutBin(bin, s)[i] in bin
  {
    var bin' := PutBin(bin, s);
    var k := Pos(bin, key);
    PosUnique(bin', key, if key == s.key || k < |bin| then k else |bin'|);
  }

  lemma PosUnique(bin: Bin, key: Key, k: nat)
    requires k <= |bin| && (forall j | 0 <= j < k :: bin[j].key != key) && (k < |bin| ==> bin[k].key == key)
    ensures Pos(bin, key) == k
  {
  }

  lemma WithoutAt<T>(s: seq<T>, d: nat)
    requires d < |s|
    ensures |Without(s, d)| == |s| - 1
    ensures forall j | 0 <= j < |s| - 1 :: Without(s, d)[j] == if j < d then s[j] else s[j + 1]
  {
  }

  lemma DeletePos(bin: Bin, d: nat, key: Key)
    requires Distinct(bin) && d < |bin|
    ensures Lookup(Without(bin, d), key) == if key == bin[d].key then None else Lookup(bin, key)
  {
    var bin' := Without(bin, d);
    var k := Pos(bin, key);
    WithoutAt(bin, d);
    if key == bin[d].key {
      PosUnique(bin, key, d);
      PosUnique(bin', key, |bin'|);
    } else {
      PosUnique(bin', key, if k == |bin| then |bin'| else if k < d then k else k - 1);
    }
  }

  lemma DeleteBinFacts(bin: Bin, dead: Key, key: Key)
    requires Distinct(bin)
    ensures Distinct(DeleteBin(bin, dead))
    ensures Lookup(DeleteBin(bin, dead), key) == if key == dead then None else Lookup(bin, key)
    ensures forall i | 0 <= i < |DeleteBin(bin, dead)| :: DeleteBin(bin, dead)[i] in bin
  {
    var d := Pos(bin, dead);
    if d < |bin| {
      WithoutAt(bin, d);
      DeletePos(bin, d, key);
    }
  }

  lemma PutWellFormed(t: Table, s: Sample, place: Place)
    requires WellFormed(t, place)
    ensures WellFormed(Put(t, s, place), place)
  {
    var b := place(s.key);
    var t': Table := Put(t, s, place);
    PutBinFacts(t[b], s, s.key);
    forall c, i | 0 <= c < |t'| && 0 <= i < |t'[c]| ensures place(t'[c][i].key) == c {
      if c == b && t'[c][i] != s {
        var j :| 0 <= j < |t[b]| && t[b][j] == t'[c][i];
      }
    }
  }

  lemma DeleteWellFormed(t: Table, key: Key, place: Place)
    requires WellFormed(t, place)
    ensures WellFormed(Delete(t, key, place), place)
  {
    var b := place(key);
    var t': Table := Delete(t, key, place);
    DeleteBinFacts(t[b], key, key);
    forall c, i | 0 <= c < |t'| && 0 <= i < |t'[c]| ensures place(t'[c][i].key) == c {
      if c == b {
        var j :| 0 <= j < |t[b]| && t[b][j] == t'[c][i];
      }
    }
  }

  /** A put is a map update: the last writer wins and nothing else changes. */
  lemma PutContents(t: Table, s: Sample, place: Place)
    requires WellFormed(t, place) && WellFormed(Put(t, s, place), place)
    ensures Contents(Put(t, s, place), place) == Contents(t, place)[s.key := s]
  {
    var t': Table := Put(t, s, place);
    forall k: Key
      ensures k in Contents(t', place) <==> k == s.key || k in Contents(t, place)
      ensures k in Contents(t', place) ==> Contents(t', place)[k] == if k == s.key then s else Contents(t, place)[k]
    {
      PutBinFacts(t[place(s.key)], s, k);
      ContentsMeaning(t, k, place);
      ContentsMeaning(t', k, place);
    }
  }

  lemma DeleteFind(t: Table, dead: Key, key: Key, place: Place)
    requires WellFormed(t, place)
    ensures Find(Delete(t, dead, place), key, place) == if key == dead then None else Find(t, key, place)
  {
    DeleteBinFacts(t[place(dead)], dead, key);
  }

  /** A delete removes one key and nothing else. */
  lemma DeleteContents(t: Table, key: Key, place: Place)
    requires WellFormed(t, place) && WellFormed(Delete(t, key, place), place)
    ensures Contents(Delete(t, key, place), place) == Contents(t, place) - {key}
  {
    var m, m' := Contents(t, place), Contents(Delete(t, key, place), place);
    forall k: Key
      ensures k in m' <==> k != key && k in m
      ensures k in m' ==> m'[k] == m[k]
    {
      DeleteFind(t, key, k, place);
      ContentsMeaning(t, k, place);
      ContentsMeaning(Delete(t, key, place), k, place);
    }
    MapMinus(m, m', key);
  }

  lemma MapMinus(m: map<Key, Sample>, m': map<Key, Sample>, key: Key)
    requires forall k: Key :: k in m' <==> k != key && k in m
    requires forall k: Key :: k in m' ==> m'[k] == m[k]
    ensures m' == m - {key}
  {
  }

  // ---------------------------------------------------------------- sizes

  lemma {:induction false} EmptyTable(t: Table)
    requires forall b | 0 <= b < |t| :: t[b] == []
    ensures Samples(t) == []
  {
    if t != [] { EmptyTable(Init(t)); }
  }

  lemma {:induction false} FlattenDistinct(t: Table, place: Place)
    requires forall b | 0 <= b < |t| :: Distinct(t[b])
    requires forall b, i | 0 <= b < |t| && 0 <= i < |t[b]| :: place(t[b][i].key) == b
    ensures Distinct(Flatten(t))
  {
    if t != [] {
      var front, last := Init(t), Last(t);
      assert forall b | 0 <= b < |front| :: front[b] == t[b];
      FlattenDistinct(front, place);
      forall x | x in Flatten(front) ensures place(x.key) < |front| {
        InFlatten(front, x);
        var b :| 0 <= b < |front| && x in front[b];
        var i :| 0 <= i < |front[b]| && front[b][i] == x;
        assert place(t[b][i].key) == b;
      }
      forall i | 0 <= i < |last| ensures place(last[i].key) == |front| {
        assert last[i] == t[|t| - 1][i];
      }
      assert forall i | 0 <= i < |Flatten(front)| :: Flatten(front)[i] in Flatten(front);
    }
  }

  lemma {:induction false} DistinctCount(ss: seq<Sample>)
    requires Distinct(ss)
    ensures |KeysOf(ss)| == |ss|
  {
    if ss == [] {
      assert KeysOf(ss) == {};
    } else {
      DistinctCount(Init(ss));
      assert KeysOf(ss) == KeysOf(Init(ss)) + {Last(ss).key};
    }
  }

  /** The map has as many entries as the bins hold samples. */
  lemma ContentsSize(t: Table, place: Place)
    requires WellFormed(t, place)
    ensures |Contents(t, place)| == |Samples(t)|
  {
    FlattenDistinct(t, place);
    DistinctCount(Samples(t));
    forall k | k in KeysOf(Samples(t)) ensures k in Contents(t, place) {
      var s :| s in Samples(t) && s.key == k;
      FindMember(t, s, place);
    }
    assert Contents(t, place).Keys == KeysOf(Samples(t));
  }

  lemma {:induction false} ReplaceSize<T>(t: seq<seq<T>>, b: nat, bin: seq<T>)
    requires b < |t|
    ensures |Flatten(t[b := bin])| == |Flatten(t)| - |t[b]| + |bin|
  {
    var t' := t[b := bin];
    if b == |t| - 1 {
      assert Init(t') == Init(t);
    } else {
      assert Init(t') == Init(t)[b := bin];
      ReplaceSize(Init(t), b, bin);
    }
  }

  lemma PutSize(t: Table, s: Sample, place: Place)
    requires place(s.key) < |t|
    ensures |Samples(Put(t, s, place))| == |Samples(t)| + if Find(t, s.key, place).Some? then 0 else 1
  {
    var b := place(s.key);
    ReplaceSize(t, b, PutBin(t[b], s));
  }

  lemma DeleteSize(t: Table, key: Key, place: Place)
    requires place(key) < |t|
    ensures |Samples(Delete(t, key, place))| == |Samples(t)| - if Find(t, key, place).Some? then 1 else 0
  {
    var b := place(key);
    ReplaceSize(t, b, DeleteBin(t[b], key));
  }

  // ---------------------------------------------------------------- queries

  datatype Reply = Reply(key: Key, payload: seq<int>)

  /** The replies of one pass over the samples. */
  function Replies(ss: seq<Sample>, query: Key, intersects: (Key, Key) -> bool): seq<Reply> {
    if ss == [] then []
    else
      var before := Replies(Init(ss), query, intersects);
      if intersects(query, Last(ss).key) then before + [Reply(Last(ss).key, Last(ss).payload)] else before
  }

  lemma RepliesMore(ss: seq<Sample>, s: Sample, query: Key, intersects: (Key, Key) -> bool)
    ensures Replies(ss + [s], query, intersects) ==
            Replies(ss, query, intersects) + if intersects(query, s.key) then [Reply(s.key, s.payload)] else []
  {
    assert Init(ss + [s]) == ss;
  }

  predicate OncePerKey(rs: seq<Reply>) {
    forall i, j | 0 <= i < j < |rs| :: rs[i].key != rs[j].key
  }

  lemma {:induction false} RepliesMembers(ss: seq<Sample>, query: Key, intersects: (Key, Key) -> bool)
    requires Distinct(ss)
    ensures forall r | r in Replies(ss, query, intersects) ::
              intersects(query, r.key) && Sample(r.key, r.payload) in ss
    ensures forall s | s in ss && intersects(query, s.key) :: Reply(s.key, s.payload) in Replies(ss, query, intersects)
  {
    if ss != [] {
      RepliesMembers(Init(ss), query, intersects);
    }
  }

  lemma {:induction false} RepliesOnce(ss: seq<Sample>, query: Key, intersects: (Key, Key) -> bool)
    requires Distinct(ss)
    ensures OncePerKey(Replies(ss, query, intersects))
  {
    if ss != [] {
      var front := Init(ss);
      var before := Replies(front, query, intersects);
      RepliesOnce(front, query, intersects);
      RepliesMembers(front, query, intersects);
      forall i | 0 <= i < |before| ensures before[i].key != Last(ss).key {
        assert before[i] in before;
        var k :| 0 <= k < |front| && front[k] == Sample(before[i].key, before[i].payload);
        assert ss[k].key != ss[|ss| - 1].key;
      }
      assert OncePerKey(before + [Reply(Last(ss).key, Last(ss).payload)]);
    }
  }

  /** What a query must be told about a map: the entries whose keys it intersects, each once. */
  ghost predicate Answers(rs: seq<Reply>, m: map<Key, Sample>, query: Key, intersects: (Key, Key) -> bool) {
    && OncePerKey(rs)
    && (forall r | r in rs :: r.key in m && m[r.key].payload == r.payload && intersects(query, r.key))
    && (forall k | k in m && intersects(query, k) :: Reply(k, m[k].payload) in rs)
  }

  /** One pass over a table answers the query for the map the table stands for. */
  lemma PassAnswers(t: Table, place: Place, query: Key, intersects: (Key, Key) -> bool)
    requires WellFormed(t, place)
    ensures Answers(Replies(Samples(t), query, intersects), Contents(t, place), query, intersects)
  {
    var m := Contents(t, place);
    var rs := Replies(Samples(t), query, intersects);
    FlattenDistinct(t, place);
    RepliesMembers(Samples(t), query, intersects);
    RepliesOnce(Samples(t), query, intersects);
    forall r | r in rs ensures r.key in m && m[r.key].payload == r.payload {
      FindMember(t, Sample(r.key, r.payload), place);
      ContentsMeaning(t, r.key, place);
    }
    forall k | k in m && intersects(query, k) ensures Reply(k, m[k].payload) in rs {
      ContentsMeaning(t, k, place);
      FindKey(t, k, place);
      FindMember(t, m[k], place);
      assert m[k] == Sample(k, m[k].payload);
    }
  }

  // ---------------------------------------------------------------- passes over the bins

  /** What a pass has seen when it stands at element `i` of part `b`. */
  function Passed<T>(parts: seq<seq<T>>, b: nat, i: nat): seq<T>
    requires b < |parts| && i <= |parts[b]|
  {
    Flatten(parts[..b]) + parts[b][..i]
  }

  /** A pass that has seen one element more than up to `i` of part `b` stands at `j` of part `c`, or at the end. */
  ghost predicate Steps<T>(parts: seq<seq<T>>, b: nat, i: nat, c: nat, j: nat) {
    && b < |parts| && i < |parts[b]| && (c < |parts| ==> j <= |parts[c]|)
    && Passed(parts, b, i + 1) == if c < |parts| then Passed(parts, c, j) else Flatten(parts)
  }

  lemma {:induction false} SkipEmpty<T>(parts: seq<seq<T>>, b: nat, c: nat)
    requires b <= c <= |parts| && forall k | b <= k < c :: parts[k] == []
    ensures Flatten(parts[..b]) == Flatten(parts[..c])
    decreases c
  {
    if b < c {
      SkipEmpty(parts, b, c - 1);
      assert Init(parts[..c]) == parts[..c - 1];
    }
  }

  lemma PassedBin<T>(parts: seq<seq<T>>, b: nat)
    requires b < |parts|
    ensures Passed(parts, b, |parts[b]|) == Flatten(parts[..b + 1])
  {
    assert Init(parts[..b + 1]) == parts[..b];
    assert parts[b][..|parts[b]|] == parts[b];
  }

  lemma PassedMore<T>(parts: seq<seq<T>>, b: nat, i: nat)
    requires b < |parts| && i < |parts[b]|
    ensures Passed(parts, b, i + 1) == Passed(parts, b, i) + [parts[b][i]]
  {
    assert parts[b][..i + 1] == parts[b][..i] + [parts[b][i]];
  }

  /** Moving on from the end of bin `b` over empty bins to the start of bin `c`. */
  lemma PassedOver<T>(parts: seq<seq<T>>, b: nat, c: nat)
    requires b < c <= |parts| && forall k | b < k < c :: parts[k] == []
    ensures Passed(parts, b, |parts[b]|) == if c < |parts| then Passed(parts, c, 0) else Flatten(parts)
  {
    PassedBin(parts, b);
    SkipEmpty(parts, b + 1, c);
    assert parts[..|parts|] == parts;
  }

  /** A pass that stands at the first nonempty bin has seen nothing. */
  lemma PassStarts<T>(parts: seq<seq<T>>, b: nat)
    requires b <= |parts| && forall k | 0 <= k < b :: parts[k] == []
    ensures [] == if b < |parts| then Passed(parts, b, 0) else Flatten(parts)
  {
    SkipEmpty(parts, 0, b);
    assert parts[..|parts|] == parts;
  }

  /** From the last element of bin `b` a pass steps to the next nonempty bin, or to the end. */
  lemma StepsOver<T>(parts: seq<seq<T>>, b: nat, i: nat, c: nat)
    requires b < c <= |parts| && i + 1 == |parts[b]| && forall k | b < k < c :: parts[k] == []
    ensures Steps(parts, b, i, c, 0)
  {
    PassedOver(parts, b, c);
  }
}
