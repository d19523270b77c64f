/**
 Which zenoh features are enabled: the feature string, the set it splits into, and the
 substring test the build scripts use.
 */
module Features {
  import opened Text
  import opened Substitution
  import opened FeatureFilter

  const MARK: string := " zenoh/"

  /** The feature string of a list of enabled features. */
  function FeatureString(fs: seq<string>): string {
    if fs == [] then "" else MARK + fs[0] + FeatureString(fs[1..])
  }

  /** `test_feature` */
  predicate TestFeature(all: string, f: string) {
    Contains(all, MARK + f)
  }

  /** `str::split`: the pieces between leftmost, non-overlapping separators. */
  function Split(s: string, p: string): seq<string>
    requires p != ""
    decreases |s|
  {
    match Find(s, p)
    case Some(k) => [s[..k]] + Split(s[k + |p|..], p)
    case None => [s]
  }

  /** `features` */
  function FeatureSet(all: string): set<string> {
    set f | f in Split(all, MARK)
  }

  predicate Plain(f: string) {
    ' ' !in f
  }

  predicate AllPlain(fs: seq<string>) {
    forall i | 0 <= i < |fs| :: Plain(fs[i])
  }

  predicate PrefixOfEnabled(fs: seq<string>, f: string) {
    exists i | 0 <= i < |fs| :: f <= fs[i]
  }

  /** The mark stands only where a feature starts. */
  lemma MarkAt(f0: string, rest: string, f: string, k: nat)
    requires Plain(f0) && Plain(f) && (rest != "" ==> rest[0] == ' ')
    requires At(MARK + f0 + rest, MARK + f, k)
    ensures k == 0 || k >= |MARK + f0|
    ensures k == 0 ==> f <= f0
    ensures k > 0 ==> At(rest, MARK + f, k - |MARK + f0|)
  {
    var all, p := MARK + f0 + rest, MARK + f;
    assert all[k..k + |p|] == p;
    assert p[0] == ' ';
    assert all[k] == all[k..k + |p|][0];
    assert forall j | 1 <= j < 7 :: all[j] == MARK[j] != ' ';
    assert forall j | 7 <= j < 7 + |f0| :: all[j] == f0[j - 7] && all[j] in f0;
    if k == 0 {
      assert forall j | 0 <= j < |f| :: all[..|p|][7 + j] == f[j] && f[j] in f;
      assert rest != "" ==> all[7 + |f0|] == rest[0];
    } else {
      var d := k - |MARK + f0|;
      assert rest[d..d + |p|] == all[k..k + |p|];
    }
  }

  lemma MarkHere(f0: string, rest: string, f: string)
    requires f <= f0
    ensures At(MARK + f0 + rest, MARK + f, 0)
  {
    assert (MARK + f0 + rest)[..|MARK + f|] == MARK + f;
  }

  lemma MarkLater(f0: string, rest: string, f: string, k: nat)
    requires At(rest, MARK + f, k)
    ensures At(MARK + f0 + rest, MARK + f, |MARK + f0| + k)
  {
    var all, p, d := MARK + f0 + rest, MARK + f, |MARK + f0| + k;
    assert all[d..d + |p|] == rest[k..k + |p|];
  }

  lemma StartsBlank(fs: seq<string>)
    ensures FeatureString(fs) != "" ==> FeatureString(fs)[0] == ' '
  {
  }

  /** The substring test accepts exactly the prefixes of enabled features. */
  lemma {:induction false} TestIsPrefix(fs: seq<string>, f: string)
    requires AllPlain(fs) && Plain(f)
    ensures TestFeature(FeatureString(fs), f) <==> PrefixOfEnabled(fs, f)
  {
    var all, p := FeatureString(fs), MARK + f;
    if fs == [] {
      assert |p| > 0;
    } else {
      TestIsPrefix(fs[1..], f);
      if TestFeature(all, f) { TestFindsPrefix(fs, f); }
      if PrefixOfEnabled(fs, f) { PrefixIsFound(fs, f); }
    }
  }

  lemma TestFindsPrefix(fs: seq<string>, f: string)
    requires fs != [] && AllPlain(fs) && Plain(f) && TestFeature(FeatureString(fs), f)
    requires TestFeature(FeatureString(fs[1..]), f) <==> PrefixOfEnabled(fs[1..], f)
    ensures PrefixOfEnabled(fs, f)
  {
    var rest, p := FeatureString(fs[1..]), MARK + f;
    var k := Find(FeatureString(fs), p).value;
    StartsBlank(fs[1..]);
    MarkAt(fs[0], rest, f, k);
    if k > 0 {
      assert At(rest, p, k - |MARK + fs[0]|);
      var i :| 0 <= i < |fs[1..]| && f <= fs[1..][i];
      assert f <= fs[i + 1];
    }
  }

  lemma PrefixIsFound(fs: seq<string>, f: string)
    requires fs != [] && PrefixOfEnabled(fs, f)
    requires TestFeature(FeatureString(fs[1..]), f) <==> PrefixOfEnabled(fs[1..], f)
    ensures TestFeature(FeatureString(fs), f)
  {
    var all, rest, p := FeatureString(fs), FeatureString(fs[1..]), MARK + f;
    if f <= fs[0] {
      MarkHere(fs[0], rest, f);
      assert At(all, p, 0);
    } else {
      var i :| 1 <= i < |fs| && f <= fs[i];
      assert f <= fs[1..][i - 1];
      var k := Find(rest, p).value;
      MarkLater(fs[0], rest, f, k);
      assert At(all, p, |MARK + fs[0]| + k);
    }
  }

  lemma FindMark(f0: string, rest: string)
    requires Plain(f0) && (rest != "" ==> At(rest, MARK, 0))
    ensures Find(f0 + rest, MARK) == if rest == "" then None else Some(|f0|)
  {
    var s := f0 + rest;
    forall k: nat | k < |f0| ensures !At(s, MARK, k) {
      assert s[k] == f0[k] && f0[k] in f0;
      assert k + 7 <= |s| ==> s[k..k + 7][0] == s[k];
    }
    if rest != "" {
      assert s[|f0|..|f0| + 7] == rest[..7];
      assert At(s, MARK, |f0|);
    } else {
      assert forall k: nat | k >= |f0| :: !At(s, MARK, k);
    }
  }

  lemma StartsMarked(fs: seq<string>)
    ensures FeatureString(fs) != "" ==> At(FeatureString(fs), MARK, 0)
    ensures fs != [] ==> FeatureString(fs) != "" && FeatureString(fs)[7..] == fs[0] + FeatureString(fs[1..])
  {
    if fs != [] {
      assert MARK + fs[0] + FeatureString(fs[1..]) == MARK + (fs[0] + FeatureString(fs[1..]));
    }
  }

  lemma {:induction false} SplitTail(f0: string, fs: seq<string>)
    requires Plain(f0) && AllPlain(fs)
    ensures Split(f0 + FeatureString(fs), MARK) == [f0] + fs
    decreases |fs|
  {
    var rest := FeatureString(fs);
    StartsMarked(fs);
    FindMark(f0, rest);
    if fs == [] {
      assert f0 + rest == f0;
      assert [f0] + fs == [f0];
    } else {
      assert (f0 + rest)[..|f0|] == f0;
      assert (f0 + rest)[|f0| + 7..] == fs[0] + FeatureString(fs[1..]);
      SplitTail(fs[0], fs[1..]);
      assert [fs[0]] + fs[1..] == fs;
    }
  }

  /** Splitting the feature string gives back the features, and the empty string before the first mark. */
  lemma SplitFeatures(fs: seq<string>)
    requires AllPlain(fs)
    ensures Split(FeatureString(fs), MARK) == [""] + fs
  {
    SplitTail("", fs);
    assert "" + FeatureString(fs) == FeatureString(fs);
  }

  /**
   The substring test agrees with membership in the feature set exactly when the tested
   name is not a proper prefix of an enabled feature unless it is enabled itself.
   */
  lemma TestAgrees(fs: seq<string>, f: string)
    requires AllPlain(fs) && Plain(f) && f != ""
    ensures (TestFeature(FeatureString(fs), f) <==> f in FeatureSet(FeatureString(fs))) <==>
            (PrefixOfEnabled(fs, f) ==> f in fs)
  {
    TestIsPrefix(fs, f);
    SplitFeatures(fs);
    if f in fs {
      var i :| 0 <= i < |fs| && fs[i] == f;
      assert f <= fs[i];
    }
  }

  /** How a feature is spelled in the string, and how it is asked for. */
  lemma FeatureSpelling(f: string, all: string)
    ensures FeatureString([f]) == " zenoh/" + f
    ensures TestFeature(all, f) <==> Find(all, " zenoh/" + f).Some?
  {
    assert [f][1..] == [];
  }

  /** Enabling only the datagram flavour of QUIC makes the plain one test as enabled too. */
  lemma QuicDatagramEnablesQuic()
    ensures var all := FeatureString(["transport_quic_datagram"]);
            TestFeature(all, "transport_quic") && "transport_quic" !in FeatureSet(all)
  {
    var fs := ["transport_quic_datagram"];
    assert "transport_quic" <= fs[0];
    TestIsPrefix(fs, "transport_quic");
    SplitFeatures(fs);
  }

  // ---------------------------------------------------------------- the feature table

  const FAMILY: string := "Z_FEATURE_"

  /** A feature of the crate and the macro it stands for, written without its common beginning. */
  datatype Macro = Macro(feature: string, suffix: string)

  function Name(m: Macro): string {
    FAMILY + m.suffix
  }

  const API_AND_AUTH: seq<Macro> := [
    Macro("unstable", "UNSTABLE_API"),
    Macro("shared-memory", "SHARED_MEMORY"),
    Macro("auth_pubkey", "AUTH_PUBKEY"),
    Macro("auth_usrpwd", "AUTH_USRPWD")]

  const LINKS: seq<Macro> := [
    Macro("transport_multilink", "TRANSPORT_MULTILINK"),
    Macro("transport_compression", "TRANSPORT_COMPRESSION"),
    Macro("transport_quic", "TRANSPORT_QUIC"),
    Macro("transport_tcp", "TRANSPORT_TCP"),
    Macro("transport_tls", "TRANSPORT_TLS")]

  const MORE_LINKS: seq<Macro> := [
    Macro("transport_udp", "TRANSPORT_UDP"),
    Macro("transport_unixsock-stream", "TRANSPORT_UNIXSOCK_STREAM"),
    Macro("transport_ws", "TRANSPORT_WS"),
    Macro("transport_vsock", "VSOCK"),
    Macro("transport_quic_datagram", "TRANSPORT_QUIC_DATAGRAM")]

  const RUST_TO_C: seq<Macro> := API_AND_AUTH + LINKS + MORE_LINKS

  predicate InCapitals(s: string) {
    forall i | 0 <= i < |s| :: 'A' <= s[i] <= 'Z' || '0' <= s[i] <= '9' || s[i] == '_'
  }

  lemma ApiInCapitals()
    ensures forall i | 0 <= i < |API_AND_AUTH| :: InCapitals(API_AND_AUTH[i].suffix)
  {
  }

  lemma LinksInCapitals()
    ensures forall i | 0 <= i < |LINKS| :: InCapitals(LINKS[i].suffix)
  {
  }

  lemma MoreInCapitals()
    ensures forall i | 0 <= i < |MORE_LINKS| :: InCapitals(MORE_LINKS[i].suffix)
  {
  }

  lemma NameIsMacro(m: Macro)
    requires InCapitals(m.suffix)
    ensures IsMacro(Name(m))
  {
    assert InCapitals(FAMILY);
  }

  /** Every macro of the table is one that substitution handles. */
  lemma MacrosAreMacros()
    ensures forall m | m in RUST_TO_C :: IsMacro(Name(m))
  {
    ApiInCapitals();
    LinksInCapitals();
    MoreInCapitals();
    forall m | m in RUST_TO_C ensures IsMacro(Name(m)) {
      NameIsMacro(m);
    }
  }

  /** Length and last letter but one tell the macros apart. */
  function Tag(s: string): int {
    if |s| < 2 then 0 else 256 * |s| + s[|s| - 2] as int
  }

  const API_TAGS: seq<int> :=
    [12 * 256 + 'P' as int, 13 * 256 + 'R' as int, 11 * 256 + 'E' as int, 11 * 256 + 'W' as int]

  const LINK_TAGS: seq<int> :=
    [19 * 256 + 'N' as int, 21 * 256 + 'O' as int, 14 * 256 + 'I' as int, 13 * 256 + 'C' as int, 13 * 256 + 'L' as int]

  const MORE_TAGS: seq<int> :=
    [13 * 256 + 'D' as int, 25 * 256 + 'A' as int, 12 * 256 + 'W' as int, 5 * 256 + 'C' as int, 23 * 256 + 'A' as int]

  const TAGS: seq<int> := API_TAGS + LINK_TAGS + MORE_TAGS

  lemma ApiTags()
    ensures |API_TAGS| == |API_AND_AUTH| && forall i | 0 <= i < |API_TAGS| :: Tag(API_AND_AUTH[i].suffix) == API_TAGS[i]
  {
  }

  lemma LinkTags()
    ensures |LINK_TAGS| == |LINKS| && forall i | 0 <= i < |LINK_TAGS| :: Tag(LINKS[i].suffix) == LINK_TAGS[i]
  {
  }

  lemma MoreTags()
    ensures |MORE_TAGS| == |MORE_LINKS| && forall i | 0 <= i < |MORE_TAGS| :: Tag(MORE_LINKS[i].suffix) == MORE_TAGS[i]
  {
  }

  lemma TableTags()
    ensures |TAGS| == |RUST_TO_C| && forall i | 0 <= i < |TAGS| :: Tag(RUST_TO_C[i].suffix) == TAGS[i]
  {
    ApiTags();
    LinkTags();
    MoreTags();
  }

  lemma TagsDiffer()
    ensures forall i, j | 0 <= i < j < |TAGS| :: TAGS[i] != TAGS[j]
  {
  }

  /** No two features share a macro. */
  lemma SuffixDecides(x: Macro, y: Macro)
    requires x in RUST_TO_C && y in RUST_TO_C && x.suffix == y.suffix
    ensures x == y
  {
    TableTags();
    TagsDiffer();
    var i :| 0 <= i < |RUST_TO_C| && RUST_TO_C[i] == x;
    var j :| 0 <= j < |RUST_TO_C| && RUST_TO_C[j] == y;
    assert TAGS[i] == TAGS[j];
  }

  lemma NameDecides(x: Macro, y: Macro)
    requires x in RUST_TO_C && y in RUST_TO_C && Name(x) == Name(y)
    ensures x == y
  {
    assert Name(x)[|FAMILY|..] == x.suffix && Name(y)[|FAMILY|..] == y.suffix;
    SuffixDecides(x, y);
  }

  // ---------------------------------------------------------------- any order of the table

  /** An order in which the table can be iterated: every entry once. */
  predicate Iterates(order: seq<Macro>) {
    && (forall i, j | 0 <= i < j < |order| :: order[i] != order[j])
    && (forall m | m in order :: m in RUST_TO_C)
    && (forall m | m in RUST_TO_C :: m in order)
  }

  /** What is substituted for each macro, given which features test as enabled. */
  function Entries(order: seq<Macro>, test: string -> bool): seq<Entry> {
    seq(|order|, i requires 0 <= i < |order| => Entry(Name(order[i]), test(order[i].feature)))
  }

  function MacroNames(): set<string> {
    set m | m in RUST_TO_C :: Name(m)
  }

  predicate IsOn(name: string, test: string -> bool) {
    exists m | m in RUST_TO_C :: Name(m) == name && test(m.feature)
  }

  ghost function TableMap(test: string -> bool): map<string, bool> {
    map n | n in MacroNames() :: IsOn(n, test)
  }

  lemma TableValue(m: Macro, test: string -> bool)
    requires m in RUST_TO_C
    ensures Name(m) in TableMap(test) && TableMap(test)[Name(m)] == test(m.feature)
  {
    if other :| other in RUST_TO_C && Name(other) == Name(m) && test(other.feature) {
      NameDecides(other, m);
    }
  }

  /** Entries with different names that say what the map says, for all its names, list it. */
  lemma {:induction false} ListsMap(order: seq<Entry>, m: map<string, bool>)
    requires forall i, j | 0 <= i < j < |order| :: order[i].name != order[j].name
    requires forall i | 0 <= i < |order| :: order[i].name in m && m[order[i].name] == order[i].value
    requires forall i | 0 <= i < |order| :: IsMacro(order[i].name)
    requires forall n | n in m :: exists i | 0 <= i < |order| :: order[i].name == n
    ensures Lists(order, m)
  {
    if order != [] {
      var front, last := Init(order), Last(order).name;
      forall n | n in m - {last} ensures exists i | 0 <= i < |front| :: front[i].name == n {
        var i :| 0 <= i < |order| && order[i].name == n;
        assert front[i].name == n;
      }
      ListsMap(front, m - {last});
    }
  }

  /** Every order of the real table lists one and the same map. */
  lemma TableLists(order: seq<Macro>, test: string -> bool)
    requires Iterates(order)
    ensures Lists(Entries(order, test), TableMap(test))
  {
    var es, m := Entries(order, test), TableMap(test);
    MacrosAreMacros();
    forall i, j | 0 <= i < j < |es| ensures es[i].name != es[j].name {
      if es[i].name == es[j].name { NameDecides(order[i], order[j]); }
    }
    forall i | 0 <= i < |es| ensures es[i].name in m && m[es[i].name] == es[i].value && IsMacro(es[i].name) {
      assert order[i] in order;
      TableValue(order[i], test);
    }
    forall n | n in m ensures exists i | 0 <= i < |es| :: es[i].name == n {
      var x :| x in RUST_TO_C && Name(x) == n;
      assert x in order;
      var i :| 0 <= i < |order| && order[i] == x;
      assert es[i].name == n;
    }
    ListsMap(es, m);
  }

  /** `evaluate_c_defines_line` when the table is iterated in the given order. */
  function EvalWith(order: seq<Macro>, test: string -> bool, evalexpr: string -> Condition): Eval {
    line => evalexpr(Replace(ReplaceAll(line, Entries(order, test)), "#if", ""))
  }

  lemma {:induction false} RunSame(lines: seq<string>, a: Eval, b: Eval)
    requires forall line :: a(line) == b(line)
    ensures Run(lines, a) == Run(lines, b)
  {
    if lines != [] { RunSame(Init(lines), a, b); }
  }

  /** The filter gives the same output in whatever order the real table is iterated. */
  lemma TableOrderIrrelevant(lines: seq<string>, a: seq<Macro>, b: seq<Macro>, test: string -> bool,
                             evalexpr: string -> Condition)
    requires Iterates(a) && Iterates(b)
    ensures Run(lines, EvalWith(a, test, evalexpr)) == Run(lines, EvalWith(b, test, evalexpr))
  {
    TableLists(a, test);
    TableLists(b, test);
    var x, y := EvalWith(a, test, evalexpr), EvalWith(b, test, evalexpr);
    forall line: string ensures x(line) == y(line) {
      OrderIrrelevant(line, Entries(a, test), Entries(b, test), TableMap(test));
    }
    RunSame(lines, x, y);
  }

  /** A letter in capitals, `-` as `_`. */
  function Capital(c: char): char {
    if 'a' <= c <= 'z' then c - 'a' + 'A' else if c == '-' then '_' else c
  }

  function Capitals(s: string): string {
    seq(|s|, i requires 0 <= i < |s| => Capital(s[i]))
  }

  /** The feature and the macro are the same name, except for two. */
  predicate SameName(m: Macro) {
    m.suffix == Capitals(m.feature)
  }

  lemma ApiNames()
    ensures forall i | 1 <= i < |API_AND_AUTH| :: SameName(API_AND_AUTH[i])
  {
  }

  lemma LinkNames()
    ensures forall i | 0 <= i < 2 :: SameName(LINKS[i])
  {
  }

  lemma StreamNames()
    ensures forall i | 2 <= i < 5 :: SameName(LINKS[i])
  {
  }

  lemma UdpName()
    ensures SameName(MORE_LINKS[0]) && SameName(MORE_LINKS[2])
  {
  }

  lemma UnixName()
    ensures SameName(MORE_LINKS[1])
  {
  }

  lemma DatagramName()
    ensures SameName(MORE_LINKS[4])
  {
  }

  /** Every macro of the table is its feature's name in capitals, but for `unstable` and `transport_vsock`. */
  lemma NamesFollowFeatures(m: Macro)
    requires m in RUST_TO_C
    ensures SameName(m) || m == Macro("unstable", "UNSTABLE_API") || m == Macro("transport_vsock", "VSOCK")
  {
    ApiNames();
    LinkNames();
    StreamNames();
    UdpName();
    UnixName();
    DatagramName();
  }
}
