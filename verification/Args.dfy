/**
 The command line of the examples: options are consumed from `argv` in place, repeated
 options become a JSON list, and what is left over is positional.
 */
module Args {
  import opened Text

  /** An element of `argv`; `None` is a null pointer, what consuming leaves behind. */
  type Slot = Option<string>

  // ---------------------------------------------------------------- matching

  predicate Matches(slot: Slot, opt: string) {
    && slot.Some?
    && var a := slot.value;
       if |opt| == 1 then |a| == 2 && a[0] == '-' && a[1] == opt[0]
       else |opt| > 1 && |a| > 3 && a[0] == '-' && a[1] == '-' && opt <= a[2..]
  }

  /** A short option is matched by a dash and its letter and nothing else. */
  lemma ShortOptionForm(a: string, c: char)
    ensures Matches(Some(a), [c]) <==> a == ['-', c]
  {
  }

  /** The forms of a long option: `--flag`, and `--flag=value` for an option that takes a value. */
  predicate DocumentedForm(a: string, opt: string, hasValue: bool) {
    a == "--" + opt || (hasValue && "--" + opt + "=" <= a)
  }

  /** The argument begins with the long option and goes on as none of its forms does. */
  predicate GoesOn(a: string, opt: string, hasValue: bool) {
    "--" + opt <= a && |a| > |opt| + 2 && (hasValue ==> a[|opt| + 2] != '=')
  }

  /** A long option is matched by its beginning only: by its forms and by whatever goes on otherwise. */
  lemma LongOptionForms(a: string, opt: string, hasValue: bool)
    requires |opt| > 1
    ensures Matches(Some(a), opt) <==> DocumentedForm(a, opt, hasValue) || GoesOn(a, opt, hasValue)
    ensures !(DocumentedForm(a, opt, hasValue) && GoesOn(a, opt, hasValue))
  {
    var p := "--" + opt;
    if Matches(Some(a), opt) {
      assert a == a[..2] + a[2..] && a[..2] == "--";
    }
    if p <= a {
      assert a[2..|p|] == opt && a[0] == p[0] && a[1] == p[1];
      assert a[2..][..|opt|] == opt;
      if |a| > |p| && a[|p|] == '=' { assert a[..|p| + 1] == p + "="; }
    }
    if p + "=" <= a { assert (p + "=")[|p|] == '=' && p <= a; }
  }

  /** The first slot from `i` on that matches, or the number of slots. */
  function FirstMatch(argv: seq<Slot>, opt: string, i: nat): (k: nat)
    requires i <= |argv|
    ensures i <= k <= |argv|
    ensures forall j | i <= j < k :: !Matches(argv[j], opt)
    ensures k < |argv| ==> Matches(argv[k], opt)
    decreases |argv| - i
  {
    if i < |argv| && !Matches(argv[i], opt) then FirstMatch(argv, opt, i + 1) else i
  }

  // ---------------------------------------------------------------- one option

  datatype Parsed = Absent | Flag | Value(value: string) | Exit

  /** The value is part of the argument: only the long form may carry one. */
  predicate Inline(a: string, opt: string) {
    |opt| > 1 && '=' in a
  }

  /** Consumes the matching slot `i`, and the next one when it holds the value. */
  function TakeAt(argv: seq<Slot>, opt: string, i: nat): (Parsed, seq<Slot>)
    requires i < |argv| && argv[i].Some?
  {
    var a := argv[i].value;
    if Inline(a, opt) then (Value(a[IndexOf(a, '=') + 1..]), argv[i := None])
    else if i + 1 < |argv| && argv[i + 1].Some? then (Value(argv[i + 1].value), argv[i := None][i + 1 := None])
    else (Exit, argv)
  }

  /** Where a taken value comes from, and that nothing else is touched. */
  lemma TakenValue(argv: seq<Slot>, opt: string, i: nat)
    requires i < |argv| && Matches(argv[i], opt) && TakeAt(argv, opt, i).0.Value?
    ensures var (r, after) := TakeAt(argv, opt, i);
            var a := argv[i].value;
            if Inline(a, opt) then
              && after == argv[i := None]
              && exists left :: a == left + "=" + r.value && '=' !in left
            else
              && i + 1 < |argv| && argv[i + 1] == Some(r.value)
              && after == argv[..i] + [None, None] + argv[i + 2..]
  {
    var a := argv[i].value;
    if Inline(a, opt) {
      var k := IndexOf(a, '=');
      assert a == a[..k] + [a[k]] + a[k + 1..];
      assert '=' !in a[..k];
    }
  }

  /** `parse_opt` */
  function ParseOpt(argv: seq<Slot>, opt: string, hasValue: bool): (Parsed, seq<Slot>) {
    if argv == [] then (Absent, argv) else
    var i := FirstMatch(argv, opt, 1);
    if i == |argv| then (Absent, argv)
    else if !hasValue then (Flag, argv[i := None])
    else TakeAt(argv, opt, i)
  }

  // ---------------------------------------------------------------- the documented forms only

  predicate Documented(slot: Slot, opt: string, hasValue: bool) {
    && slot.Some?
    && if |opt| == 1 then slot.value == "-" + opt else |opt| > 1 && DocumentedForm(slot.value, opt, hasValue)
  }

  function FirstDocumented(argv: seq<Slot>, opt: string, hasValue: bool, i: nat): (k: nat)
    requires i <= |argv|
    ensures i <= k <= |argv|
    ensures forall j | i <= j < k :: !Documented(argv[j], opt, hasValue)
    ensures k < |argv| ==> Documented(argv[k], opt, hasValue)
    decreases |argv| - i
  {
    if i < |argv| && !Documented(argv[i], opt, hasValue) then FirstDocumented(argv, opt, hasValue, i + 1) else i
  }

  /** No argument follows slot `i`. */
  predicate NoneFollows(argv: seq<Slot>, i: nat) {
    !(i + 1 < |argv| && argv[i + 1].Some?)
  }

  /** The value is what follows the option and its `=`, or the next argument. */
  function TakeDocumented(argv: seq<Slot>, opt: string, i: nat): (Parsed, seq<Slot>)
    requires i < |argv| && Documented(argv[i], opt, true)
  {
    var a := argv[i].value;
    if |opt| > 1 && "--" + opt + "=" <= a then (Value(a[|opt| + 3..]), argv[i := None])
    else if NoneFollows(argv, i) then (Exit, argv)
    else (Value(argv[i + 1].value), argv[i := None][i + 1 := None])
  }

  /**
   A parser that accepts `-f` and `--flag`, each followed by its value if it takes one, or
   `--flag=value` if it takes one, and nothing else.
   */
  function ParseDocumented(argv: seq<Slot>, opt: string, hasValue: bool): (Parsed, seq<Slot>) {
    if argv == [] then (Absent, argv) else
    var i := FirstDocumented(argv, opt, hasValue, 1);
    if i == |argv| then (Absent, argv)
    else if !hasValue then (Flag, argv[i := None])
    else TakeDocumented(argv, opt, i)
  }

  lemma DocumentedMatches(slot: Slot, opt: string, hasValue: bool)
    ensures Documented(slot, opt, hasValue) ==> Matches(slot, opt)
    ensures Matches(slot, opt) ==> (Documented(slot, opt, hasValue) <==> !GoesOn(slot.value, opt, hasValue))
  {
    if slot.Some? && |opt| > 1 { LongOptionForms(slot.value, opt, hasValue); }
  }

  /** No documented form comes before the first match; they are the same slot unless its argument goes on. */
  lemma FirstDocumentedAfter(argv: seq<Slot>, opt: string, hasValue: bool)
    requires argv != []
    ensures var k, d := FirstMatch(argv, opt, 1), FirstDocumented(argv, opt, hasValue, 1);
            k <= d && (k < |argv| ==> (k == d <==> !GoesOn(argv[k].value, opt, hasValue)))
  {
    var k, d := FirstMatch(argv, opt, 1), FirstDocumented(argv, opt, hasValue, 1);
    if d < |argv| { DocumentedMatches(argv[d], opt, hasValue); }
    if k < |argv| { DocumentedMatches(argv[k], opt, hasValue); }
  }

  /** The first `=` of a form stands where it should, unless the name of the option holds one. */
  lemma FirstEquals(a: string, opt: string)
    requires |opt| > 1 && DocumentedForm(a, opt, true)
    ensures '=' !in opt && a == "--" + opt ==> '=' !in a
    ensures '=' !in opt && "--" + opt + "=" <= a ==> '=' in a && IndexOf(a, '=') == |opt| + 2
    ensures '=' in opt ==> '=' in a && IndexOf(a, '=') < |opt| + 2
  {
    var p := "--" + opt;
    assert forall j | 0 <= j < |opt| :: a[j + 2] == p[j + 2] == opt[j];
    assert a[0] == p[0] && a[1] == p[1];
    if "--" + opt + "=" <= a {
      assert a[|p|] == (p + "=")[|p|];
      if '=' !in opt { IndexOfUnique(a, '=', |p|); }
    }
    if '=' in opt {
      var j :| 0 <= j < |opt| && opt[j] == '=';
      assert a[j + 2] == '=';
    }
  }

  /** A documented form gives the same value unless the name of the option holds `=`. */
  lemma TakesDocumented(argv: seq<Slot>, opt: string, i: nat)
    requires i < |argv| && Documented(argv[i], opt, true)
    ensures TakeAt(argv, opt, i) == TakeDocumented(argv, opt, i) <==> !(|opt| > 1 && '=' in opt)
  {
    if |opt| > 1 {
      FirstEquals(argv[i].value, opt);
      if '=' in opt { EqualsInName(argv, opt, i); }
    }
  }

  lemma EqualsInName(argv: seq<Slot>, opt: string, i: nat)
    requires i < |argv| && Documented(argv[i], opt, true) && |opt| > 1 && '=' in opt
    ensures TakeAt(argv, opt, i) != TakeDocumented(argv, opt, i)
  {
    var a := argv[i].value;
    FirstEquals(a, opt);
    var k := IndexOf(a, '=');
    if "--" + opt + "=" <= a {
      assert |a[k + 1..]| > |a[|opt| + 3..]|;
    } else if !NoneFollows(argv, i) {
      assert TakeAt(argv, opt, i).1[i + 1].Some? && TakeDocumented(argv, opt, i).1[i + 1].None?;
    }
  }

  /** The first match has no value and neither has the first documented form, so both parsers exit. */
  predicate BothExit(argv: seq<Slot>, opt: string)
    requires argv != []
  {
    var k, d := FirstMatch(argv, opt, 1), FirstDocumented(argv, opt, true, 1);
    && k < d < |argv|
    && '=' !in argv[k].value && NoneFollows(argv, k)
    && argv[d].value == "--" + opt && NoneFollows(argv, d)
  }

  /**
   `parse_opt` returns and consumes what a parser of the documented forms would if and only if
   nothing matches, or the first argument it matches does not go on after the option (and, where
   a value is taken, the name holds no `=`), or both parsers exit for want of a value.
   */
  lemma ParsesDocumented(argv: seq<Slot>, opt: string, hasValue: bool)
    requires argv != []
    ensures var k := FirstMatch(argv, opt, 1);
            ParseOpt(argv, opt, hasValue) == ParseDocumented(argv, opt, hasValue) <==>
            || k == |argv|
            || (!GoesOn(argv[k].value, opt, hasValue) && !(hasValue && |opt| > 1 && '=' in opt))
            || (hasValue && BothExit(argv, opt))
  {
    var k, d := FirstMatch(argv, opt, 1), FirstDocumented(argv, opt, hasValue, 1);
    FirstDocumentedAfter(argv, opt, hasValue);
    if k < |argv| {
      if k == d {
        if hasValue { TakesDocumented(argv, opt, k); }
      } else if ExitsAt(argv, opt, hasValue, k) {
        ExitsAlike(argv, opt);
      } else {
        WrongOptionConsumed(argv, opt, hasValue);
      }
    }
  }

  /** There is a value to take and none is found. */
  predicate ExitsAt(argv: seq<Slot>, opt: string, hasValue: bool, k: nat)
    requires k < |argv| && argv[k].Some?
  {
    hasValue && !Inline(argv[k].value, opt) && NoneFollows(argv, k)
  }

  lemma ExitsAlike(argv: seq<Slot>, opt: string)
    requires argv != []
    requires var k := FirstMatch(argv, opt, 1);
             k < |argv| && GoesOn(argv[k].value, opt, true) && ExitsAt(argv, opt, true, k)
    ensures ParseOpt(argv, opt, true) == ParseDocumented(argv, opt, true) <==> BothExit(argv, opt)
  {
    var k := FirstMatch(argv, opt, 1);
    FirstDocumentedAfter(argv, opt, true);
    GoesOnIsLong(argv[k], opt, true);
  }

  lemma GoesOnIsLong(slot: Slot, opt: string, hasValue: bool)
    requires Matches(slot, opt) && GoesOn(slot.value, opt, hasValue)
    ensures |opt| > 1
  {
  }

  /** Otherwise an argument that is no form of the option is consumed. */
  lemma WrongOptionConsumed(argv: seq<Slot>, opt: string, hasValue: bool)
    requires argv != []
    requires var k := FirstMatch(argv, opt, 1);
             k < |argv| && GoesOn(argv[k].value, opt, hasValue) && !ExitsAt(argv, opt, hasValue, k)
    ensures var k := FirstMatch(argv, opt, 1);
            && ParseOpt(argv, opt, hasValue).0 != Exit && ParseOpt(argv, opt, hasValue).1[k] == None
            && |ParseDocumented(argv, opt, hasValue).1| == |argv|
            && ParseDocumented(argv, opt, hasValue).1[k] == argv[k] && argv[k].Some?
  {
    FirstDocumentedAfter(argv, opt, hasValue);
  }

  /** `--keyboard=x` is taken for `--key`, and no unknown option is left to report. */
  lemma KeyboardIsKey()
    ensures var argv := [Some("prog"), Some("--keyboard=x")];
            && ParseOpt(argv, "key", true) == (Value("x"), [Some("prog"), None])
            && ParseDocumented(argv, "key", true) == (Absent, argv)
  {
    var argv: seq<Slot> := [Some("prog"), Some("--keyboard=x")];
    var a := "--keyboard=x";
    assert "key" <= a[2..];
    assert FirstMatch(argv, "key", 1) == 1;
    IndexOfUnique(a, '=', 10);
    assert a[10] == '=' && '=' in a && a[11..] == "x";
    LongOptionForms(a, "key", true);
    assert GoesOn(a, "key", true);
    assert FirstDocumented(argv, "key", true, 1) == 2;
    assert Inline(a, "key") && argv[1 := None] == [Some("prog"), None];
    assert TakeAt(argv, "key", 1) == (Value("x"), argv[1 := None]);
  }

  /** `--complete=false` turns the flag on, and no unknown option is left to report. */
  lemma CompleteFalseIsComplete()
    ensures var argv := [Some("prog"), Some("--complete=false")];
            && ParseOpt(argv, "complete", false) == (Flag, [Some("prog"), None])
            && ParseDocumented(argv, "complete", false) == (Absent, argv)
  {
    var argv: seq<Slot> := [Some("prog"), Some("--complete=false")];
    var a := "--complete=false";
    assert "complete" <= a[2..];
    assert FirstMatch(argv, "complete", 1) == 1;
    LongOptionForms(a, "complete", false);
    assert "--" + "complete" == "--complete" && "--complete" <= a;
    assert GoesOn(a, "complete", false);
    assert FirstDocumented(argv, "complete", false, 1) == 2;
    assert argv[1 := None] == [Some("prog"), None];
  }

  method ParseOptInPlace(argv: array<Slot>, opt: string, hasValue: bool) returns (r: Parsed)
    modifies argv
    ensures r == ParseOpt(old(argv[..]), opt, hasValue).0
    ensures r != Exit ==> argv[..] == ParseOpt(old(argv[..]), opt, hasValue).1
  {
    ghost var before := argv[..];
    var i := 1;
    while i < argv.Length
      invariant argv[..] == before && (argv.Length > 0 ==> 1 <= i <= argv.Length)
      invariant argv.Length > 0 ==> FirstMatch(before, opt, 1) == FirstMatch(before, opt, i)
    {
      var slot := argv[i];
      if Matches(slot, opt) {
        argv[i] := None;
        if !hasValue { return Flag; }
        if |opt| > 1 && '=' in slot.value { return Value(slot.value[IndexOf(slot.value, '=') + 1..]); }
        if i + 1 < argv.Length && argv[i + 1].Some? {
          var value := argv[i + 1].value;
          argv[i + 1] := None;
          return Value(value);
        }
        return Exit;
      }
      i := i + 1;
    }
    return Absent;
  }

  /** `_Z_PARSE_ARG`: the short form first, the long one if there is none. */
  function ParseArg(argv: seq<Slot>, short: string, long: string): (Parsed, seq<Slot>) {
    var s := ParseOpt(argv, short, true);
    if s.0.Absent? then ParseOpt(argv, long, true) else s
  }

  // ---------------------------------------------------------------- what parsing leaves behind

  /** Slots are kept or nulled, and the program name is not touched. */
  predicate Consumes(before: seq<Slot>, after: seq<Slot>) {
    && |before| == |after|
    && (forall i | 0 <= i < |before| :: after[i] == before[i] || after[i] == None)
    && (before != [] ==> after[0] == before[0])
  }

  function Count(argv: seq<Slot>): nat {
    if argv == [] then 0 else Count(Init(argv)) + if Last(argv).Some? then 1 else 0
  }

  lemma {:induction false} NullOne(argv: seq<Slot>, i: nat)
    requires i < |argv| && argv[i].Some?
    ensures Count(argv[i := None]) == Count(argv) - 1
  {
    var after := argv[i := None];
    if i == |argv| - 1 {
      assert Init(after) == Init(argv);
    } else {
      assert Init(after) == Init(argv)[i := None];
      NullOne(Init(argv), i);
    }
  }

  /** A parse nulls slots only; one that finds something nulls at least one. */
  lemma ParseConsumes(argv: seq<Slot>, opt: string, hasValue: bool)
    ensures Consumes(argv, ParseOpt(argv, opt, hasValue).1)
    ensures var r := ParseOpt(argv, opt, hasValue);
            r.0.Flag? || r.0.Value? ==> Count(r.1) < Count(argv)
    ensures ParseOpt(argv, opt, hasValue).0.Absent? ==> ParseOpt(argv, opt, hasValue).1 == argv
  {
    if argv != [] {
      var i := FirstMatch(argv, opt, 1);
      if i < |argv| {
        NullOne(argv, i);
        if i + 1 < |argv| && argv[i + 1].Some? { NullOne(argv[i := None], i + 1); }
      }
    }
  }

  // ---------------------------------------------------------------- repeated options

  datatype Collected = Collected(values: seq<string>, argv: seq<Slot>) | Exits

  /** The repeat-until-null loop. */
  function Repeat(argv: seq<Slot>, short: string, long: string): Collected
    decreases Count(argv)
  {
    ParseConsumes(argv, short, true);
    ParseConsumes(argv, long, true);
    var r := ParseArg(argv, short, long);
    match r.0
    case Exit => Exits
    case Value(v) =>
      (match Repeat(r.1, short, long)
       case Exits => Exits
       case Collected(vs, rest) => Collected([v] + vs, rest))
    case _ => Collected([], argv)
  }

  /** One pass from left to right that takes the value of every occurrence of one option. */
  function Pass(argv: seq<Slot>, opt: string, i: nat): (r: Collected)
    requires i <= |argv|
    ensures r.Collected? ==> |r.argv| == |argv|
    decreases |argv| - i
  {
    if i == |argv| then Collected([], argv)
    else if !Matches(argv[i], opt) then Pass(argv, opt, i + 1)
    else
      var t := TakeAt(argv, opt, i);
      match t.0
      case Value(v) =>
        (match Pass(t.1, opt, i + 1)
         case Exits => Exits
         case Collected(vs, rest) => Collected([v] + vs, rest))
      case _ => Exits
  }

  lemma {:induction false} PassSkips(argv: seq<Slot>, opt: string, i: nat, k: nat)
    requires i <= k <= |argv| && forall j | i <= j < k :: !Matches(argv[j], opt)
    ensures Pass(argv, opt, i) == Pass(argv, opt, k)
    decreases k - i
  {
    if i < k { PassSkips(argv, opt, i + 1, k); }
  }

  /** Scanning again from the start finds the next occurrence: nothing before it matches. */
  lemma PassRestarts(argv: seq<Slot>, opt: string)
    requires argv != []
    ensures var r := ParseOpt(argv, opt, true);
            match r.0
            case Absent => Pass(argv, opt, 1) == Collected([], argv)
            case Value(v) =>
              |r.1| == |argv| &&
              (match Pass(r.1, opt, 1)
               case Exits => Pass(argv, opt, 1) == Exits
               case Collected(vs, rest) => Pass(argv, opt, 1) == Collected([v] + vs, rest))
            case _ => Pass(argv, opt, 1) == Exits
  {
    var k := FirstMatch(argv, opt, 1);
    PassSkips(argv, opt, 1, k);
    if k < |argv| {
      var t := TakeAt(argv, opt, k);
      if t.0.Value? {
        assert forall j | 1 <= j < k + 1 :: !Matches(t.1[j], opt);
        PassSkips(t.1, opt, 1, k + 1);
      }
    }
  }

  /** What stands behind the first `=`. */
  predicate Behind(a: string, v: string) {
    exists k | 0 <= k < |a| :: a[k] == '=' && '=' !in a[..k] && v == a[k + 1..]
  }

  /** The value of the option at position `j`: behind its `=`, or the next argument. */
  predicate ValueAt(argv: seq<Slot>, opt: string, j: nat, v: string) {
    && j < |argv| && Matches(argv[j], opt)
    && if Inline(argv[j].value, opt) then Behind(argv[j].value, v)
       else j + 1 < |argv| && argv[j + 1] == Some(v)
  }

  /** The values are those at the positions `at`, in increasing order. */
  predicate InOrder(argv: seq<Slot>, opt: string, i: nat, at: seq<nat>, values: seq<string>) {
    && |at| == |values|
    && (forall k | 0 <= k < |at| :: i <= at[k] && ValueAt(argv, opt, at[k], values[k]))
    && (forall k, l | 0 <= k < l < |at| :: at[k] < at[l])
  }

  /** Every match from `i` on is taken, or is itself the value of the match before it. */
  predicate Covers(argv: seq<Slot>, opt: string, i: nat, at: seq<nat>) {
    forall j: nat | i <= j < |argv| && Matches(argv[j], opt) ::
      j in at || (j > 0 && j - 1 in at && argv[j - 1].Some? && !Inline(argv[j - 1].value, opt))
  }

  lemma TakenAt(argv: seq<Slot>, opt: string, i: nat)
    requires i < |argv| && Matches(argv[i], opt) && TakeAt(argv, opt, i).0.Value?
    ensures ValueAt(argv, opt, i, TakeAt(argv, opt, i).0.value)
    ensures var after := TakeAt(argv, opt, i).1;
            && |after| == |argv| && after[i] == None && (forall j | i + 1 < j < |argv| :: after[j] == argv[j])
            && (i + 1 < |argv| ==> after[i + 1] == if Inline(argv[i].value, opt) then argv[i + 1] else None)
  {
    var a := argv[i].value;
    if Inline(a, opt) { assert '=' !in a[..IndexOf(a, '=')]; }
  }

  lemma InOrderCons(argv: seq<Slot>, after: seq<Slot>, opt: string, i: nat, v: string, at: seq<nat>, vs: seq<string>)
    requires ValueAt(argv, opt, i, v) && |after| == |argv| && InOrder(after, opt, i + 1, at, vs)
    requires forall j | i + 1 < j < |argv| :: after[j] == argv[j]
    requires i + 1 < |argv| ==> after[i + 1] == argv[i + 1] || after[i + 1] == None
    ensures InOrder(argv, opt, i, [i] + at, [v] + vs)
  {
    forall k | 0 <= k < |at| ensures ValueAt(argv, opt, at[k], vs[k]) {
      assert ValueAt(after, opt, at[k], vs[k]);
    }
  }

  lemma CoversCons(argv: seq<Slot>, after: seq<Slot>, opt: string, i: nat, at: seq<nat>)
    requires i < |argv| == |after| && Matches(argv[i], opt) && Covers(after, opt, i + 1, at)
    requires forall k | 0 <= k < |at| :: at[k] > i && at[k] < |argv| && Matches(after[at[k]], opt)
    requires forall j | i + 1 < j < |argv| :: after[j] == argv[j]
    requires i + 1 < |argv| ==> after[i + 1] == if Inline(argv[i].value, opt) then argv[i + 1] else None
    ensures Covers(argv, opt, i, [i] + at)
  {
    forall j: nat | i < j < |argv| && Matches(argv[j], opt)
      ensures j in [i] + at ||
              (j > 0 && j - 1 in [i] + at && argv[j - 1].Some? && !Inline(argv[j - 1].value, opt))
    {
      assert i in [i] + at;
      if after[j] == argv[j] && j !in at {
        assert j - 1 in at;
        var k :| 0 <= k < |at| && at[k] == j - 1;
        assert after[j - 1] == argv[j - 1];
      }
    }
  }

  /** A pass takes the values from left to right and leaves no occurrence out. */
  lemma {:induction false} PassInOrder(argv: seq<Slot>, opt: string, i: nat) returns (at: seq<nat>)
    requires i <= |argv| && Pass(argv, opt, i).Collected?
    ensures InOrder(argv, opt, i, at, Pass(argv, opt, i).values) && Covers(argv, opt, i, at)
    decreases |argv| - i
  {
    if i == |argv| {
      at := [];
    } else if !Matches(argv[i], opt) {
      at := PassInOrder(argv, opt, i + 1);
    } else {
      var t := TakeAt(argv, opt, i);
      TakenAt(argv, opt, i);
      at := PassInOrder(t.1, opt, i + 1);
      InOrderCons(argv, t.1, opt, i, t.0.value, at, Pass(t.1, opt, i + 1).values);
      assert forall k | 0 <= k < |at| :: ValueAt(t.1, opt, at[k], Pass(t.1, opt, i + 1).values[k]);
      CoversCons(argv, t.1, opt, i, at);
      at := [i] + at;
    }
  }

  /** All short-form values, then all long-form values. */
  function TwoPasses(argv: seq<Slot>, short: string, long: string): Collected {
    if argv == [] then Collected([], argv)
    else
      match Pass(argv, short, 1)
      case Exits => Exits
      case Collected(vs, rest) =>
        match Pass(rest, long, 1)
        case Exits => Exits
        case Collected(ws, left) => Collected(vs + ws, left)
  }

  predicate NoMatch(argv: seq<Slot>, opt: string) {
    forall j | 1 <= j < |argv| :: !Matches(argv[j], opt)
  }

  lemma ConsumingKeepsNoMatch(before: seq<Slot>, after: seq<Slot>, opt: string)
    requires Consumes(before, after) && NoMatch(before, opt)
    ensures NoMatch(after, opt)
  {
  }

  lemma AbsentMeansNoMatch(argv: seq<Slot>, opt: string)
    ensures ParseOpt(argv, opt, true).0.Absent? <==> NoMatch(argv, opt)
  {
    if argv != [] {
      var k := FirstMatch(argv, opt, 1);
      assert k < |argv| ==> !ParseOpt(argv, opt, true).0.Absent?;
    }
  }

  /** Once the short form is used up, the loop is a pass over the long form. */
  lemma {:induction false} RepeatLong(argv: seq<Slot>, short: string, long: string)
    requires argv != [] && NoMatch(argv, short)
    ensures Repeat(argv, short, long) == Pass(argv, long, 1)
    decreases Count(argv)
  {
    AbsentMeansNoMatch(argv, short);
    ParseConsumes(argv, long, true);
    PassRestarts(argv, long);
    var r := ParseOpt(argv, long, true);
    if r.0.Value? {
      ConsumingKeepsNoMatch(argv, r.1, short);
      RepeatLong(r.1, short, long);
    }
  }

  /**
   The repeated-option loop, which starts over from the first argument every time, takes
   every short-form value in order of appearance and then every long-form value in order
   of appearance, and exits exactly when one of the two passes meets an option without a
   value.
   */
  lemma {:induction false} RepeatIsTwoPasses(argv: seq<Slot>, short: string, long: string)
    ensures Repeat(argv, short, long) == TwoPasses(argv, short, long)
    decreases Count(argv)
  {
    if argv != [] {
      AbsentMeansNoMatch(argv, short);
      ParseConsumes(argv, short, true);
      PassRestarts(argv, short);
      var r := ParseOpt(argv, short, true);
      if r.0.Value? {
        RepeatIsTwoPasses(r.1, short, long);
        if Repeat(r.1, short, long).Collected? {
          var mine := Pass(r.1, short, 1);
          Prepend(r.0.value, mine.values, Pass(mine.argv, long, 1).values);
        }
      } else if r.0.Absent? {
        RepeatLong(argv, short, long);
      }
    }
  }

  lemma Prepend(v: string, vs: seq<string>, ws: seq<string>)
    ensures [v] + (vs + ws) == ([v] + vs) + ws
  {
  }

  // ---------------------------------------------------------------- the JSON list

  /** `snprintf` into a buffer of `size` bytes: what is kept, the final NUL not counted. */
  function Snprintf(size: nat, text: string): string {
    if |text| < size then text else if size == 0 then "" else text[..size - 1]
  }

  /** The values, each in quotes and followed by a comma. */
  function Quoted(values: seq<string>): string {
    if values == [] then "" else Quoted(Init(values)) + "'" + Last(values) + "',"
  }

  /** The values, each in quotes, with commas between. */
  function CommaJoined(values: seq<string>): string {
    if values == [] then ""
    else (if |values| == 1 then "" else CommaJoined(Init(values)) + ",") + "'" + Last(values) + "'"
  }

  /** The values as the examples write a JSON list: in single quotes, nothing escaped. */
  function JsonList(values: seq<string>): string {
    "[" + CommaJoined(values) + "]"
  }

  lemma {:induction false} QuotedIsJoined(values: seq<string>)
    requires values != []
    ensures Quoted(values) == CommaJoined(values) + ","
  {
    if |values| == 1 {
      assert Init(values) == [];
      assert Quoted(values) == "" + "'" + Last(values) + "',";
    } else {
      QuotedIsJoined(Init(values));
      assert "'" + Last(values) + "'," == "'" + Last(values) + "'" + ",";
    }
  }

  predicate NoQuotes(values: seq<string>) {
    forall i | 0 <= i < |values| :: '\'' !in values[i]
  }

  /** What stands before the last value. */
  function Before(values: seq<string>): string
    requires values != []
  {
    if |values| == 1 then "" else CommaJoined(Init(values)) + ","
  }

  /** The last value stands between the last two quotes. */
  lemma LastValueLength(p: string, x: string, q: string, y: string)
    requires p + "'" + x + "'" == q + "'" + y + "'" && '\'' !in y
    ensures |y| <= |x|
  {
    var s := p + "'" + x + "'";
    assert s[|p|] == '\'';
    assert forall j | 0 <= j < |y| :: s[|q| + 1 + j] == y[j] && y[j] in y;
  }

  lemma LastValueSplits(a: seq<string>, b: seq<string>)
    requires a != [] && b != [] && NoQuotes(a) && NoQuotes(b) && CommaJoined(a) == CommaJoined(b)
    ensures Last(a) == Last(b) && Before(a) == Before(b)
  {
    var p, q := Before(a), Before(b);
    LastValueLength(p, Last(a), q, Last(b));
    LastValueLength(q, Last(b), p, Last(a));
    var s := CommaJoined(a);
    assert s[..|p|] == p && s[..|p|] == q;
    assert s[|p| + 1..|s| - 1] == Last(a) && s[|p| + 1..|s| - 1] == Last(b);
  }

  lemma {:induction false} JoinedDetermines(a: seq<string>, b: seq<string>)
    requires NoQuotes(a) && NoQuotes(b) && CommaJoined(a) == CommaJoined(b)
    ensures a == b
    decreases |a|
  {
    if a != [] && b != [] {
      LastValueSplits(a, b);
      if |a| > 1 && |b| > 1 {
        assert Before(a)[..|Before(a)| - 1] == CommaJoined(Init(a));
        assert Before(b)[..|Before(b)| - 1] == CommaJoined(Init(b));
        JoinedDetermines(Init(a), Init(b));
      }
      assert a == Init(a) + [Last(a)] && b == Init(b) + [Last(b)];
    }
  }

  /** Values without a quote can be told from the list. */
  lemma ListDetermines(a: seq<string>, b: seq<string>)
    requires NoQuotes(a) && NoQuotes(b) && JsonList(a) == JsonList(b)
    ensures a == b
  {
    assert JsonList(a)[1..|JsonList(a)| - 1] == CommaJoined(a);
    assert JsonList(b)[1..|JsonList(b)| - 1] == CommaJoined(b);
    JoinedDetermines(a, b);
  }

  /** A value with quotes can pass for two values: nothing is escaped. */
  lemma QuotesForge()
    ensures JsonList(["a','b"]) == JsonList(["a", "b"]) == "['a','b']"
  {
    assert Init(["a", "b"]) == ["a"] && Init(["a"]) == [];
    assert CommaJoined(["a"]) == "'a'";
    assert CommaJoined(["a", "b"]) == "'a','b'";
    assert CommaJoined(["a','b"]) == "'a','b'";
  }

  datatype Listed = ListOf(json: string) | Nothing | ExitsEarly

  /** One round of `_Z_PARSE_ARG` on the array. */
  method ParseArgInPlace(argv: array<Slot>, short: string, long: string) returns (r: Parsed)
    modifies argv
    ensures r == ParseArg(old(argv[..]), short, long).0
    ensures r != Exit ==> argv[..] == ParseArg(old(argv[..]), short, long).1
  {
    ParseConsumes(argv[..], short, true);
    r := ParseOptInPlace(argv, short, true);
    if r.Absent? { r := ParseOptInPlace(argv, long, true); }
  }

  /** What the loop still has to do, given what it has collected. */
  ghost predicate Remaining(all: Collected, got: seq<string>, r: Parsed, now: seq<Slot>, short: string, long: string) {
    match r
    case Value(v) =>
      (match Repeat(now, short, long)
       case Exits => all == Exits
       case Collected(vs, rest) => all == Collected(got + ([v] + vs), rest))
    case Exit => all == Exits
    case _ => all == Collected(got, now)
  }

  lemma RemainingStep(all: Collected, got: seq<string>, v: string, now: seq<Slot>, short: string, long: string)
    requires Remaining(all, got, Value(v), now, short, long)
    ensures var r := ParseArg(now, short, long); Remaining(all, got + [v], r.0, r.1, short, long)
  {
    ParseConsumes(now, short, true);
    ParseConsumes(now, long, true);
    var r := ParseArg(now, short, long);
    FormIsValue(now, short, long);
    if r.0.Value? {
      var next := Repeat(r.1, short, long);
      if next.Collected? {
        assert got + ([v] + ([r.0.value] + next.values)) ==
               (got + [v]) + ([r.0.value] + next.values);
      }
    } else if r.0.Absent? {
      assert got + ([v] + []) == got + [v];
    }
  }

  lemma FormIsValue(argv: seq<Slot>, short: string, long: string)
    ensures !ParseArg(argv, short, long).0.Flag?
    ensures ParseArg(argv, short, long).0.Absent? ==> ParseArg(argv, short, long).1 == argv
  {
  }

  /**
   `parse_zenoh_json_list_config` up to the insertion of the list: every buffer is exactly
   as long as what is written to it, so nothing is ever cut off.
   */
  method CollectJsonList(argv: array<Slot>, short: string, long: string) returns (r: Listed)
    modifies argv
    ensures match TwoPasses(old(argv[..]), short, long)
            case Exits => r == ExitsEarly
            case Collected(vs, rest) => argv[..] == rest && r == if vs == [] then Nothing else ListOf(JsonList(vs))
  {
    RepeatIsTwoPasses(argv[..], short, long);
    ghost var all := Repeat(argv[..], short, long);
    ghost var got: seq<string> := [];
    FormIsValue(argv[..], short, long);
    ParseConsumes(argv[..], short, true);
    ParseConsumes(argv[..], long, true);
    var buf := "";
    var value := ParseArgInPlace(argv, short, long);
    while value.Value?
      invariant buf == Quoted(got) && !value.Flag?
      invariant value != Exit ==> Remaining(all, got, value, argv[..], short, long)
      invariant value == Exit ==> all == Exits
      decreases value.Value?, Count(argv[..])
    {
      var size := |buf| + |value.value| + 4;
      var text := buf + "'" + value.value + "',";
      assert |text| == size - 1;
      RemainingStep(all, got, value.value, argv[..], short, long);
      FormIsValue(argv[..], short, long);
      ParseConsumes(argv[..], short, true);
      ParseConsumes(argv[..], long, true);
      assert Init(got + [value.value]) == got;
      got := got + [value.value];
      buf := Snprintf(size, text);
      value := ParseArgInPlace(argv, short, long);
    }
    if value.Exit? { return ExitsEarly; }
    if |buf| == 0 {
      assert got == [];
      return Nothing;
    }
    QuotedIsJoined(got);
    var trimmed := buf[..|buf| - 1];
    var json := "[" + trimmed + "]";
    assert |json| == (|trimmed| + 3) - 1;
    return ListOf(Snprintf(|trimmed| + 3, json));
  }

  // ---------------------------------------------------------------- what is left

  /** `check_unknown_opts`: the first argument left that looks like an option. */
  method CheckUnknownOpts(argv: array<Slot>) returns (r: Option<string>)
    ensures r.None? <==> forall i | 1 <= i < argv.Length :: !(argv[i].Some? && "-" <= argv[i].value)
    ensures r.Some? ==> exists i | 1 <= i < argv.Length ::
              argv[i] == r && "-" <= r.value && forall j | 1 <= j < i :: !(argv[j].Some? && "-" <= argv[j].value)
  {
    var i := 1;
    while i < argv.Length
      invariant 1 <= i && forall j | 1 <= j < i && j < argv.Length :: !(argv[j].Some? && "-" <= argv[j].value)
    {
      if argv[i].Some? && |argv[i].value| > 0 && argv[i].value[0] == '-' { return argv[i]; }
      i := i + 1;
    }
    return None;
  }

  /** The arguments that are left, in order, the program name not counted. */
  function Survivors(argv: seq<Slot>): seq<string> {
    if |argv| <= 1 then []
    else Survivors(Init(argv)) + match Last(argv) case Some(a) => [a] case None => []
  }

  /** `parse_pos_args`: exactly the survivors, padded with nulls, unless there are too many. */
  method ParsePosArgs(argv: array<Slot>, nb: nat) returns (r: Option<array<Slot>>)
    ensures r.None? <==> |Survivors(argv[..])| > nb
    ensures r.Some? ==> fresh(r.value) && r.value.Length == nb
    ensures r.Some? ==> forall k | 0 <= k < r.value.Length ::
              r.value[k] == if k < |Survivors(argv[..])| then Some(Survivors(argv[..])[k]) else None
  {
    var pos := new Slot[nb](_ => None);
    var n := 0;
    var i := 1;
    while i < argv.Length
      invariant 1 <= i && (argv.Length > 0 ==> i <= argv.Length)
      invariant i <= argv.Length ==> n == |Survivors(argv[..i])| <= nb
      invariant argv.Length == 0 ==> n == 0
      invariant i <= argv.Length ==> forall k | 0 <= k < nb ::
                  pos[k] == if k < n then Some(Survivors(argv[..i])[k]) else None
      invariant argv.Length == 0 ==> forall k | 0 <= k < nb :: pos[k] == None
    {
      assert Init(argv[..i + 1]) == argv[..i];
      if argv[i].Some? {
        n := n + 1;
        if n > nb {
          SurvivorsGrow(argv[..], i + 1);
          return None;
        }
        pos[n - 1] := argv[i];
      }
      i := i + 1;
    }
    assert argv[..argv.Length] == argv[..];
    return Some(pos);
  }

  lemma {:induction false} SurvivorsGrow(argv: seq<Slot>, k: nat)
    requires 1 <= k <= |argv|
    ensures |Survivors(argv[..k])| <= |Survivors(argv)|
    decreases |argv|
  {
    if k == |argv| {
      assert argv[..k] == argv;
    } else {
      assert Init(argv)[..k] == argv[..k];
      SurvivorsGrow(Init(argv), k);
    }
  }

  /** The slots before `n`, the first not counted, that are not null. */
  function PresentBefore(argv: seq<Slot>, n: nat): set<nat>
    requires n <= |argv|
  {
    set j: nat | 1 <= j < n && argv[j].Some?
  }

  lemma PresentSnoc(argv: seq<Slot>, n: nat)
    requires 1 <= n < |argv|
    ensures PresentBefore(argv, n + 1) == PresentBefore(argv, n) + if argv[n].Some? then {n} else {}
    ensures n < |argv| - 1 ==> PresentBefore(Init(argv), n + 1) == PresentBefore(argv, n + 1)
    ensures PresentBefore(Init(argv), n) == PresentBefore(argv, n)
  {
  }

  lemma {:induction false} SurvivorCount(argv: seq<Slot>)
    ensures |Survivors(argv)| == |PresentBefore(argv, |argv|)|
  {
    if |argv| <= 1 {
      assert PresentBefore(argv, |argv|) == {};
    } else {
      SurvivorCount(Init(argv));
      PresentSnoc(argv, |argv| - 1);
    }
  }

  /** The survivors by position: a slot that is not null comes after as many as there are before it. */
  lemma {:induction false} SurvivorAt(argv: seq<Slot>, i: nat)
    requires 1 <= i < |argv| && argv[i].Some?
    ensures |PresentBefore(argv, i)| < |Survivors(argv)|
    ensures Survivors(argv)[|PresentBefore(argv, i)|] == argv[i].value
  {
    PresentSnoc(argv, |argv| - 1);
    SurvivorCount(Init(argv));
    if i < |argv| - 1 {
      SurvivorAt(Init(argv), i);
      PresentSnoc(argv, i);
    }
  }

  // ---------------------------------------------------------------- any sequence of parses

  datatype Call = Call(opt: string, hasValue: bool)

  /** `argv` after some parses, none of which exits. */
  function AfterCalls(argv: seq<Slot>, calls: seq<Call>): Option<seq<Slot>> {
    if calls == [] then Some(argv)
    else
      match AfterCalls(argv, Init(calls))
      case None => None
      case Some(now) =>
        var r := ParseOpt(now, Last(calls).opt, Last(calls).hasValue);
        if r.0.Exit? then None else Some(r.1)
  }

  /** Each slot after the first is either what it was or consumed; the first is what it was. */
  lemma {:induction false} CallsConsume(argv: seq<Slot>, calls: seq<Call>)
    requires AfterCalls(argv, calls).Some?
    ensures Consumes(argv, AfterCalls(argv, calls).value)
  {
    if calls != [] {
      CallsConsume(argv, Init(calls));
      ParseConsumes(AfterCalls(argv, Init(calls)).value, Last(calls).opt, Last(calls).hasValue);
    }
  }

  /** The slots one parse takes: the first match, and the next slot when the value is not inline. */
  predicate Takes(now: seq<Slot>, call: Call, i: nat) {
    && now != []
    && var k := FirstMatch(now, call.opt, 1);
    && k < |now|
    && (i == k || (i == k + 1 && call.hasValue && !Inline(now[k].value, call.opt)))
  }

  /** Call number `k` takes slot `i`. */
  predicate ConsumedBy(argv: seq<Slot>, calls: seq<Call>, i: nat, k: nat)
    requires k < |calls|
  {
    AfterCalls(argv, calls[..k]).Some? && Takes(AfterCalls(argv, calls[..k]).value, calls[k], i)
  }

  /** Slot `i` is there before call number `k` and null after it. */
  predicate NulledBy(argv: seq<Slot>, calls: seq<Call>, i: nat, k: nat)
    requires k < |calls| && i < |argv|
  {
    && AfterCalls(argv, calls[..k]).Some? && AfterCalls(argv, calls[..k + 1]).Some?
    && var before := AfterCalls(argv, calls[..k]).value;
    && var after := AfterCalls(argv, calls[..k + 1]).value;
    && i < |before| == |after| && before[i].Some? && after[i].None?
  }

  /** A parse that does not exit nulls exactly the slots it takes. */
  lemma ParseNulls(now: seq<Slot>, call: Call, i: nat)
    requires i < |now| && ParseOpt(now, call.opt, call.hasValue).0 != Exit
    ensures var after := ParseOpt(now, call.opt, call.hasValue).1;
            |after| == |now| && (now[i].Some? && after[i].None? <==> Takes(now, call, i))
  {
  }

  lemma NulledIsConsumed(argv: seq<Slot>, calls: seq<Call>, i: nat, k: nat)
    requires AfterCalls(argv, calls).Some? && i < |argv| && k < |calls|
    ensures NulledBy(argv, calls, i, k) <==> ConsumedBy(argv, calls, i, k)
  {
    StaysNull(argv, calls, i, k);
    StaysNull(argv, calls, i, k + 1);
    assert Init(calls[..k + 1]) == calls[..k] && Last(calls[..k + 1]) == calls[k];
    ParseNulls(AfterCalls(argv, calls[..k]).value, calls[k], i);
  }

  lemma {:induction false} StaysNull(argv: seq<Slot>, calls: seq<Call>, i: nat, k: nat)
    requires k <= |calls| && i < |argv| && AfterCalls(argv, calls).Some?
    ensures AfterCalls(argv, calls[..k]).Some? && |AfterCalls(argv, calls[..k]).value| == |argv|
    ensures |AfterCalls(argv, calls).value| == |argv|
    ensures AfterCalls(argv, calls[..k]).value[i].None? ==> AfterCalls(argv, calls).value[i].None?
    decreases |calls|
  {
    if k == |calls| {
      assert calls[..k] == calls;
      CallsConsume(argv, calls);
    } else {
      assert Init(calls)[..k] == calls[..k];
      StaysNull(argv, Init(calls), i, k);
      ParseConsumes(AfterCalls(argv, Init(calls)).value, Last(calls).opt, Last(calls).hasValue);
    }
  }

  /** No slot is consumed by two calls. */
  lemma ConsumedAtMostOnce(argv: seq<Slot>, calls: seq<Call>, i: nat, k: nat, l: nat)
    requires AfterCalls(argv, calls).Some? && i < |argv| && k < l < |calls|
    requires ConsumedBy(argv, calls, i, k)
    ensures !ConsumedBy(argv, calls, i, l)
  {
    NulledIsConsumed(argv, calls, i, k);
    NulledIsConsumed(argv, calls, i, l);
    if AfterCalls(argv, calls[..l]).Some? {
      assert calls[..l][..k + 1] == calls[..k + 1];
      StaysNull(argv, calls[..l], i, k + 1);
    }
  }

  /** A slot that is gone at the end was nulled by some call. */
  lemma {:induction false} NulledByOne(argv: seq<Slot>, calls: seq<Call>, i: nat) returns (k: nat)
    requires AfterCalls(argv, calls).Some? && i < |argv| && argv[i].Some?
    requires |AfterCalls(argv, calls).value| == |argv| && AfterCalls(argv, calls).value[i].None?
    ensures k < |calls| && NulledBy(argv, calls, i, k)
    decreases |calls|
  {
    var front := Init(calls);
    CallsConsume(argv, front);
    assert calls[..|front|] == front && calls[..|front| + 1] == calls;
    if AfterCalls(argv, front).value[i].Some? {
      k := |front|;
    } else {
      k := NulledByOne(argv, front, i);
      assert front[..k] == calls[..k] && front[..k + 1] == calls[..k + 1];
    }
  }

  /** The arguments that no call consumed, where they stood. */
  ghost function Unconsumed(argv: seq<Slot>, calls: seq<Call>): seq<Slot> {
    seq(|argv|, i requires 0 <= i < |argv| =>
      if exists k | 0 <= k < |calls| :: ConsumedBy(argv, calls, i, k) then None else argv[i])
  }

  lemma SlotAfter(argv: seq<Slot>, calls: seq<Call>, i: nat)
    requires AfterCalls(argv, calls).Some? && i < |argv| == |AfterCalls(argv, calls).value|
    ensures AfterCalls(argv, calls).value[i] == Unconsumed(argv, calls)[i]
  {
    CallsConsume(argv, calls);
    if k :| 0 <= k < |calls| && ConsumedBy(argv, calls, i, k) {
      NulledIsConsumed(argv, calls, i, k);
      StaysNull(argv, calls, i, k + 1);
    } else if argv[i].Some? && AfterCalls(argv, calls).value[i].None? {
      var k := NulledByOne(argv, calls, i);
      NulledIsConsumed(argv, calls, i, k);
    }
  }

  /**
   Whatever options are parsed, as long as none exits, `argv` then holds exactly the
   arguments that no parse took as its first match or as the value after it, each where
   it stood; so positional parsing returns precisely those, in their original order.
   */
  lemma LeftoversExact(argv: seq<Slot>, calls: seq<Call>)
    requires AfterCalls(argv, calls).Some?
    ensures AfterCalls(argv, calls).value == Unconsumed(argv, calls)
  {
    CallsConsume(argv, calls);
    forall i | 0 <= i < |argv| ensures AfterCalls(argv, calls).value[i] == Unconsumed(argv, calls)[i] {
      SlotAfter(argv, calls, i);
    }
  }
}
