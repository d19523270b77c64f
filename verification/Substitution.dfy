/**
 Feature values substituted into an `#if` line, one `str::replace` per feature in
 whatever order the feature map is iterated.
 */
module Substitution {
  import opened Text
  import opened FeatureFilter

  /** `str::replace`: leftmost, non-overlapping occurrences. */
  function Replace(s: string, p: string, x: string): string
    requires p != ""
    decreases |s|
  {
    if s == "" then ""
    else if p <= s then x + Replace(s[|p|..], p, x)
    else [s[0]] + Replace(s[1..], p, x)
  }

  lemma PrefixIsAt(s: string, p: string)
    ensures p <= s <==> At(s, p, 0)
  {
  }

  lemma AtTail(s: string, p: string, j: nat)
    requires s != ""
    ensures At(s[1..], p, j) <==> At(s, p, j + 1)
  {
    if j + 1 + |p| <= |s| { assert s[1..][j..j + |p|] == s[j + 1..j + 1 + |p|]; }
  }

  lemma {:induction false} ReplaceNothing(s: string, p: string, x: string)
    requires p != "" && forall j: nat {:trigger At(s, p, j)} :: !At(s, p, j)
    ensures Replace(s, p, x) == s
    decreases |s|
  {
    if s != "" {
      PrefixIsAt(s, p);
      forall j: nat ensures !At(s[1..], p, j) { AtTail(s, p, j); }
      ReplaceNothing(s[1..], p, x);
    }
  }

  lemma ReplaceHere(s: string, p: string, x: string)
    requires p != "" && At(s, p, 0)
    ensures Replace(s, p, x) == x + Replace(s[|p|..], p, x)
  {
    PrefixIsAt(s, p);
  }

  lemma ReplaceLater(s: string, p: string, x: string)
    requires p != "" && s != "" && !At(s, p, 0)
    ensures Replace(s, p, x) == [s[0]] + Replace(s[1..], p, x)
  {
    PrefixIsAt(s, p);
  }

  lemma FirstInTail(s: string, t: string, p: string, k: nat)
    requires s != "" && t == s[1..] && k > 0
    requires At(s, p, k) && forall j: nat {:trigger At(s, p, j)} :: j < k ==> !At(s, p, j)
    ensures At(t, p, k - 1) && forall j: nat {:trigger At(t, p, j)} :: j < k - 1 ==> !At(t, p, j)
  {
    AtTail(s, p, k - 1);
    forall j: nat | j < k - 1 ensures !At(t, p, j) { AtTail(s, p, j); }
  }

  lemma {:induction false} ReplaceFirst(s: string, p: string, x: string, k: nat)
    requires p != "" && At(s, p, k) && forall j: nat {:trigger At(s, p, j)} :: j < k ==> !At(s, p, j)
    ensures Replace(s, p, x) == s[..k] + (x + Replace(s[k + |p|..], p, x))
    decreases k
  {
    if k == 0 {
      ReplaceHere(s, p, x);
    } else {
      ReplacePastFirst(s, s[1..], p, x, k, s[k + |p|..]);
    }
  }

  lemma {:induction false} ReplacePastFirst(s: string, t: string, p: string, x: string, k: nat, rest: string)
    requires s != "" && t == s[1..] && k > 0 && p != "" && At(s, p, k) && rest == s[k + |p|..]
    requires forall j: nat {:trigger At(s, p, j)} :: j < k ==> !At(s, p, j)
    ensures Replace(s, p, x) == s[..k] + (x + Replace(rest, p, x))
    decreases k, 0
  {
    ReplaceLater(s, p, x);
    FirstInTail(s, t, p, k);
    ReplaceFirst(t, p, x, k - 1);
    assert t[k - 1 + |p|..] == rest;
    Glue(s, t, k, Replace(s, p, x), Replace(t, p, x), x + Replace(rest, p, x));
  }

  lemma Glue(s: string, t: string, k: nat, whole: string, most: string, tail: string)
    requires s != "" && t == s[1..] && 0 < k <= |s|
    requires whole == [s[0]] + most && most == t[..k - 1] + tail
    ensures whole == s[..k] + tail
  {
    assert s[..k] == [s[0]] + t[..k - 1];
  }

  /** `str::replace` cuts the text at its first occurrence of the pattern, and goes on behind it. */
  lemma ReplaceMeaning(s: string, p: string, x: string)
    requires p != ""
    ensures Replace(s, p, x) ==
            match Find(s, p)
            case None => s
            case Some(k) => s[..k] + (x + Replace(s[k + |p|..], p, x))
  {
    match Find(s, p)
    case None => ReplaceNothing(s, p, x);
    case Some(k) => ReplaceFirst(s, p, x, k);
  }

  /** Removing `#if` from a line that begins with it, and holds it nowhere else, leaves the condition. */
  lemma ConditionLeft(rest: string)
    requires !Contains(rest, "#if")
    ensures Replace("#if" + rest, "#if", "") == rest
  {
    ReplaceMeaning(rest, "#if", "");
    assert ("#if" + rest)[3..] == rest;
  }

  function Pattern(name: string): string {
    "defined(" + name + ")"
  }

  function Truth(value: bool): string {
    if value then "true" else "false"
  }

  /** C feature macros are spelled in capitals, digits and underscores. */
  predicate IsMacro(name: string) {
    forall c | c in name :: 'A' <= c <= 'Z' || '0' <= c <= '9' || c == '_'
  }

  /** The macro asked about where the text starts, if any. */
  function Asked(s: string): Option<string> {
    if "defined(" <= s && IndexFrom(s, ')', 8) < |s| then Some(s[8..IndexFrom(s, ')', 8)]) else None
  }

  /** All features substituted at once, in one pass over the line. */
  function Substitute(s: string, m: map<string, bool>): string
    decreases |s|
  {
    if s == "" then ""
    else if Asked(s).Some? && Asked(s).value in m then
      Truth(m[Asked(s).value]) + Substitute(s[|Asked(s).value| + 9..], m)
    else [s[0]] + Substitute(s[1..], m)
  }

  lemma AskedMeaning(s: string, name: string)
    requires IsMacro(name)
    ensures Asked(s) == Some(name) <==> Pattern(name) <= s
  {
    var p := Pattern(name);
    assert p[..8] == "defined(" && p[8..|p| - 1] == name && p[|p| - 1] == ')';
    if p <= s {
      assert forall j | 8 <= j < |p| - 1 :: s[j] == p[j] && p[j] in name;
      assert s[|p| - 1] == ')';
      assert "defined(" <= s;
      assert s[8..|p| - 1] == name;
    }
    if Asked(s) == Some(name) {
      var k := IndexFrom(s, ')', 8);
      assert s[..8] == "defined(";
      assert s[..k + 1] == s[..8] + s[8..k] + [s[k]];
    }
  }

  /** Text that never starts a pattern is passed over unchanged. */
  lemma {:induction false} ReplaceOver(u: string, r: string, p: string, x: string)
    requires p != "" && forall i | 0 <= i < |u| :: u[i] != p[0]
    ensures Replace(u + r, p, x) == u + Replace(r, p, x)
  {
    if u == "" {
      assert u + r == r;
    } else {
      assert (u + r)[0] == u[0] && (u + r)[1..] == u[1..] + r;
      ReplaceOver(u[1..], r, p, x);
      assert u == [u[0]] + u[1..];
      assert [u[0]] + (u[1..] + Replace(r, p, x)) == u + Replace(r, p, x);
    }
  }

  /** Nothing inside a pattern starts another one. */
  lemma NoInnerStart(name: string, k: nat, r: string)
    requires IsMacro(name) && 0 < k < |Pattern(name)|
    ensures Asked(Pattern(name)[k..] + r) == None
  {
    var p := Pattern(name);
    var t := p[k..] + r;
    assert t[0] == p[k];
    if k == 6 {
      assert t[1] == p[7] == '(';
    } else if k >= 8 && k < |p| - 1 {
      assert p[k] == name[k - 8] && p[k] in name;
    }
    assert "defined("[0] == 'd' && "defined("[1] == 'e';
  }

  lemma {:induction false} SubstituteOver(name: string, k: nat, r: string, m: map<string, bool>)
    requires IsMacro(name) && 0 < k <= |Pattern(name)|
    ensures Substitute(Pattern(name)[k..] + r, m) == Pattern(name)[k..] + Substitute(r, m)
    decreases |Pattern(name)| - k
  {
    var p := Pattern(name);
    if k == |p| {
      assert p[k..] + r == r;
    } else {
      NoInnerStart(name, k, r);
      assert (p[k..] + r)[1..] == p[k + 1..] + r;
      SubstituteOver(name, k + 1, r, m);
      assert [p[k]] + p[k + 1..] == p[k..];
      assert [p[k]] + (p[k + 1..] + Substitute(r, m)) == p[k..] + Substitute(r, m);
    }
  }

  /** Substituting other features leaves a pattern standing. */
  lemma PatternStands(s: string, name: string, m: map<string, bool>)
    requires IsMacro(name) && name !in m && Asked(s) == Some(name)
    ensures Substitute(s, m) == Pattern(name) + Substitute(s[|Pattern(name)|..], m)
  {
    var p, r := Pattern(name), s[|Pattern(name)|..];
    AskedMeaning(s, name);
    assert s[1..] == p[1..] + r;
    SubstituteOver(name, 1, r, m);
    assert [p[0]] + (p[1..] + Substitute(r, m)) == p + Substitute(r, m);
  }

  /** A substituted value cannot be part of a pattern. */
  lemma ValueBreaksPattern(name: string, k: nat, value: bool, r: string)
    requires IsMacro(name) && k < |Pattern(name)|
    ensures !(Pattern(name)[k..] <= Truth(value) + r)
  {
    var p, t := Pattern(name), Truth(value) + r;
    assert t[0] == Truth(value)[0] && t[1] == Truth(value)[1];
    if 8 <= k < |p| - 1 {
      assert p[k] == name[k - 8] && p[k] in name;
    }
    assert p[k..][0] == p[k];
    assert k == 2 ==> p[k..][1] == p[3];
  }

  /** Substitution makes no new pattern: one found at the front was there before. */
  lemma {:induction false} NoNewPattern(s: string, name: string, k: nat, m: map<string, bool>)
    requires IsMacro(name) && k <= |Pattern(name)| && Pattern(name)[k..] <= Substitute(s, m)
    ensures Pattern(name)[k..] <= s
    decreases |Pattern(name)| - k
  {
    var p := Pattern(name);
    if k < |p| {
      if Asked(s).Some? && Asked(s).value in m {
        ValueBreaksPattern(name, k, m[Asked(s).value], Substitute(s[|Asked(s).value| + 9..], m));
      } else {
        assert s != "";
        var out := Substitute(s, m);
        assert out[1..] == Substitute(s[1..], m);
        assert p[k + 1..] == p[k..][1..];
        NoNewPattern(s[1..], name, k + 1, m);
        assert p[k..] == [p[k]] + p[k + 1..] && s == [s[0]] + s[1..];
      }
    }
  }

  /** One more feature: replacing it afterwards is substituting it along with the others. */
  lemma {:induction false} OneMore(s: string, m: map<string, bool>, name: string, value: bool)
    requires IsMacro(name) && name !in m
    ensures Replace(Substitute(s, m), Pattern(name), Truth(value)) == Substitute(s, m[name := value])
    decreases |s|
  {
    if s == "" {
    } else if Asked(s).Some? && Asked(s).value in m {
      OneMoreKnown(s, m, name, value);
    } else if Asked(s) == Some(name) {
      OneMoreHit(s, m, name, value);
    } else {
      OneMoreMiss(s, m, name, value);
    }
  }

  lemma {:induction false} OneMoreKnown(s: string, m: map<string, bool>, name: string, value: bool)
    requires IsMacro(name) && name !in m && s != "" && Asked(s).Some? && Asked(s).value in m
    ensures Replace(Substitute(s, m), Pattern(name), Truth(value)) == Substitute(s, m[name := value])
    decreases |s|, 0
  {
    var a := Asked(s).value;
    var rest := s[|a| + 9..];
    OneMore(rest, m, name, value);
    ReplaceOver(Truth(m[a]), Substitute(rest, m), Pattern(name), Truth(value));
  }

  lemma {:induction false} OneMoreHit(s: string, m: map<string, bool>, name: string, value: bool)
    requires IsMacro(name) && name !in m && s != "" && Asked(s) == Some(name)
    ensures Replace(Substitute(s, m), Pattern(name), Truth(value)) == Substitute(s, m[name := value])
    decreases |s|, 0
  {
    var p := Pattern(name);
    var rest := s[|p|..];
    PatternStands(s, name, m);
    OneMore(rest, m, name, value);
    assert (p + Substitute(rest, m))[|p|..] == Substitute(rest, m);
  }

  lemma {:induction false} OneMoreMiss(s: string, m: map<string, bool>, name: string, value: bool)
    requires IsMacro(name) && name !in m && s != ""
    requires Asked(s).Some? ==> Asked(s).value !in m && Asked(s).value != name
    ensures Replace(Substitute(s, m), Pattern(name), Truth(value)) == Substitute(s, m[name := value])
    decreases |s|, 0
  {
    var out := Substitute(s, m);
    OneMore(s[1..], m, name, value);
    assert out[0] == s[0] && out[1..] == Substitute(s[1..], m);
    AskedMeaning(s, name);
    if Pattern(name) <= out {
      assert Pattern(name)[0..] == Pattern(name);
      NoNewPattern(s, name, 0, m);
    }
  }

  /** A question about one known feature becomes its truth value. */
  lemma AskedAlone(name: string, m: map<string, bool>)
    requires IsMacro(name) && name in m
    ensures Substitute("defined(" + name + ")", m) == if m[name] then "true" else "false"
  {
    var p := Pattern(name);
    AskedMeaning(p, name);
    assert p[|name| + 9..] == "";
  }

  // ---------------------------------------------------------------- any order

  /** One entry of the feature map: a macro and whether its feature is enabled. */
  datatype Entry = Entry(name: string, value: bool)

  /** The entries, in some order, of a feature map. */
  ghost predicate Lists(order: seq<Entry>, m: map<string, bool>) {
    if order == [] then m == map[]
    else
      && Last(order).name in m && m[Last(order).name] == Last(order).value && IsMacro(Last(order).name)
      && Lists(Init(order), m - {Last(order).name})
  }

  function ReplaceAll(s: string, order: seq<Entry>): string {
    if order == [] then s
    else Replace(ReplaceAll(s, Init(order)), Pattern(Last(order).name), Truth(Last(order).value))
  }

  lemma {:induction false} SubstituteNone(s: string)
    ensures Substitute(s, map[]) == s
    decreases |s|
  {
    if s != "" {
      SubstituteNone(s[1..]);
      assert [s[0]] + s[1..] == s;
    }
  }

  /** Replacing feature by feature, in any order, is substituting all of them at once. */
  lemma {:induction false} AnyOrder(s: string, order: seq<Entry>, m: map<string, bool>)
    requires Lists(order, m)
    ensures ReplaceAll(s, order) == Substitute(s, m)
  {
    if order == [] {
      SubstituteNone(s);
    } else {
      var e := Last(order);
      var rest := m - {e.name};
      AnyOrder(s, Init(order), rest);
      OneMore(s, rest, e.name, e.value);
      assert rest[e.name := e.value] == m;
    }
  }

  /** The line that is evaluated does not depend on the iteration order of the feature map. */
  lemma OrderIrrelevant(s: string, a: seq<Entry>, b: seq<Entry>, m: map<string, bool>)
    requires Lists(a, m) && Lists(b, m)
    ensures ReplaceAll(s, a) == ReplaceAll(s, b)
  {
    AnyOrder(s, a, m);
    AnyOrder(s, b, m);
  }

  /** `evaluate_c_defines_line`, up to the expression evaluator. */
  method EvaluateLine(line: string, order: seq<Entry>, ghost m: map<string, bool>, evalexpr: string -> Condition)
    returns (c: Condition)
    requires Lists(order, m)
    ensures c == evalexpr(Replace(Substitute(line, m), "#if", ""))
  {
    var s := line;
    for i := 0 to |order|
      invariant s == ReplaceAll(line, order[..i])
    {
      assert Init(order[..i + 1]) == order[..i];
      s := Replace(s, Pattern(order[i].name), Truth(order[i].value));
    }
    assert order[..|order|] == order;
    AnyOrder(line, order, m);
    c := evalexpr(Replace(s, "#if", ""));
  }
}
