/**
 Taking C type names apart (`z_owned_session_t`) and putting them together again.
 */
module TypeNames {
  import opened Text

  datatype Parts = Parts(prefix: string, category: Option<string>, semantic: string, postfix: string)

  predicate IsCategory(s: string) {
    s == "owned" || s == "loaned" || s == "moved"
  }

  /** The text before the first underscore. */
  function FirstWord(s: string): string {
    s[..IndexOf(s, '_')]
  }

  /** `split_type_name`; `None` is a panic of the iterator or of the final slice. */
  function SplitTypeName(t: string): Option<Parts> {
    var i := IndexOf(t, '_');
    if i == |t| then None else
    var j := IndexFrom(t, '_', i + 1);
    if j == |t| then None else
    var cat := t[i + 1..j];
    var last := LastIndex(t, '_');
    var postfix := t[last + 1..];
    var start := i + 1 + if IsCategory(cat) then |cat| + 1 else 0;
    var end := |t| - |postfix| - 1;
    if start > end then None
    else Some(Parts(t[..i], if IsCategory(cat) then Some(cat) else None, t[start..end], postfix))
  }

  function Join(p: Parts): string {
    match p.category
    case Some(c) => p.prefix + "_" + c + "_" + p.semantic + "_" + p.postfix
    case None => p.prefix + "_" + p.semantic + "_" + p.postfix
  }

  /** The parts a split can give: only the semantic part holds underscores. */
  predicate Proper(p: Parts) {
    && '_' !in p.prefix && '_' !in p.postfix
    && (p.category.Some? ==> IsCategory(p.category.value))
    && (p.category.None? ==> !IsCategory(FirstWord(p.semantic + "_")))
  }

  lemma CategoryIsWord(c: string)
    requires IsCategory(c)
    ensures '_' !in c
  {
  }

  lemma LastIndexUnique(s: string, c: char, k: nat)
    requires k < |s| && s[k] == c && forall j | k < j < |s| :: s[j] != c
    ensures c in s && LastIndex(s, c) == k
  {
  }

  lemma IndexFromUnique(s: string, c: char, i: nat, k: nat)
    requires i <= k <= |s| && (forall j | i <= j < k :: s[j] != c) && (k < |s| ==> s[k] == c)
    ensures IndexFrom(s, c, i) == k
  {
  }

  /** `t` is the three texts with an underscore between each. */
  ghost predicate Framed(t: string, prefix: string, middle: string, postfix: string) {
    var n, m := |prefix|, |middle|;
    && |t| == n + m + 2 + |postfix| && t[n] == '_' && t[n + 1 + m] == '_'
    && t[..n] == prefix && t[n + 1..n + 1 + m] == middle && t[n + m + 2..] == postfix
  }

  lemma FramedConcat(prefix: string, middle: string, postfix: string)
    ensures Framed(prefix + "_" + middle + "_" + postfix, prefix, middle, postfix)
  {
  }

  lemma OuterUnderscores(t: string, prefix: string, middle: string, postfix: string)
    requires Framed(t, prefix, middle, postfix) && '_' !in prefix && '_' !in postfix
    ensures IndexOf(t, '_') == |prefix| && '_' in t && LastIndex(t, '_') == |prefix| + 1 + |middle|
  {
    var n, m := |prefix|, |middle|;
    forall j | 0 <= j < n ensures t[j] != '_' { assert t[j] == t[..n][j]; }
    forall j | n + m + 2 <= j < |t| ensures t[j] != '_' { assert t[j] == t[n + m + 2..][j - n - m - 2]; }
    IndexOfUnique(t, '_', n);
    LastIndexUnique(t, '_', n + 1 + m);
  }

  lemma InnerUnderscore(t: string, prefix: string, middle: string, postfix: string)
    requires Framed(t, prefix, middle, postfix)
    ensures IndexFrom(t, '_', |prefix| + 1) == |prefix| + 1 + IndexOf(middle + "_", '_')
    ensures IndexOf(middle + "_", '_') <= |middle|
  {
    var n, m := |prefix|, |middle|;
    var w := IndexOf(middle + "_", '_');
    assert (middle + "_")[m] == '_';
    forall j | n + 1 <= j <= n + 1 + m ensures t[j] == (middle + "_")[j - n - 1] {
      if j < n + 1 + m { assert t[j] == t[n + 1..n + 1 + m][j - n - 1]; }
    }
    IndexFromUnique(t, '_', n + 1, n + 1 + w);
  }

  lemma FramedSlices(t: string, prefix: string, middle: string, postfix: string, w: nat)
    requires Framed(t, prefix, middle, postfix) && w <= |middle|
    ensures t[|prefix| + 1..|prefix| + 1 + w] == middle[..w]
    ensures w < |middle| ==> t[|prefix| + w + 2..|prefix| + 1 + |middle|] == middle[w + 1..]
  {
    var inner := t[|prefix| + 1..|prefix| + 1 + |middle|];
    assert inner[..w] == t[|prefix| + 1..|prefix| + 1 + w];
    if w < |middle| { assert inner[w + 1..] == t[|prefix| + w + 2..|prefix| + 1 + |middle|]; }
  }

  /** What splitting makes of a framed name: the first word of the middle decides. */
  lemma SplitFramed(t: string, prefix: string, middle: string, postfix: string)
    requires Framed(t, prefix, middle, postfix) && '_' !in prefix && '_' !in postfix
    ensures var word := FirstWord(middle + "_");
            SplitTypeName(t) ==
            if !IsCategory(word) then Some(Parts(prefix, None, middle, postfix))
            else if |middle| <= |word| then None
            else Some(Parts(prefix, Some(word), middle[|word| + 1..], postfix))
  {
    var w := IndexOf(middle + "_", '_');
    OuterUnderscores(t, prefix, middle, postfix);
    InnerUnderscore(t, prefix, middle, postfix);
    FramedSlices(t, prefix, middle, postfix, w);
    assert (middle + "_")[..w] == middle[..w];
  }

  lemma SplitOfMiddle(prefix: string, middle: string, postfix: string)
    requires '_' !in prefix && '_' !in postfix
    ensures var word := FirstWord(middle + "_");
            var t := prefix + "_" + middle + "_" + postfix;
            SplitTypeName(t) ==
            if !IsCategory(word) then Some(Parts(prefix, None, middle, postfix))
            else if |middle| <= |word| then None
            else Some(Parts(prefix, Some(word), middle[|word| + 1..], postfix))
  {
    FramedConcat(prefix, middle, postfix);
    SplitFramed(prefix + "_" + middle + "_" + postfix, prefix, middle, postfix);
  }

  lemma JoinForms(p: Parts)
    ensures p.category.Some? ==> Join(p) == p.prefix + "_" + (p.category.value + "_" + p.semantic) + "_" + p.postfix
  {
  }

  lemma CategoryFirst(c: string, semantic: string)
    requires IsCategory(c)
    ensures FirstWord(c + "_" + semantic + "_") == c && (c + "_" + semantic)[|c| + 1..] == semantic
  {
    CategoryIsWord(c);
    var s := c + "_" + semantic + "_";
    assert forall j | 0 <= j < |c| :: s[j] == c[j] && s[j] in c;
    IndexOfUnique(s, '_', |c|);
  }

  /** Splitting a joined name gives back the parts, whatever underscores the semantic part holds. */
  lemma SplitJoin(p: Parts)
    requires Proper(p)
    ensures SplitTypeName(Join(p)) == Some(p)
  {
    match p.category
    case None => SplitOfMiddle(p.prefix, p.semantic, p.postfix);
    case Some(c) =>
      JoinForms(p);
      CategoryFirst(c, p.semantic);
      SplitOfMiddle(p.prefix, c + "_" + p.semantic, p.postfix);
  }

  /** A name with two underscores, cut at the first and the last. */
  lemma CutOuter(t: string) returns (prefix: string, middle: string, postfix: string)
    requires IndexOf(t, '_') < |t| && IndexFrom(t, '_', IndexOf(t, '_') + 1) < |t|
    ensures '_' !in prefix && '_' !in postfix && t == prefix + "_" + middle + "_" + postfix
  {
    var i := IndexOf(t, '_');
    var j := IndexFrom(t, '_', i + 1);
    assert t[j] == '_' && t[j] in t;
    var last := LastIndex(t, '_');
    assert i < j <= last;
    prefix, middle, postfix := t[..i], t[i + 1..last], t[last + 1..];
    assert t == t[..i] + [t[i]] + t[i + 1..last] + [t[last]] + t[last + 1..];
  }

  /** Joining what was split gives back the name, and a name splits exactly if it is some joined name. */
  lemma JoinSplit(t: string)
    ensures SplitTypeName(t).Some? ==> Proper(SplitTypeName(t).value) && Join(SplitTypeName(t).value) == t
    ensures SplitTypeName(t).Some? <==> exists p :: Proper(p) && Join(p) == t
  {
    if SplitTypeName(t).Some? {
      var prefix, middle, postfix := CutOuter(t);
      SplitOfMiddle(prefix, middle, postfix);
      var word := FirstWord(middle + "_");
      var p := SplitTypeName(t).value;
      if IsCategory(word) {
        RejoinCategory(middle, word);
        JoinForms(p);
      }
      assert Proper(p) && Join(p) == t;
    }
    forall p | Proper(p) && Join(p) == t ensures SplitTypeName(t).Some? {
      SplitJoin(p);
    }
  }

  lemma RejoinCategory(middle: string, word: string)
    requires word == FirstWord(middle + "_") && |word| < |middle|
    ensures word + "_" + middle[|word| + 1..] == middle
  {
    var m := middle + "_";
    assert m[|word|] == '_' && m[|word|] == middle[|word|];
    assert middle == middle[..|word|] + [middle[|word|]] + middle[|word| + 1..];
    assert middle[..|word|] == m[..|word|];
  }

  // ---------------------------------------------------------------- generated signatures

  /** The pointer type `make_move_take_signatures` builds from the parts of an argument type. */
  function PointerType(p: Parts, category: string): string {
    p.prefix + "_" + category + "_" + p.semantic + "_" + p.postfix + "*"
  }

  /**
   Splitting a generated pointer type again recovers the prefix and the semantic part that
   the body of the take function is written from.
   */
  lemma PointerTypeSplits(p: Parts, category: string)
    requires Proper(p) && IsCategory(category)
    ensures SplitTypeName(PointerType(p, category)) ==
            Some(Parts(p.prefix, Some(category), p.semantic, p.postfix + "*"))
  {
    var q := Parts(p.prefix, Some(category), p.semantic, p.postfix + "*");
    assert Join(q) == PointerType(p, category);
    SplitJoin(q);
  }

  /** Different types never share an owned or a moved pointer type, and the two never coincide. */
  lemma PointerTypesInjective(p: Parts, q: Parts, a: string, b: string)
    requires Proper(p) && Proper(q) && IsCategory(a) && IsCategory(b)
    requires PointerType(p, a) == PointerType(q, b)
    ensures a == b && p.prefix == q.prefix && p.semantic == q.semantic && p.postfix == q.postfix
  {
    PointerTypeSplits(p, a);
    PointerTypeSplits(q, b);
    assert (p.postfix + "*")[..|p.postfix|] == p.postfix;
    assert (q.postfix + "*")[..|q.postfix|] == q.postfix;
  }
}
