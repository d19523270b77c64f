/**
 Strings as the build scripts see them: first occurrences, maximal runs and the
 character classes their recognisers ask about.
 */
module Text {

  datatype Option<+T> = None | Some(value: T)

  /** Unicode `White_Space`, the class `char::is_whitespace` tests. */
  predicate IsSpace(c: char) {
    var n := c as int;
    || 0x09 <= n <= 0x0d || n == 0x20 || n == 0x85 || n == 0xa0 || n == 0x1680
    || 0x2000 <= n <= 0x200a || n == 0x2028 || n == 0x2029 || n == 0x202f
    || n == 0x205f || n == 0x3000
  }

  /** A character that may continue a C identifier. */
  predicate IsWord(c: char) {
    || 'a' <= c <= 'z' || 'A' <= c <= 'Z' || '0' <= c <= '9' || c == '_'
  }

  /** Pattern `p` occurs in `s` at position `i`. */
  predicate At(s: string, p: string, i: nat) {
    i + |p| <= |s| && s[i..i + |p|] == p
  }

  /** The first occurrence of `p` at or after `i`. */
  function FindFrom(s: string, p: string, i: nat): (r: Option<nat>)
    requires i <= |s|
    ensures r.Some? ==> i <= r.value && At(s, p, r.value)
    ensures forall j {:trigger At(s, p, j)} :: i <= j && (r.Some? ==> j < r.value) ==> !At(s, p, j)
    decreases |s| - i
  {
    if At(s, p, i) then Some(i)
    else if i == |s| then None
    else FindFrom(s, p, i + 1)
  }

  /** `str::find` */
  function Find(s: string, p: string): (r: Option<nat>)
    ensures r.Some? ==> At(s, p, r.value)
    ensures forall j: nat {:trigger At(s, p, j)} :: (r.Some? ==> j < r.value) ==> !At(s, p, j)
  {
    FindFrom(s, p, 0)
  }

  predicate Contains(s: string, p: string) {
    Find(s, p).Some?
  }

  /** The first occurrence is decided by the text up to its end. */
  lemma FindStable(s: string, u: string, p: string)
    requires Find(s, p).Some?
    requires s[..Find(s, p).value + |p|] <= u
    ensures Find(u, p) == Find(s, p)
  {
    var k := Find(s, p).value;
    forall j: nat | j <= k ensures At(u, p, j) <==> At(s, p, j) {
      AtPrefix(s[..k + |p|], s, p, j);
      AtPrefix(s[..k + |p|], u, p, j);
    }
  }

  lemma AtPrefix(head: string, s: string, p: string, j: nat)
    requires head <= s && j + |p| <= |head|
    ensures At(s, p, j) <==> At(head, p, j)
  {
    assert s[j..j + |p|] == head[j..j + |p|];
  }

  /** The first position of `c` at or after `i`, or the length of the text. */
  function IndexFrom(s: string, c: char, i: nat): (k: nat)
    requires i <= |s|
    ensures i <= k <= |s|
    ensures forall j | i <= j < k :: s[j] != c
    ensures k < |s| ==> s[k] == c
    decreases |s| - i
  {
    if i < |s| && s[i] != c then IndexFrom(s, c, i + 1) else i
  }

  /** `str::find` of a one-character pattern, with the length standing for `None`. */
  function IndexOf(s: string, c: char): (k: nat)
    ensures k <= |s|
    ensures forall j | 0 <= j < k :: s[j] != c
    ensures k < |s| ==> s[k] == c
  {
    IndexFrom(s, c, 0)
  }

  lemma IndexOfUnique(s: string, c: char, k: nat)
    requires k <= |s|
    requires forall j | 0 <= j < k :: s[j] != c
    requires k < |s| ==> s[k] == c
    ensures IndexOf(s, c) == k
  {
  }

  /** Searching a pattern of one character is searching that character. */
  lemma FindChar(s: string, c: char)
    ensures Find(s, [c]) == if IndexOf(s, c) < |s| then Some(IndexOf(s, c)) else None
  {
    var k := IndexOf(s, c);
    forall j: nat | j < |s| ensures At(s, [c], j) <==> s[j] == c {
      assert s[j..j + 1] == [s[j]];
    }
    if k < |s| { assert At(s, [c], k); }
  }

  /** `until("\n")`, or everything when there is no line end. */
  function LineOf(s: string): string {
    s[..IndexOf(s, '\n')]
  }

  /** The first line of a text that starts with a newline-free line and a line end. */
  lemma LineOfLine(line: string, rest: string)
    requires '\n' !in line
    ensures LineOf(line + ("\n" + rest)) == line
  {
    IndexOfUnique(line + ("\n" + rest), '\n', |line|);
  }

  /** A newline-free prefix of the text is a prefix of its first line. */
  lemma LinePrefix(s: string, p: string)
    requires p <= s && '\n' !in p
    ensures p <= LineOf(s)
  {
    assert forall j | 0 <= j < |p| :: s[j] == p[j];
  }

  /** End of the run of whitespace that starts at `i`. */
  function SpaceEnd(s: string, i: nat): (e: nat)
    requires i <= |s|
    ensures i <= e <= |s|
    ensures forall j | i <= j < e :: IsSpace(s[j])
    ensures e < |s| ==> !IsSpace(s[e])
    decreases |s| - i
  {
    if i < |s| && IsSpace(s[i]) then SpaceEnd(s, i + 1) else i
  }

  /** End of the run of non-whitespace that starts at `i`. */
  function InkEnd(s: string, i: nat): (e: nat)
    requires i <= |s|
    ensures i <= e <= |s|
    ensures forall j | i <= j < e :: !IsSpace(s[j])
    ensures e < |s| ==> IsSpace(s[e])
    decreases |s| - i
  {
    if i < |s| && !IsSpace(s[i]) then InkEnd(s, i + 1) else i
  }

  /** Start of the longest run of word characters that ends just before `e`. */
  function WordStart(s: string, e: nat): (b: nat)
    requires e <= |s|
    ensures b <= e
    ensures forall j | b <= j < e :: IsWord(s[j])
    ensures b > 0 ==> !IsWord(s[b - 1])
  {
    if e > 0 && IsWord(s[e - 1]) then WordStart(s, e - 1) else e
  }

  /** Position of the last `c`. */
  function LastIndex(s: string, c: char): (k: nat)
    requires c in s
    ensures k < |s| && s[k] == c
    ensures forall j | k < j < |s| :: s[j] != c
  {
    if s[|s| - 1] == c then |s| - 1 else LastIndex(s[..|s| - 1], c)
  }

  /** Everything a sequence of strings spells, in order. */
  function Concat(parts: seq<string>): string {
    if parts == [] then "" else parts[0] + Concat(parts[1..])
  }

  lemma ConcatAppend(a: seq<string>, b: seq<string>)
    ensures Concat(a + b) == Concat(a) + Concat(b)
  {
    if a == [] {
      assert a + b == b;
    } else {
      assert (a + b)[1..] == a[1..] + b;
      ConcatAppend(a[1..], b);
    }
  }

  function Init<T>(s: seq<T>): seq<T>
    requires s != []
  {
    s[..|s| - 1]
  }

  function Last<T>(s: seq<T>): T
    requires s != []
  {
    s[|s| - 1]
  }

  /** The elements that satisfy `p`, in order. */
  function Keep<T>(s: seq<T>, p: T -> bool): seq<T> {
    if s == [] then []
    else if p(Last(s)) then Keep(Init(s), p) + [Last(s)]
    else Keep(Init(s), p)
  }

  lemma {:induction false} KeepAppend<T>(a: seq<T>, b: seq<T>, p: T -> bool)
    ensures Keep(a + b, p) == Keep(a, p) + Keep(b, p)
    decreases |b|
  {
    if b == [] {
      assert a + b == a;
    } else {
      assert Init(a + b) == a + Init(b) && Last(a + b) == Last(b);
      KeepAppend(a, Init(b), p);
    }
  }

  lemma {:induction false} KeepMembers<T>(s: seq<T>, p: T -> bool)
    ensures forall x | x in Keep(s, p) :: x in s && p(x)
  {
    if s != [] { KeepMembers(Init(s), p); }
  }

  lemma KeptEach<T>(s: seq<T>, p: T -> bool)
    ensures forall i | 0 <= i < |Keep(s, p)| :: p(Keep(s, p)[i])
  {
    KeepMembers(s, p);
    assert forall i | 0 <= i < |Keep(s, p)| :: Keep(s, p)[i] in Keep(s, p);
  }

  /** Keeping elements neither loses nor adds any that satisfy `p`. */
  lemma {:induction false} KeepCounts<T>(s: seq<T>, p: T -> bool, x: T)
    ensures multiset(Keep(s, p))[x] == if p(x) then multiset(s)[x] else 0
  {
    if s != [] {
      KeepCounts(Init(s), p, x);
      assert s == Init(s) + [Last(s)];
    }
  }

  function Flatten<T>(parts: seq<seq<T>>): seq<T> {
    if parts == [] then [] else Flatten(Init(parts)) + Last(parts)
  }
}
