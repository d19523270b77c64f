/**
 Keys of the example storage: how they are compared, and how they are hashed in
 unsigned words of any width.
 */
module Keys {

  /** A C `char`, signed. */
  type CChar = c: int | -128 <= c < 128

  type CString = seq<CChar>

  /** A key expression holds no NUL character. */
  type Key = k: CString | 0 !in k witness []

  // ---------------------------------------------------------------- comparison

  /** `strncmp(a, b, n) == 0` from position `i` on: equal up to the end or a common NUL. */
  predicate SamePrefix(a: CString, b: CString, i: nat)
    requires i <= |a| == |b|
    decreases |a| - i
  {
    i == |a| || (a[i] == b[i] && (a[i] == 0 || SamePrefix(a, b, i + 1)))
  }

  /** `_storage_compare_string` */
  predicate Compare(a: CString, b: CString) {
    |a| == |b| && SamePrefix(a, b, 0)
  }

  lemma {:induction false} SamePrefixMeaning(a: CString, b: CString, i: nat)
    requires i <= |a| == |b|
    ensures SamePrefix(a, b, i) <==>
            forall j | i <= j < |a| :: (forall k | i <= k < j :: a[k] != 0) ==> a[j] == b[j]
    decreases |a| - i
  {
    if i < |a| && a[i] == b[i] && a[i] != 0 {
      SamePrefixMeaning(a, b, i + 1);
      if SamePrefix(a, b, i + 1) {
        forall j | i <= j < |a| && (forall k | i <= k < j :: a[k] != 0) ensures a[j] == b[j] {
        }
      } else {
        var j :| i + 1 <= j < |a| && (forall k | i + 1 <= k < j :: a[k] != 0) && a[j] != b[j];
        assert forall k | i <= k < j :: a[k] != 0;
      }
    }
  }

  /**
   Comparison decides equality with every other string exactly for the strings that hold
   no NUL before their last character.
   */
  lemma CompareExact(a: CString)
    ensures (forall b :: Compare(a, b) <==> a == b) <==> (forall k | 0 <= k < |a| - 1 :: a[k] != 0)
  {
    if forall k | 0 <= k < |a| - 1 :: a[k] != 0 {
      forall b ensures Compare(a, b) <==> a == b {
        if |a| == |b| { SamePrefixMeaning(a, b, 0); }
      }
    } else {
      var k :| 0 <= k < |a| - 1 && a[k] == 0;
      var b := a[|a| - 1 := if a[|a| - 1] == 1 then 2 else 1];
      SamePrefixMeaning(a, b, 0);
      assert Compare(a, b) && b[|a| - 1] != a[|a| - 1];
    }
  }

  /** For keys, comparison is equality. */
  lemma CompareKeys(a: Key, b: Key)
    ensures Compare(a, b) <==> a == b
  {
    CompareExact(a);
  }

  // ---------------------------------------------------------------- hashing

  /** One round of the loop in unsigned arithmetic modulo `word`; the character is converted first. */
  function HashStep(h: nat, c: CChar, word: nat): nat
    requires word > 0
  {
    (((h * 32) % word + h) % word + c % word) % word
  }

  method HashString(s: CString, word: nat) returns (hash: nat)
    requires word > 0
    ensures hash == Hash(s, word)
  {
    hash := 5381 % word;
    for i := 0 to |s|
      invariant hash == Hash(s[..i], word)
    {
      assert s[..i + 1][..i] == s[..i];
      hash := HashStep(hash, s[i], word);
    }
    assert s[..|s|] == s;
  }

  function Hash(s: CString, word: nat): nat
    requires word > 0
  {
    if s == [] then 5381 % word else HashStep(Hash(s[..|s| - 1], word), s[|s| - 1], word)
  }

  function Pow33(n: nat): nat {
    if n == 0 then 1 else 33 * Pow33(n - 1)
  }

  /** The characters weighted by powers of 33, the last one by 1. */
  function Weighted(s: CString): int {
    if s == [] then 0 else s[0] * Pow33(|s| - 1) + Weighted(s[1..])
  }

  /** The hash as an unbounded integer. */
  function Polynomial(s: CString): int {
    5381 * Pow33(|s|) + Weighted(s)
  }

  lemma {:induction false} WeightedSnoc(s: CString, c: CChar)
    ensures Weighted(s + [c]) == 33 * Weighted(s) + c
  {
    if s == [] {
      assert (s + [c])[1..] == [];
      assert Pow33(0) == 1;
    } else {
      assert (s + [c])[1..] == s[1..] + [c];
      WeightedSnoc(s[1..], c);
      var p := Pow33(|s| - 1);
      assert Pow33(|s|) == 33 * p;
      assert s[0] * (33 * p) == 33 * (s[0] * p);
    }
  }

  lemma PolynomialSnoc(s: CString, c: CChar)
    ensures Polynomial(s + [c]) == 33 * Polynomial(s) + c
  {
    WeightedSnoc(s, c);
  }

  lemma {:induction false} ModShift(x: int, k: int, m: nat)
    requires m > 0
    ensures (x + k * m) % m == x % m
    decreases if k < 0 then -k else k
  {
    if k > 0 {
      ModShift(x, k - 1, m);
      assert x + k * m == (x + (k - 1) * m) + m;
      ModStep(x + (k - 1) * m, m);
    } else if k < 0 {
      ModShift(x, k + 1, m);
      assert x + (k + 1) * m == (x + k * m) + m;
      ModStep(x + k * m, m);
    }
  }

  lemma ModStep(y: int, m: nat)
    requires m > 0
    ensures (y + m) % m == y % m
  {
    var q, r := y / m, y % m;
    assert y + m == (q + 1) * m + r;
    DivUnique(y + m, q + 1, r, m);
  }

  lemma DivUnique(y: int, q: int, r: int, m: nat)
    requires m > 0 && 0 <= r < m && y == q * m + r
    ensures y % m == r
  {
    var q', r' := y / m, y % m;
    assert (q - q') * m == r' - r;
    AwayFromZero(q - q', m);
  }

  lemma AwayFromZero(k: int, m: nat)
    ensures k >= 1 ==> k * m >= m
    ensures k <= -1 ==> k * m <= 0 - m
  {
  }

  /** A summand may be reduced before adding. */
  lemma ModAdd(x: int, y: int, m: nat)
    requires m > 0
    ensures (x % m + y) % m == (x + y) % m
  {
    ModShift(x % m + y, x / m, m);
    assert x == x / m * m + x % m;
  }

  lemma HashStepMeaning(h: nat, c: CChar, word: nat)
    requires word > 0
    ensures HashStep(h, c, word) == (33 * h + c) % word
  {
    ModAdd(h * 32, h, word);
    assert h * 32 + h == 33 * h;
    ModAdd(33 * h, c % word, word);
    ModAdd(c, 33 * h, word);
  }

  /**
   Whatever the width of the word, the shift-and-add loop computes
   5381 * 33^n plus the characters weighted by powers of 33, reduced to the word;
   negative characters included.
   */
  lemma {:induction false} HashIsPolynomial(s: CString, word: nat)
    requires word > 0
    ensures Hash(s, word) == Polynomial(s) % word
  {
    if s == [] {
      assert Pow33(0) == 1;
    } else {
      var front, c := s[..|s| - 1], s[|s| - 1];
      HashIsPolynomial(front, word);
      HashStepMeaning(Hash(front, word), c, word);
      PolynomialSnoc(front, c);
      assert front + [c] == s;
      Scale(Polynomial(front), c, word);
    }
  }

  lemma Scale(p: int, c: int, word: nat)
    requires word > 0
    ensures (33 * (p % word) + c) % word == (33 * p + c) % word
  {
    var q := p / word;
    assert p == q * word + p % word;
    assert 33 * p + c == (33 * (p % word) + c) + (33 * q) * word;
    ModShift(33 * (p % word) + c, 33 * q, word);
  }

  /** The bin of a key: its hash modulo the number of bins. */
  function BinOf(s: CString, bins: nat, word: nat): (b: nat)
    requires bins > 0 && word > 0
    ensures b < bins
  {
    Hash(s, word) % bins
  }

  lemma ModMod(p: int, q: int, bins: nat, word: nat)
    requires bins > 0 && word > 0 && word == q * bins
    ensures p % word % bins == p % bins
  {
    var d := p / word;
    assert p == d * word + p % word;
    assert d * (q * bins) == (d * q) * bins;
    ModShift(p % word, d * q, bins);
  }

  /** When the number of bins divides the word, the bin does not depend on the word. */
  lemma BinIgnoresWord(s: CString, bins: nat, word: nat)
    requires bins > 0 && word > 0 && word % bins == 0
    ensures BinOf(s, bins, word) == Polynomial(s) % bins
  {
    HashIsPolynomial(s, word);
    ModMod(Polynomial(s), word / bins, bins, word);
  }
}
