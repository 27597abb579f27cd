/** Version expressions (internal/rules/m1engine.go): parsing, comparing and the ranges they accept. */
module Versions {
  import opened Text
  import opened Numbers

  // ---------------------------------------------------------------------
  // Parsing
  // ---------------------------------------------------------------------

  const PREFIXES := [">=", "<=", "~>", "^", ">", "<", "=", "node", "lts/"]

  function TrimPrefixes(s: string, prefixes: seq<string>): string {
    if prefixes == [] then s else TrimPrefixes(TrimPrefix(s, prefixes[0]), prefixes[1..])
  }

  method NormalizeVersion(v: string) returns (r: string)
    ensures r == Normalized(v)
  {
    r := TrimPrefix(TrimPrefix(TrimSpace(v), "v"), "go");
    ghost var first := r;
    for i := 0 to |PREFIXES|
      invariant TrimPrefixes(first, PREFIXES) == TrimPrefixes(r, PREFIXES[i..])
    {
      r := TrimPrefix(r, PREFIXES[i]);
    }
    r := TrimSpace(r);
  }

  function Normalized(v: string): string {
    TrimSpace(TrimPrefixes(TrimPrefix(TrimPrefix(TrimSpace(v), "v"), "go"), PREFIXES))
  }

  /** Drops a wildcard at the end of a field. */
  function TrimWildcard(s: string): string {
    if s != "" && s[|s| - 1] in {'x', 'X', '*'} then TrimWildcard(s[..|s| - 1]) else s
  }

  function Field(s: string): string {
    TrimWildcard(TrimSpace(s))
  }

  /** The numbers up to the first wildcard; nothing when one of them is not a number. */
  function ParseFields(fields: seq<string>): Option<seq<int>> {
    if fields == [] || Field(fields[0]) == "" then Some([])
    else
      match Atoi(Field(fields[0]))
      case None => None
      case Some(n) => Prepend([n], ParseFields(fields[1..]))
  }

  function Prepend(front: seq<int>, rest: Option<seq<int>>): Option<seq<int>> {
    match rest
    case None => None
    case Some(parts) => Some(front + parts)
  }

  function ParseNormalized(v: string): (r: Option<seq<int>>)
    ensures r != Some([])
  {
    if v == "" || v == "*" then None
    else
      var parts := ParseFields(Split(v, '.'));
      if parts == Some([]) then None else parts
  }

  function Parse(v: string): (r: Option<seq<int>>)
    ensures r != Some([])
  {
    ParseNormalized(Normalized(v))
  }

  lemma PrependNothing(rest: Option<seq<int>>)
    ensures Prepend([], rest) == rest
  {
    if rest.Some? { assert [] + rest.value == rest.value; }
  }

  lemma PrependTwice(a: seq<int>, n: int, rest: Option<seq<int>>)
    ensures Prepend(a, Prepend([n], rest)) == Prepend(a + [n], rest)
  {
    if rest.Some? { assert a + ([n] + rest.value) == (a + [n]) + rest.value; }
  }

  method ParseVersionParts(v: string) returns (r: Option<seq<int>>)
    ensures r == Parse(v)
  {
    var text := NormalizeVersion(v);
    if text == "" || text == "*" { return None; }
    var fields := Split(text, '.');
    var parts: seq<int> := [];
    var i := 0;
    PrependNothing(ParseFields(fields));
    assert fields[0..] == fields;
    while i < |fields|
      invariant i <= |fields|
      invariant ParseFields(fields) == Prepend(parts, ParseFields(fields[i..]))
    {
      var field := Field(fields[i]);
      if field == "" { break; }
      var n := Atoi(field);
      if n == None { return None; }
      PrependTwice(parts, n.value, ParseFields(fields[i + 1..]));
      assert fields[i..][1..] == fields[i + 1..];
      parts := parts + [n.value];
      i := i + 1;
    }
    assert ParseFields(fields[i..]) == Some([]);
    assert parts + [] == parts;
    r := if parts == [] then None else Some(parts);
  }

  // ---------------------------------------------------------------------
  // Comparing
  // ---------------------------------------------------------------------

  /** A version has every part; the ones not written are zero. */
  function Part(v: seq<int>, i: nat): int {
    if i < |v| then v[i] else 0
  }

  /** Compares the parts from `i` up to `n`. */
  function CompareFrom(a: seq<int>, t: seq<int>, i: nat, n: nat): (r: int)
    ensures -1 <= r <= 1
    decreases n - i
  {
    if i >= n then 0
    else if Part(a, i) < Part(t, i) then -1
    else if Part(a, i) > Part(t, i) then 1
    else CompareFrom(a, t, i + 1, n)
  }

  function Longest(a: seq<int>, t: seq<int>): nat {
    if |t| > |a| then |t| else |a|
  }

  function LongestOf(a: seq<int>, b: seq<int>, c: seq<int>): nat {
    if |c| > Longest(a, b) then |c| else Longest(a, b)
  }

  function Compare(a: seq<int>, t: seq<int>): int {
    CompareFrom(a, t, 0, Longest(a, t))
  }

  /** Compares only the parts the target writes. */
  function ComparePrefix(a: seq<int>, t: seq<int>): int {
    CompareFrom(a, t, 0, |t|)
  }

  method CompareVersionParts(actual: seq<int>, target: seq<int>) returns (r: int)
    ensures r == Compare(actual, target)
  {
    var maxLen := |actual|;
    if |target| > maxLen { maxLen := |target|; }
    for i := 0 to maxLen
      invariant Compare(actual, target) == CompareFrom(actual, target, i, maxLen)
    {
      var a := 0;
      if i < |actual| { a := actual[i]; }
      var t := 0;
      if i < |target| { t := target[i]; }
      if a < t { return -1; }
      if a > t { return 1; }
    }
    return 0;
  }

  method CompareVersionPartsPrefix(actual: seq<int>, target: seq<int>) returns (r: int)
    ensures r == ComparePrefix(actual, target)
  {
    for i := 0 to |target|
      invariant ComparePrefix(actual, target) == CompareFrom(actual, target, i, |target|)
    {
      var a := 0;
      if i < |actual| { a := actual[i]; }
      if a < target[i] { return -1; }
      if a > target[i] { return 1; }
    }
    return 0;
  }

  /** The versions agree before part `i`. */
  predicate SameBefore(a: seq<int>, b: seq<int>, i: nat) {
    forall j: nat | j < i :: Part(a, j) == Part(b, j)
  }

  /** Part `i`, before `n`, is the first to differ, and it is smaller in `a`. */
  predicate SmallerAt(a: seq<int>, b: seq<int>, i: nat, n: nat) {
    i < n && SameBefore(a, b, i) && Part(a, i) < Part(b, i)
  }

  /** What the comparison of the first `n` parts finds out. */
  lemma {:induction false} CompareMeaning(a: seq<int>, b: seq<int>, i: nat, n: nat)
    requires SameBefore(a, b, i) && i <= n
    ensures CompareFrom(a, b, i, n) == 0 <==> SameBefore(a, b, n)
    ensures CompareFrom(a, b, i, n) < 0 <==> exists k: nat :: SmallerAt(a, b, k, n)
    ensures CompareFrom(a, b, i, n) > 0 <==> exists k: nat :: SmallerAt(b, a, k, n)
    decreases n - i
  {
    if i < n {
      if Part(a, i) == Part(b, i) {
        CompareMeaning(a, b, i + 1, n);
      } else if Part(a, i) < Part(b, i) {
        assert SmallerAt(a, b, i, n);
      } else {
        assert SmallerAt(b, a, i, n);
      }
    }
  }

  /** Comparing past the written parts makes no difference. */
  lemma {:induction false} CompareFurther(a: seq<int>, b: seq<int>, i: nat, n: nat, m: nat)
    requires Longest(a, b) <= n <= m
    ensures CompareFrom(a, b, i, n) == CompareFrom(a, b, i, m)
    decreases m - i
  {
    if i < m { CompareFurther(a, b, i + 1, n, m); }
  }

  lemma {:induction false} CompareMirrored(a: seq<int>, b: seq<int>, i: nat, n: nat)
    ensures CompareFrom(a, b, i, n) == -CompareFrom(b, a, i, n)
    decreases n - i
  {
    if i < n { CompareMirrored(a, b, i + 1, n); }
  }

  lemma {:induction false} ChainedFrom(a: seq<int>, b: seq<int>, c: seq<int>, i: nat, n: nat)
    requires CompareFrom(a, b, i, n) <= 0 && CompareFrom(b, c, i, n) <= 0
    ensures CompareFrom(a, c, i, n) <= 0
    ensures CompareFrom(a, c, i, n) == 0 ==> CompareFrom(a, b, i, n) == 0 && CompareFrom(b, c, i, n) == 0
    decreases n - i
  {
    if i < n && Part(a, i) == Part(b, i) == Part(c, i) { ChainedFrom(a, b, c, i + 1, n); }
  }

  /** The order of versions is a total preorder; equal versions differ in trailing zeros only. */
  lemma TotalPreorder(a: seq<int>, b: seq<int>, c: seq<int>)
    ensures Compare(a, b) == -Compare(b, a)
    ensures Compare(a, b) <= 0 || Compare(b, a) <= 0
    ensures Compare(a, b) <= 0 && Compare(b, c) <= 0 ==> Compare(a, c) <= 0
    ensures Compare(a, b) == 0 <==> forall i: nat :: Part(a, i) == Part(b, i)
  {
    CompareMirrored(a, b, 0, Longest(a, b));
    var n := LongestOf(a, b, c);
    CompareFurther(a, b, 0, Longest(a, b), n);
    CompareFurther(b, c, 0, Longest(b, c), n);
    CompareFurther(a, c, 0, Longest(a, c), n);
    if Compare(a, b) <= 0 && Compare(b, c) <= 0 { ChainedFrom(a, b, c, 0, n); }
    CompareMeaning(a, b, 0, Longest(a, b));
    if Compare(a, b) == 0 {
      forall i: nat ensures Part(a, i) == Part(b, i) {}
    }
  }

  lemma {:induction false} ComparedLess(a: seq<int>, b: seq<int>, t: seq<int>, i: nat, n: nat, m: nat)
    requires n <= m && CompareFrom(a, b, i, m) <= 0
    ensures CompareFrom(a, t, i, n) <= CompareFrom(b, t, i, n)
    decreases n - i
  {
    if i < n && Part(a, i) == Part(b, i) { ComparedLess(a, b, t, i + 1, n, m); }
  }

  /** A later version does not compare lower, with the whole target or with its prefix. */
  lemma Monotone(a: seq<int>, b: seq<int>, t: seq<int>)
    requires Compare(a, b) <= 0
    ensures ComparePrefix(a, t) <= ComparePrefix(b, t)
    ensures Compare(a, t) <= Compare(b, t)
  {
    var n := LongestOf(a, b, t);
    CompareFurther(a, b, 0, Longest(a, b), n);
    CompareFurther(a, t, 0, Longest(a, t), n);
    CompareFurther(b, t, 0, Longest(b, t), n);
    ComparedLess(a, b, t, 0, |t|, n);
    ComparedLess(a, b, t, 0, n, n);
  }

  predicate Natural(v: seq<int>) {
    forall k | 0 <= k < |v| :: v[k] >= 0
  }

  lemma {:induction false} NoPartBelowZero(a: seq<int>, t: seq<int>, i: nat, n: nat)
    requires Natural(a) && |t| <= i
    ensures CompareFrom(a, t, i, n) >= 0
    decreases n - i
  {
    if i < n { NoPartBelowZero(a, t, i + 1, n); }
  }

  lemma {:induction false} SplitCompare(a: seq<int>, t: seq<int>, i: nat, n: nat, m: nat)
    requires i <= n <= m
    ensures CompareFrom(a, t, i, m) == if CompareFrom(a, t, i, n) != 0 then CompareFrom(a, t, i, n)
                                       else CompareFrom(a, t, n, m)
    decreases n - i
  {
    if i < n { SplitCompare(a, t, i + 1, n, m); }
  }

  /** Below and at-least mean the order; at-most and above also ignore what the target does not write. */
  lemma PrefixAgainstOrder(a: seq<int>, t: seq<int>)
    requires Natural(a)
    ensures ComparePrefix(a, t) >= 0 <==> Compare(a, t) >= 0
    ensures ComparePrefix(a, t) == 0 <==> SameBefore(a, t, |t|)
  {
    SplitCompare(a, t, 0, |t|, Longest(a, t));
    NoPartBelowZero(a, t, |t|, Longest(a, t));
    CompareMeaning(a, t, 0, |t|);
  }
}
