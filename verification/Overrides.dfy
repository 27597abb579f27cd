/** Collecting a list where the last element with a key wins: the override of one table by another. */
module Overrides {
  import opened Text
  import opened Ordering
  import opened Grouping

  /** Of two elements with one key the later one stands. */
  function Replace<T>(a: T, b: T): T { b }

  /** The last element of the list with key `k`. */
  function LastOf<T, K(==)>(key: T -> K, xs: seq<T>, k: K): Option<T> {
    if xs == [] then None
    else if key(xs[|xs| - 1]) == k then Some(xs[|xs| - 1])
    else LastOf(key, xs[..|xs| - 1], k)
  }

  function Import<T, K(==)>(key: T -> K, s: seq<T>, xs: seq<T>): seq<T> {
    AbsorbAll(key, Replace, s, xs)
  }

  lemma OverrideOne<T, K>(key: T -> K, s: seq<T>, x: T, k: K)
    ensures Lookup(key, Absorb(key, Replace, s, x), k) == if key(x) == k then Some(x) else Lookup(key, s, k)
  {
    var i := IndexOf(key, s, key(x));
    if i < |s| {
      IndexStays(key, s, s[i := x], k);
    } else {
      IndexAppended(key, s, x, k);
    }
  }

  /** Importing is map override: the last imported element with a key wins over the table's own. */
  lemma {:induction false} Override<T, K>(key: T -> K, s: seq<T>, xs: seq<T>, k: K)
    ensures Lookup(key, Import(key, s, xs), k)
            == match LastOf(key, xs, k) case Some(e) => Some(e) case None => Lookup(key, s, k)
  {
    if xs != [] {
      Override(key, s, xs[..|xs| - 1], k);
      OverrideOne(key, Import(key, s, xs[..|xs| - 1]), xs[|xs| - 1], k);
    }
  }

  /** Importing keeps keys unique. */
  lemma {:induction false} ImportKeepsDistinct<T(!new), K>(key: T -> K, s: seq<T>, xs: seq<T>)
    requires DistinctKeys(key, s)
    ensures DistinctKeys(key, Import(key, s, xs))
  {
    if xs != [] {
      ImportKeepsDistinct(key, s, xs[..|xs| - 1]);
      AbsorbKeepsDistinct(key, Replace, Import(key, s, xs[..|xs| - 1]), xs[|xs| - 1]);
    }
  }

  /** Elements of `s` whose key comes in `xs` are all there is to change. */
  predicate Has<T, K(==)>(key: T -> K, s: seq<T>, xs: seq<T>) {
    forall j | 0 <= j < |xs| :: IndexOf(key, s, key(xs[j])) < |s|
  }

  /** Importing keys the table has keeps its length, its keys and whatever is not first with its key. */
  lemma {:induction false} ImportInPlace<T, K>(key: T -> K, s: seq<T>, xs: seq<T>)
    requires Has(key, s, xs)
    ensures var r := Import(key, s, xs);
            |r| == |s| && (forall i | 0 <= i < |s| :: key(r[i]) == key(s[i]))
            && (forall i | 0 <= i < |s| && i != IndexOf(key, s, key(s[i])) :: r[i] == s[i])
  {
    if xs != [] {
      var front, x := xs[..|xs| - 1], xs[|xs| - 1];
      forall j | 0 <= j < |front| ensures IndexOf(key, s, key(front[j])) < |s| { assert front[j] == xs[j]; }
      ImportInPlace(key, s, front);
      IndexStays(key, s, Import(key, s, front), key(x));
    }
  }

  /** Under every key of `xs` the table holds the last element `xs` has for it. */
  predicate Holds<T(==), K(==)>(key: T -> K, s: seq<T>, xs: seq<T>) {
    forall j | 0 <= j < |xs| :: Lookup(key, s, key(xs[j])) == LastOf(key, xs, key(xs[j]))
  }

  lemma {:induction false} LastOfKnown<T, K>(key: T -> K, xs: seq<T>, j: nat)
    requires j < |xs|
    ensures LastOf(key, xs, key(xs[j])).Some?
  {
    if j < |xs| - 1 && key(xs[|xs| - 1]) != key(xs[j]) { LastOfKnown(key, xs[..|xs| - 1], j); }
  }

  lemma {:induction false} LastOfPlace<T, K>(key: T -> K, xs: seq<T>, k: K) returns (j: nat)
    requires LastOf(key, xs, k).Some?
    ensures j < |xs| && xs[j] == LastOf(key, xs, k).value && key(xs[j]) == k
  {
    j := |xs| - 1;
    if key(xs[j]) != k { j := LastOfPlace(key, xs[..j], k); }
  }

  /** What is found under a key after importing into a table that holds the last elements already. */
  lemma FoundAgain<T, K>(key: T -> K, s: seq<T>, xs: seq<T>, k: K)
    requires Holds(key, s, xs)
    ensures Lookup(key, Import(key, s, xs), k) == Lookup(key, s, k)
  {
    Override(key, s, xs, k);
    if LastOf(key, xs, k).Some? {
      var j := LastOfPlace(key, xs, k);
    }
  }

  /** Importing leaves a table as it is exactly when it holds the last element for every key already. */
  lemma ImportFixed<T, K>(key: T -> K, s: seq<T>, xs: seq<T>)
    ensures Import(key, s, xs) == s <==> Holds(key, s, xs)
  {
    if Import(key, s, xs) == s {
      forall j | 0 <= j < |xs| ensures Lookup(key, s, key(xs[j])) == LastOf(key, xs, key(xs[j])) {
        LastOfKnown(key, xs, j);
        Override(key, s, xs, key(xs[j]));
      }
    }
    if Holds(key, s, xs) {
      forall j | 0 <= j < |xs| ensures IndexOf(key, s, key(xs[j])) < |s| { LastOfKnown(key, xs, j); }
      ImportInPlace(key, s, xs);
      var r := Import(key, s, xs);
      forall i | 0 <= i < |s| ensures r[i] == s[i] {
        var k := key(s[i]);
        if i == IndexOf(key, s, k) {
          FoundAgain(key, s, xs, k);
          IndexStays(key, s, r, k);
        }
      }
    }
  }

  lemma ImportHolds<T, K>(key: T -> K, s: seq<T>, xs: seq<T>)
    ensures Holds(key, Import(key, s, xs), xs)
  {
    forall j | 0 <= j < |xs|
      ensures Lookup(key, Import(key, s, xs), key(xs[j])) == LastOf(key, xs, key(xs[j]))
    {
      LastOfKnown(key, xs, j);
      Override(key, s, xs, key(xs[j]));
    }
  }

  /** Importing the same list again changes nothing. */
  lemma ImportTwice<T, K>(key: T -> K, s: seq<T>, xs: seq<T>)
    ensures Import(key, Import(key, s, xs), xs) == Import(key, s, xs)
  {
    ImportHolds(key, s, xs);
    ImportFixed(key, Import(key, s, xs), xs);
  }

  /** Nor does it when the table has been put in any other order in between, if keys are unique. */
  lemma HoldsPermuted<T(!new), K>(key: T -> K, s: seq<T>, xs: seq<T>, t: seq<T>)
    requires DistinctKeys(key, s) && multiset(t) == multiset(Import(key, s, xs))
    ensures Holds(key, t, xs)
  {
    var r := Import(key, s, xs);
    ImportHolds(key, s, xs);
    ImportKeepsDistinct(key, s, xs);
    PermutedDistinct(key, r, t);
    forall x ensures x in r <==> x in t {
      assert x in r <==> x in multiset(r);
      assert x in t <==> x in multiset(t);
    }
    forall j | 0 <= j < |xs| ensures Lookup(key, t, key(xs[j])) == LastOf(key, xs, key(xs[j])) {
      LookupSame(key, r, t, key(xs[j]));
    }
  }

  /** What a key finds is the first of the elements that have it. */
  lemma {:induction false} LookupKeep<T, K>(key: T -> K, k: K, has: T -> bool, s: seq<T>)
    requires forall x :: has(x) <==> key(x) == k
    ensures Lookup(key, s, k) == if Keep(has, s) == [] then None else Some(Keep(has, s)[0])
  {
    if s != [] {
      var front, x := s[..|s| - 1], s[|s| - 1];
      LookupKeep(key, k, has, front);
      IndexAppended(key, front, x, k);
      assert s == front + [x];
    }
  }

  /** A stable sort that does not tell elements with one key apart keeps what every key finds. */
  lemma SortKeepsLookup<T(!new), K>(key: T -> K, less: (T, T) -> bool, s: seq<T>, k: K, has: T -> bool)
    requires forall x :: has(x) <==> key(x) == k
    requires forall a, b :: key(a) == key(b) ==> !less(a, b)
    ensures Lookup(key, StableSort(less, s), k) == Lookup(key, s, k)
  {
    SortStable(less, s, has);
    LookupKeep(key, k, has, s);
    LookupKeep(key, k, has, StableSort(less, s));
  }

  // ---------------------------------------------------------------------
  // Two lists with the same keys
  // ---------------------------------------------------------------------

  predicate SameKeys<T, K(==)>(key: T -> K, xs: seq<T>, ys: seq<T>) {
    |xs| == |ys| && forall i | 0 <= i < |xs| :: key(xs[i]) == key(ys[i])
  }

  /** Importing lists with the same keys gives tables with the same keys, alike wherever a key is not first. */
  lemma {:induction false} ImportAlike<T, K>(key: T -> K, s: seq<T>, xs: seq<T>, ys: seq<T>)
    requires SameKeys(key, xs, ys)
    ensures var r, t := Import(key, s, xs), Import(key, s, ys);
            SameKeys(key, r, t) && forall i | 0 <= i < |r| && i != IndexOf(key, r, key(r[i])) :: r[i] == t[i]
  {
    if xs != [] {
      var front, other := xs[..|xs| - 1], ys[..|ys| - 1];
      var x, y := xs[|xs| - 1], ys[|ys| - 1];
      ImportAlike(key, s, front, other);
      var r, t := Import(key, s, front), Import(key, s, other);
      IndexStays(key, r, t, key(x));
      AlikeAfter(key, r, t, x, y);
    }
  }

  lemma AlikeAfter<T, K>(key: T -> K, r: seq<T>, t: seq<T>, x: T, y: T)
    requires SameKeys(key, r, t) && key(x) == key(y)
    requires forall i | 0 <= i < |r| && i != IndexOf(key, r, key(r[i])) :: r[i] == t[i]
    ensures var r', t' := Absorb(key, Replace, r, x), Absorb(key, Replace, t, y);
            SameKeys(key, r', t') && forall i | 0 <= i < |r'| && i != IndexOf(key, r', key(r'[i])) :: r'[i] == t'[i]
  {
    var r', t' := Absorb(key, Replace, r, x), Absorb(key, Replace, t, y);
    IndexStays(key, r, t, key(x));
    forall i | 0 <= i < |r'| && i != IndexOf(key, r', key(r'[i])) ensures r'[i] == t'[i] {
      if IndexOf(key, r, key(x)) < |r| {
        IndexStays(key, r, r', key(r'[i]));
      } else {
        IndexAppended(key, r, x, key(r'[i]));
      }
    }
  }

  /** Importing lists with the same keys gives the same table exactly when they have the same last elements. */
  lemma ImportSame<T, K>(key: T -> K, s: seq<T>, xs: seq<T>, ys: seq<T>)
    requires SameKeys(key, xs, ys)
    ensures Import(key, s, xs) == Import(key, s, ys)
            <==> forall j | 0 <= j < |xs| :: LastOf(key, xs, key(xs[j])) == LastOf(key, ys, key(xs[j]))
  {
    var r, t := Import(key, s, xs), Import(key, s, ys);
    ImportAlike(key, s, xs, ys);
    if r == t {
      forall j | 0 <= j < |xs| ensures LastOf(key, xs, key(xs[j])) == LastOf(key, ys, key(xs[j])) {
        LastOfKnown(key, xs, j);
        LastOfKnown(key, ys, j);
        Override(key, s, xs, key(xs[j]));
        Override(key, s, ys, key(xs[j]));
      }
    }
    if forall j | 0 <= j < |xs| :: LastOf(key, xs, key(xs[j])) == LastOf(key, ys, key(xs[j])) {
      forall i | 0 <= i < |r| ensures r[i] == t[i] {
        var k := key(r[i]);
        if i == IndexOf(key, r, k) {
          IndexStays(key, r, t, k);
          Override(key, s, xs, k);
          Override(key, s, ys, k);
          LastsAgree(key, xs, ys, k);
        }
      }
    }
  }

  lemma LastsAgree<T, K>(key: T -> K, xs: seq<T>, ys: seq<T>, k: K)
    requires SameKeys(key, xs, ys)
    requires forall j | 0 <= j < |xs| :: LastOf(key, xs, key(xs[j])) == LastOf(key, ys, key(xs[j]))
    ensures LastOf(key, xs, k) == LastOf(key, ys, k)
  {
    if LastOf(key, xs, k).Some? {
      var j := LastOfPlace(key, xs, k);
    } else if LastOf(key, ys, k).Some? {
      var j := LastOfPlace(key, ys, k);
      LastOfKnown(key, xs, j);
    }
  }

  /** The element at `j` is the last with its key. */
  predicate IsLast<T, K(==)>(key: T -> K, xs: seq<T>, j: nat)
    requires j < |xs|
  {
    forall i | j < i < |xs| :: key(xs[i]) != key(xs[j])
  }

  lemma {:induction false} LastOfIs<T, K>(key: T -> K, xs: seq<T>, j: nat)
    requires j < |xs| && IsLast(key, xs, j)
    ensures LastOf(key, xs, key(xs[j])) == Some(xs[j])
  {
    if j < |xs| - 1 {
      assert key(xs[|xs| - 1]) != key(xs[j]);
      LastOfIs(key, xs[..|xs| - 1], j);
    }
  }

  lemma {:induction false} LastPlace<T, K>(key: T -> K, xs: seq<T>, j: nat) returns (l: nat)
    requires j < |xs|
    ensures j <= l < |xs| && key(xs[l]) == key(xs[j]) && IsLast(key, xs, l)
    decreases |xs| - j
  {
    l := j;
    if !IsLast(key, xs, j) {
      var i :| j < i < |xs| && key(xs[i]) == key(xs[j]);
      l := LastPlace(key, xs, i);
    }
  }
}
