/** String order, and the stable sort the Go library provides. */
module Ordering {

  /** `a < b` on strings. */
  predicate Less(a: string, b: string) {
    b != "" && (a == "" || a[0] < b[0] || (a[0] == b[0] && Less(a[1..], b[1..])))
  }

  lemma {:induction false} LessTotal(a: string, b: string)
    ensures !(Less(a, b) && Less(b, a)) && !Less(a, a)
    ensures a == b || Less(a, b) || Less(b, a)
  {
    if a != "" && b != "" {
      LessTotal(a[1..], b[1..]);
      if a[0] == b[0] && a[1..] == b[1..] {
        assert a == [a[0]] + a[1..] == b;
      }
    }
    if a != "" {
      LessTotal(a[1..], a[1..]);
    }
  }

  lemma {:induction false} LessTransitive(a: string, b: string, c: string)
    requires Less(a, b) && Less(b, c)
    ensures Less(a, c)
  {
    if a != "" && a[0] == b[0] == c[0] {
      LessTransitive(a[1..], b[1..], c[1..]);
    }
  }

  /** A strict weak order: what a sort may be asked to sort by. */
  ghost predicate WeakOrder<T(!new)>(less: (T, T) -> bool) {
    && (forall a, b :: less(a, b) ==> !less(b, a))
    && (forall a, b, c :: less(a, b) && less(b, c) ==> less(a, c))
    && (forall a, b, c :: !less(a, b) && !less(b, c) ==> !less(a, c))
  }

  /** Puts `x` in front of the first element that does not come before it. */
  function Insert<T>(less: (T, T) -> bool, x: T, s: seq<T>): seq<T> {
    if s == [] || !less(s[0], x) then [x] + s else [s[0]] + Insert(less, x, s[1..])
  }

  /** The stable sort of `s`. */
  function StableSort<T>(less: (T, T) -> bool, s: seq<T>): seq<T> {
    if s == [] then [] else Insert(less, s[0], StableSort(less, s[1..]))
  }

  /** No later element comes before an earlier one. */
  predicate Sorted<T>(less: (T, T) -> bool, s: seq<T>) {
    s == [] || ((forall k | 1 <= k < |s| :: !less(s[k], s[0])) && Sorted(less, s[1..]))
  }

  /** In a sorted list nothing stands behind what it comes before. */
  lemma {:induction false} SortedAt<T>(less: (T, T) -> bool, s: seq<T>, i: nat, j: nat)
    requires Sorted(less, s) && i < j < |s|
    ensures !less(s[j], s[i])
  {
    if i > 0 {
      SortedAt(less, s[1..], i - 1, j - 1);
    }
  }

  lemma {:induction false} InsertElements<T>(less: (T, T) -> bool, x: T, s: seq<T>)
    ensures multiset(Insert(less, x, s)) == multiset{x} + multiset(s)
    ensures forall y :: y in Insert(less, x, s) <==> y == x || y in s
  {
    if s != [] && less(s[0], x) {
      InsertElements(less, x, s[1..]);
      assert s == [s[0]] + s[1..];
    }
  }

  lemma {:induction false} SortElements<T>(less: (T, T) -> bool, s: seq<T>)
    ensures multiset(StableSort(less, s)) == multiset(s)
    ensures forall y :: y in StableSort(less, s) <==> y in s
  {
    if s != [] {
      SortElements(less, s[1..]);
      InsertElements(less, s[0], StableSort(less, s[1..]));
      assert s == [s[0]] + s[1..];
    }
  }

  lemma {:induction false} InsertSorted<T(!new)>(less: (T, T) -> bool, x: T, s: seq<T>)
    requires WeakOrder(less) && Sorted(less, s)
    ensures Sorted(less, Insert(less, x, s))
  {
    var r := Insert(less, x, s);
    if s == [] || !less(s[0], x) {
      assert r[1..] == s;
      forall k | 1 <= k < |r| ensures !less(r[k], x) {
        if k > 1 { assert !less(s[k - 1], s[0]); }
      }
    } else {
      InsertSorted(less, x, s[1..]);
      InsertElements(less, x, s[1..]);
      assert r[1..] == Insert(less, x, s[1..]);
      forall k | 1 <= k < |r| ensures !less(r[k], s[0]) {
        assert r[k] in r[1..];
        if r[k] != x { var j :| 0 <= j < |s[1..]| && s[1..][j] == r[k]; assert s[j + 1] == r[k]; }
      }
    }
  }

  lemma {:induction false} SortSorted<T(!new)>(less: (T, T) -> bool, s: seq<T>)
    requires WeakOrder(less)
    ensures Sorted(less, StableSort(less, s))
  {
    if s != [] {
      SortSorted(less, s[1..]);
      InsertSorted(less, s[0], StableSort(less, s[1..]));
    }
  }

  /** Sorting what is sorted changes nothing. */
  lemma {:induction false} SortFixed<T>(less: (T, T) -> bool, s: seq<T>)
    requires Sorted(less, s)
    ensures StableSort(less, s) == s
  {
    if s != [] {
      SortFixed(less, s[1..]);
      assert s == [s[0]] + s[1..];
    }
  }

  /** The elements for which `keep` holds, in order. */
  function Keep<T>(keep: T -> bool, xs: seq<T>): seq<T> {
    if xs == [] then []
    else
      var rest := Keep(keep, xs[..|xs| - 1]);
      if keep(xs[|xs| - 1]) then rest + [xs[|xs| - 1]] else rest
  }

  lemma KeepNext<T>(keep: T -> bool, xs: seq<T>, i: nat)
    requires i < |xs|
    ensures Keep(keep, xs[..i + 1]) == Keep(keep, xs[..i]) + (if keep(xs[i]) then [xs[i]] else [])
  {
    assert xs[..i + 1][..i] == xs[..i];
  }

  lemma {:induction false} KeepMembers<T(!new)>(keep: T -> bool, xs: seq<T>)
    ensures forall x :: multiset(Keep(keep, xs))[x] == if keep(x) then multiset(xs)[x] else 0
    ensures forall i | 0 <= i < |Keep(keep, xs)| :: keep(Keep(keep, xs)[i])
  {
    if xs != [] {
      KeepMembers(keep, xs[..|xs| - 1]);
      assert xs == xs[..|xs| - 1] + [xs[|xs| - 1]];
    }
  }

  lemma {:induction false} KeepAll<T>(keep: T -> bool, xs: seq<T>)
    requires forall i | 0 <= i < |xs| :: keep(xs[i])
    ensures Keep(keep, xs) == xs
  {
    if xs != [] {
      KeepAll(keep, xs[..|xs| - 1]);
      assert xs == xs[..|xs| - 1] + [xs[|xs| - 1]];
    }
  }

  lemma {:induction false} KeepConcat<T>(keep: T -> bool, xs: seq<T>, ys: seq<T>)
    ensures Keep(keep, xs + ys) == Keep(keep, xs) + Keep(keep, ys)
  {
    if ys == [] {
      assert xs + ys == xs;
    } else {
      KeepConcat(keep, xs, ys[..|ys| - 1]);
      assert (xs + ys)[..|xs + ys| - 1] == xs + ys[..|ys| - 1];
    }
  }

  /** The elements with the property all rank alike. */
  ghost predicate Alike<T(!new)>(less: (T, T) -> bool, keep: T -> bool) {
    forall a, b {:trigger keep(a), keep(b)} :: keep(a) && keep(b) ==> !less(a, b)
  }

  function Lead<T>(keep: T -> bool, x: T): seq<T> {
    if keep(x) then [x] else []
  }

  lemma KeepCons<T>(keep: T -> bool, x: T, xs: seq<T>)
    ensures Keep(keep, [x] + xs) == Lead(keep, x) + Keep(keep, xs)
  {
    KeepConcat(keep, [x], xs);
    assert Keep(keep, [x][..0]) == [];
  }

  lemma {:induction false} InsertStable<T(!new)>(less: (T, T) -> bool, x: T, s: seq<T>, keep: T -> bool)
    requires Alike(less, keep)
    ensures Keep(keep, Insert(less, x, s)) == Lead(keep, x) + Keep(keep, s)
  {
    if s == [] || !less(s[0], x) {
      KeepCons(keep, x, s);
    } else {
      var rest := s[1..];
      InsertStable(less, x, rest, keep);
      KeepCons(keep, s[0], Insert(less, x, rest));
      KeepCons(keep, s[0], rest);
      assert s == [s[0]] + rest;
      assert Lead(keep, s[0]) == [] || Lead(keep, x) == [];
      ExchangeEmpty(Lead(keep, s[0]), Lead(keep, x), Keep(keep, rest));
    }
  }

  lemma ExchangeEmpty<T>(a: seq<T>, b: seq<T>, rest: seq<T>)
    requires a == [] || b == []
    ensures a + (b + rest) == b + (a + rest)
  {
  }

  /** Elements that rank alike keep their order. */
  lemma {:induction false} SortStable<T(!new)>(less: (T, T) -> bool, s: seq<T>, keep: T -> bool)
    requires Alike(less, keep)
    ensures Keep(keep, StableSort(less, s)) == Keep(keep, s)
  {
    if s != [] {
      var rest := StableSort(less, s[1..]);
      SortStable(less, s[1..], keep);
      InsertStable(less, s[0], rest, keep);
      KeepCons(keep, s[0], s[1..]);
      assert s == [s[0]] + s[1..];
    }
  }

  /** No two elements rank alike, and each comes before all later ones. */
  predicate Strict<T>(less: (T, T) -> bool, s: seq<T>) {
    s == [] || ((forall k | 1 <= k < |s| :: less(s[0], s[k])) && Strict(less, s[1..]))
  }

  lemma {:induction false} StrictAt<T>(less: (T, T) -> bool, s: seq<T>, i: nat, j: nat)
    requires Strict(less, s) && i < j < |s|
    ensures less(s[i], s[j])
  {
    if i > 0 { StrictAt(less, s[1..], i - 1, j - 1); }
  }

  /** A set of elements is listed in strict order in one way only. */
  lemma {:induction false} StrictUnique<T(!new)>(less: (T, T) -> bool, s: seq<T>, t: seq<T>)
    requires WeakOrder(less) && Strict(less, s) && Strict(less, t)
    requires forall x :: x in s <==> x in t
    ensures s == t
  {
    assert t == [] || t[0] in t;
    if s != [] {
      assert s[0] in t;
      assert t[0] in s;
      assert s[0] == t[0];
      forall x ensures x in s[1..] <==> x in t[1..] {
        StrictHead(less, s, x);
        StrictHead(less, t, x);
      }
      StrictUnique(less, s[1..], t[1..]);
      assert s == [s[0]] + s[1..] && t == [t[0]] + t[1..];
    }
  }

  lemma StrictHead<T(!new)>(less: (T, T) -> bool, s: seq<T>, x: T)
    requires WeakOrder(less) && Strict(less, s) && s != []
    ensures x in s[1..] <==> x in s && x != s[0]
  {
    assert s == [s[0]] + s[1..];
    forall k | 0 <= k < |s[1..]| ensures s[1..][k] != s[0] {
      assert less(s[0], s[k + 1]);
    }
  }

  /** Any two different elements are ordered one way or the other. */
  ghost predicate Total<T(!new)>(less: (T, T) -> bool) {
    forall a, b :: a != b ==> less(a, b) || less(b, a)
  }
}
