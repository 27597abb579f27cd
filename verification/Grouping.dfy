/** Collecting a list into one element per key, as the loops that keep an index of what they have seen do. */
module Grouping {
  import opened Text
  import opened Ordering

  /** The place of the first element with key `k`; past the end when there is none. */
  function IndexOf<T, K(==)>(key: T -> K, s: seq<T>, k: K): (i: nat)
    ensures i <= |s| && (i < |s| ==> key(s[i]) == k)
    ensures forall j | 0 <= j < i :: key(s[j]) != k
  {
    if s == [] || key(s[0]) == k then 0 else 1 + IndexOf(key, s[1..], k)
  }

  lemma IndexStays<T, K>(key: T -> K, s: seq<T>, r: seq<T>, k: K)
    requires |r| == |s| && forall j | 0 <= j < |s| :: key(r[j]) == key(s[j])
    ensures IndexOf(key, r, k) == IndexOf(key, s, k)
  {
    var a, b := IndexOf(key, r, k), IndexOf(key, s, k);
  }

  lemma IndexAppended<T, K>(key: T -> K, s: seq<T>, x: T, k: K)
    ensures IndexOf(key, s + [x], k) == if IndexOf(key, s, k) < |s| then IndexOf(key, s, k)
                                        else if key(x) == k then |s| else |s| + 1
  {
    var r := s + [x];
    var a, b := IndexOf(key, r, k), IndexOf(key, s, k);
    assert forall j | 0 <= j < |s| :: r[j] == s[j];
    assert r[|s|] == x;
  }

  /** The first element of the list with key `k`. */
  function Lookup<T, K(==)>(key: T -> K, s: seq<T>, k: K): Option<T> {
    var i := IndexOf(key, s, k);
    if i < |s| then Some(s[i]) else None
  }

  lemma {:induction false} LookupConcat<T, K>(key: T -> K, a: seq<T>, b: seq<T>, k: K)
    ensures Lookup(key, a + b, k) == if Lookup(key, a, k).Some? then Lookup(key, a, k) else Lookup(key, b, k)
  {
    if b == [] {
      assert a + b == a;
    } else {
      var front, x := b[..|b| - 1], b[|b| - 1];
      LookupConcat(key, a, front, k);
      IndexAppended(key, a + front, x, k);
      IndexAppended(key, front, x, k);
      assert a + b == (a + front) + [x] && b == front + [x];
    }
  }

  /** Merges `x` into the first element with its key, or appends it. */
  function Absorb<T, K(==)>(key: T -> K, merge: (T, T) -> T, s: seq<T>, x: T): seq<T> {
    var i := IndexOf(key, s, key(x));
    if i < |s| then s[i := merge(s[i], x)] else s + [x]
  }

  function AbsorbAll<T, K(==)>(key: T -> K, merge: (T, T) -> T, s: seq<T>, xs: seq<T>): seq<T> {
    if xs == [] then s
    else Absorb(key, merge, AbsorbAll(key, merge, s, xs[..|xs| - 1]), xs[|xs| - 1])
  }

  lemma AbsorbNext<T, K>(key: T -> K, merge: (T, T) -> T, s: seq<T>, xs: seq<T>, i: nat)
    requires i < |xs|
    ensures AbsorbAll(key, merge, s, xs[..i + 1]) == Absorb(key, merge, AbsorbAll(key, merge, s, xs[..i]), xs[i])
  {
    assert xs[..i + 1][..i] == xs[..i];
  }

  predicate DistinctKeys<T, K(==)>(key: T -> K, s: seq<T>) {
    forall i, j | 0 <= i < j < |s| :: key(s[i]) != key(s[j])
  }

  /** Merging two elements with one key gives an element with that key. */
  ghost predicate Respects<T(!new), K>(key: T -> K, merge: (T, T) -> T) {
    forall a, b :: key(a) == key(b) ==> key(merge(a, b)) == key(a)
  }

  lemma AbsorbKeepsDistinct<T(!new), K>(key: T -> K, merge: (T, T) -> T, s: seq<T>, x: T)
    requires Respects(key, merge) && DistinctKeys(key, s)
    ensures DistinctKeys(key, Absorb(key, merge, s, x))
    ensures forall k :: IndexOf(key, Absorb(key, merge, s, x), k) < |Absorb(key, merge, s, x)|
                        <==> IndexOf(key, s, k) < |s| || k == key(x)
  {
    var i := IndexOf(key, s, key(x));
    var r := Absorb(key, merge, s, x);
    assert forall j | 0 <= j < |s| :: key(r[j]) == key(s[j]);
    assert i == |s| ==> r[i] == x;
    forall k ensures IndexOf(key, r, k) < |r| <==> IndexOf(key, s, k) < |s| || k == key(x) {
      var a, b := IndexOf(key, r, k), IndexOf(key, s, k);
      assert b < |s| ==> key(r[b]) == k;
      assert a < |s| ==> key(s[a]) == k;
    }
  }

  /** The elements with key `k`, in order. */
  function Group<T, K(==)>(key: T -> K, k: K, xs: seq<T>): seq<T> {
    if xs == [] then []
    else
      var g := Group(key, k, xs[..|xs| - 1]);
      if key(xs[|xs| - 1]) == k then g + [xs[|xs| - 1]] else g
  }

  /** All of a group merged from the left. */
  function MergeAll<T>(merge: (T, T) -> T, g: seq<T>): T
    requires g != []
  {
    if |g| == 1 then g[0] else merge(MergeAll(merge, g[..|g| - 1]), g[|g| - 1])
  }

  /** What collecting `xs` from nothing must give: an element per key, merged from that key's group. */
  ghost predicate Collects<T, K>(key: T -> K, merge: (T, T) -> T, xs: seq<T>, r: seq<T>) {
    && DistinctKeys(key, r)
    && (forall x | x in xs :: IndexOf(key, r, key(x)) < |r|)
    && (forall i | 0 <= i < |r| :: IsGroup(key, merge, xs, r[i]))
  }

  ghost predicate IsGroup<T, K>(key: T -> K, merge: (T, T) -> T, xs: seq<T>, x: T) {
    Group(key, key(x), xs) != [] && x == MergeAll(merge, Group(key, key(x), xs))
  }

  lemma {:induction false} GroupMembers<T(!new), K>(key: T -> K, k: K, xs: seq<T>)
    ensures forall x :: x in Group(key, k, xs) <==> x in xs && key(x) == k
    ensures forall x :: multiset(Group(key, k, xs))[x] == if key(x) == k then multiset(xs)[x] else 0
  {
    if xs != [] {
      GroupMembers(key, k, xs[..|xs| - 1]);
      assert xs == xs[..|xs| - 1] + [xs[|xs| - 1]];
    }
  }

  /** Groups do not depend on the order of the list, except for their own order. */
  lemma GroupPermuted<T(!new), K>(key: T -> K, k: K, xs: seq<T>, ys: seq<T>)
    requires multiset(xs) == multiset(ys)
    ensures multiset(Group(key, k, xs)) == multiset(Group(key, k, ys))
    ensures |Group(key, k, xs)| == |Group(key, k, ys)|
  {
    GroupMembers(key, k, xs);
    GroupMembers(key, k, ys);
    assert |multiset(Group(key, k, xs))| == |multiset(Group(key, k, ys))|;
  }

  lemma GroupFirst<T(!new), K>(key: T -> K, merge: (T, T) -> T, xs: seq<T>, x: T)
    requires forall y | y in xs :: key(y) != key(x)
    ensures IsGroup(key, merge, xs + [x], x)
  {
    assert (xs + [x])[..|xs|] == xs;
    GroupMembers(key, key(x), xs);
    var g := Group(key, key(x), xs);
    assert g == [];
  }

  lemma CollectedAfter<T(!new), K>(key: T -> K, merge: (T, T) -> T, xs: seq<T>, x: T, r: seq<T>, n: seq<T>, j: nat)
    requires Collects(key, merge, xs, r) && n == Absorb(key, merge, r, x) && j < |n|
    requires Respects(key, merge)
    ensures IsGroup(key, merge, xs + [x], n[j])
  {
    var i := IndexOf(key, r, key(x));
    if j == |r| {
      forall y | y in xs ensures key(y) != key(x) {
        assert IndexOf(key, r, key(y)) < |r|;
      }
      GroupFirst(key, merge, xs, x);
    } else if j == i {
    } else {
      assert key(r[j]) != key(x) by {
        assert i < j ==> key(r[i]) != key(r[j]);
      }
      assert n[j] == r[j];
    }
  }

  lemma CollectOne<T(!new), K>(key: T -> K, merge: (T, T) -> T, xs: seq<T>, x: T, r: seq<T>)
    requires Respects(key, merge) && Collects(key, merge, xs, r)
    ensures Collects(key, merge, xs + [x], Absorb(key, merge, r, x))
  {
    AbsorbKeepsDistinct(key, merge, r, x);
    var n := Absorb(key, merge, r, x);
    forall j | 0 <= j < |n| ensures IsGroup(key, merge, xs + [x], n[j]) {
      CollectedAfter(key, merge, xs, x, r, n, j);
    }
    forall y | y in xs + [x] ensures IndexOf(key, n, key(y)) < |n| {
      if y != x { assert y in xs; }
      assert IndexOf(key, r, key(y)) < |r| || key(y) == key(x);
    }
  }

  /** Collecting a list gives one element per key: the merge, in order, of all the elements with that key. */
  lemma {:induction false} CollectsAll<T(!new), K>(key: T -> K, merge: (T, T) -> T, xs: seq<T>)
    requires Respects(key, merge)
    ensures Collects(key, merge, xs, AbsorbAll(key, merge, [], xs))
  {
    if xs != [] {
      var front, x := xs[..|xs| - 1], xs[|xs| - 1];
      assert xs == front + [x];
      CollectsAll(key, merge, front);
      CollectOne(key, merge, front, x, AbsorbAll(key, merge, [], front));
    }
  }

  /** A list with one element per key is collected into itself. */
  lemma {:induction false} CollectDistinct<T, K>(key: T -> K, merge: (T, T) -> T, xs: seq<T>)
    requires DistinctKeys(key, xs)
    ensures AbsorbAll(key, merge, [], xs) == xs
  {
    if xs != [] {
      var front, x := xs[..|xs| - 1], xs[|xs| - 1];
      CollectDistinct(key, merge, front);
      assert forall j | 0 <= j < |front| :: front[j] == xs[j] && key(xs[j]) != key(x);
      assert xs == front + [x];
    }
  }

  /** Of two elements with one key the first is kept. */
  function KeepFirst<T>(a: T, b: T): T { a }

  lemma {:induction false} FirstOfGroup<T>(g: seq<T>)
    requires g != []
    ensures MergeAll(KeepFirst, g) == g[0]
  {
    if |g| > 1 { FirstOfGroup(g[..|g| - 1]); }
  }

  /** Keeping the first element of every key: only elements of the list stay, and every key stays, once. */
  lemma FirstsOnly<T(!new), K>(key: T -> K, xs: seq<T>)
    ensures var r := AbsorbAll(key, KeepFirst, [], xs);
            && DistinctKeys(key, r)
            && (forall i | 0 <= i < |r| :: r[i] in xs)
            && (forall x | x in xs :: IndexOf(key, r, key(x)) < |r|)
  {
    CollectsAll(key, KeepFirst, xs);
    var r := AbsorbAll(key, KeepFirst, [], xs);
    forall i | 0 <= i < |r| ensures r[i] in xs {
      var g := Group(key, key(r[i]), xs);
      assert IsGroup(key, KeepFirst, xs, r[i]);
      FirstOfGroup(g);
      GroupMembers(key, key(r[i]), xs);
      assert g[0] in g;
    }
  }

  /** Keeping the first element of every key keeps what every key finds. */
  lemma {:induction false} FirstsLookup<T, K>(key: T -> K, xs: seq<T>, k: K)
    ensures Lookup(key, AbsorbAll(key, KeepFirst, [], xs), k) == Lookup(key, xs, k)
  {
    if xs != [] {
      var front, x := xs[..|xs| - 1], xs[|xs| - 1];
      var r := AbsorbAll(key, KeepFirst, [], front);
      FirstsLookup(key, front, k);
      FirstsLookup(key, front, key(x));
      IndexAppended(key, front, x, k);
      IndexAppended(key, r, x, k);
      assert Absorb(key, KeepFirst, r, x) == if Lookup(key, r, key(x)).Some? then r else r + [x];
      assert xs == front + [x];
    }
  }

  /** In tables with unique keys and the same elements every key finds the same. */
  lemma LookupSame<T(!new), K>(key: T -> K, s: seq<T>, t: seq<T>, k: K)
    requires DistinctKeys(key, s) && DistinctKeys(key, t)
    requires forall x :: x in s <==> x in t
    ensures Lookup(key, s, k) == Lookup(key, t, k)
  {
    var a, b := IndexOf(key, s, k), IndexOf(key, t, k);
    if a < |s| {
      assert s[a] in t;
      var j :| 0 <= j < |t| && t[j] == s[a];
      assert j == b;
    }
    if b < |t| {
      assert t[b] in s;
      var j :| 0 <= j < |s| && s[j] == t[b];
      assert j == a;
    }
  }

  lemma {:induction false} InsertKeepsDistinct<T(!new), K>(key: T -> K, less: (T, T) -> bool, x: T, s: seq<T>)
    requires DistinctKeys(key, s) && forall y | y in s :: key(y) != key(x)
    ensures DistinctKeys(key, Insert(less, x, s))
  {
    var r := Insert(less, x, s);
    if s == [] || !less(s[0], x) {
      assert r == [x] + s;
    } else {
      var rest := Insert(less, x, s[1..]);
      InsertKeepsDistinct(key, less, x, s[1..]);
      InsertElements(less, x, s[1..]);
      assert r == [s[0]] + rest;
      forall j | 0 <= j < |rest| ensures key(rest[j]) != key(s[0]) {
        assert rest[j] in rest;
        if rest[j] != x { var i :| 0 <= i < |s[1..]| && s[1..][i] == rest[j]; assert s[i + 1] == rest[j]; }
      }
    }
  }

  /** Sorting keeps the keys distinct. */
  lemma {:induction false} SortKeepsDistinct<T(!new), K>(key: T -> K, less: (T, T) -> bool, s: seq<T>)
    requires DistinctKeys(key, s)
    ensures DistinctKeys(key, StableSort(less, s))
  {
    if s != [] {
      var rest := s[1..];
      SortKeepsDistinct(key, less, rest);
      SortElements(less, rest);
      forall y | y in rest ensures key(y) != key(s[0]) {
        var j :| 0 <= j < |rest| && rest[j] == y;
        assert s[j + 1] == y;
      }
      InsertKeepsDistinct(key, less, s[0], StableSort(less, rest));
    }
  }

  /** A group of one is its own merge, whichever list it is taken from. */
  lemma GroupOfOne<T(!new), K>(key: T -> K, merge: (T, T) -> T, xs: seq<T>, ys: seq<T>, m: T, n: T)
    requires IsGroup(key, merge, xs, m) && IsGroup(key, merge, ys, n) && key(m) == key(n)
    requires |Group(key, key(m), xs)| == 1 && multiset(xs) == multiset(ys)
    ensures m == n
  {
    GroupPermuted(key, key(m), xs, ys);
    var a, b := Group(key, key(m), xs), Group(key, key(m), ys);
    assert a == [m] && b == [n];
    assert m in multiset(a);
  }

  function Map<T, U>(f: T -> U, xs: seq<T>): seq<U> {
    if xs == [] then [] else Map(f, xs[..|xs| - 1]) + [f(xs[|xs| - 1])]
  }

  lemma {:induction false} MapAt<T, U>(f: T -> U, xs: seq<T>)
    ensures |Map(f, xs)| == |xs|
    ensures forall k | 0 <= k < |xs| :: Map(f, xs)[k] == f(xs[k])
  {
    if xs != [] { MapAt(f, xs[..|xs| - 1]); }
  }

  lemma {:induction false} MapConcat<T, U>(f: T -> U, xs: seq<T>, ys: seq<T>)
    ensures Map(f, xs + ys) == Map(f, xs) + Map(f, ys)
  {
    if ys == [] {
      assert xs + ys == xs;
    } else {
      MapConcat(f, xs, ys[..|ys| - 1]);
      assert (xs + ys)[..|xs + ys| - 1] == xs + ys[..|ys| - 1];
    }
  }

  lemma MapAround<T(!new), U>(f: T -> U, a: seq<T>, x: T, b: seq<T>)
    ensures multiset(Map(f, a + [x] + b)) == multiset(Map(f, a + b)) + multiset{f(x)}
  {
    MapConcat(f, a + [x], b);
    MapConcat(f, a, [x]);
    MapConcat(f, a, b);
  }

  /** Takes the element at `i` out. */
  lemma TakeOut<T(!new)>(xs: seq<T>, i: nat)
    requires i < |xs|
    ensures xs == xs[..i] + [xs[i]] + xs[i + 1..]
    ensures multiset(xs) == multiset(xs[..i] + xs[i + 1..]) + multiset{xs[i]}
  {
    assert xs == xs[..i] + [xs[i]] + xs[i + 1..];
  }

  lemma Cancel<T(!new)>(a: multiset<T>, b: multiset<T>, x: T)
    requires a + multiset{x} == b + multiset{x}
    ensures a == b
  {
    forall y ensures a[y] == b[y] {
      assert (a + multiset{x})[y] == (b + multiset{x})[y];
    }
  }

  lemma {:induction false} MapPermuted<T(!new), U>(f: T -> U, xs: seq<T>, ys: seq<T>)
    requires multiset(xs) == multiset(ys)
    ensures multiset(Map(f, xs)) == multiset(Map(f, ys))
  {
    if xs == [] {
      assert |multiset(ys)| == 0;
    } else {
      var x := xs[0];
      assert x in multiset(xs);
      var i :| 0 <= i < |ys| && ys[i] == x;
      var rest := ys[..i] + ys[i + 1..];
      TakeOut(ys, i);
      assert xs == [] + [x] + xs[1..] && xs[1..] == [] + xs[1..];
      Cancel(multiset(xs[1..]), multiset(rest), x);
      MapPermuted(f, xs[1..], rest);
      MapAround(f, [], x, xs[1..]);
      MapAround(f, ys[..i], x, ys[i + 1..]);
    }
  }

  lemma {:induction false} CountsOnce<T(!new), K>(key: T -> K, s: seq<T>, x: T)
    requires DistinctKeys(key, s)
    ensures multiset(s)[x] <= 1
    ensures multiset(s)[x] == 1 ==> exists i :: 0 <= i < |s| && s[i] == x
  {
    if s != [] {
      var front, last := s[..|s| - 1], s[|s| - 1];
      assert s == front + [last];
      CountsOnce(key, front, x);
      assert forall i | 0 <= i < |front| :: front[i] == s[i] && key(s[i]) != key(last);
      assert s[|s| - 1] == last;
    }
  }

  lemma CountsTwice<T(!new)>(t: seq<T>, i: nat, j: nat)
    requires i < j < |t| && t[i] == t[j]
    ensures multiset(t)[t[i]] >= 2
  {
    assert t == t[..j] + [t[j]] + t[j + 1..];
    assert t[..j][i] in t[..j];
    assert multiset(t[..j])[t[i]] >= 1;
  }

  /** Distinct keys stay distinct in any order. */
  lemma PermutedDistinct<T(!new), K>(key: T -> K, s: seq<T>, t: seq<T>)
    requires DistinctKeys(key, s) && multiset(s) == multiset(t)
    ensures DistinctKeys(key, t)
  {
    forall i, j | 0 <= i < j < |t| ensures key(t[i]) != key(t[j]) {
      assert t[i] in multiset(s) && t[j] in multiset(s);
      var a :| 0 <= a < |s| && s[a] == t[i];
      var b :| 0 <= b < |s| && s[b] == t[j];
      CountsOnce(key, s, t[i]);
      if t[i] == t[j] {
        CountsTwice(t, i, j);
      } else {
        assert a != b;
      }
    }
  }

  lemma {:induction false} SortedIsStrict<T(!new), K>(key: T -> K, less: (T, T) -> bool, t: seq<T>)
    requires Sorted(less, t) && DistinctKeys(key, t)
    requires forall a, b :: key(a) != key(b) ==> less(a, b) || less(b, a)
    ensures Strict(less, t)
  {
    if t != [] {
      SortedIsStrict(key, less, t[1..]);
      assert forall k | 1 <= k < |t| :: key(t[0]) != key(t[k]);
    }
  }

  /** With distinct keys there is one sorted order only, so that any sort finds it. */
  lemma OneSortedOrder<T(!new), K>(key: T -> K, less: (T, T) -> bool, s: seq<T>, t: seq<T>)
    requires WeakOrder(less) && DistinctKeys(key, s)
    requires forall a, b :: key(a) != key(b) ==> less(a, b) || less(b, a)
    requires multiset(s) == multiset(t) && Sorted(less, t)
    ensures t == StableSort(less, s)
  {
    var r := StableSort(less, s);
    SortSorted(less, s);
    SortElements(less, s);
    PermutedDistinct(key, s, t);
    PermutedDistinct(key, s, r);
    SortedIsStrict(key, less, r);
    SortedIsStrict(key, less, t);
    forall x ensures x in r <==> x in t {
      assert x in r <==> x in multiset(r);
      assert x in t <==> x in multiset(t);
    }
    StrictUnique(less, r, t);
  }

  /** Every key once, in the order in which they first come up. */
  function FirstKeys<K(==)>(ks: seq<K>): seq<K> {
    if ks == [] then []
    else
      var r := FirstKeys(ks[..|ks| - 1]);
      if ks[|ks| - 1] in r then r else r + [ks[|ks| - 1]]
  }

  lemma KeyFound<T(!new), K>(key: T -> K, s: seq<T>, k: K)
    ensures k in Map(key, s) <==> IndexOf(key, s, k) < |s|
  {
    MapAt(key, s);
    var i := IndexOf(key, s, k);
    if i < |s| { assert Map(key, s)[i] == k; }
  }

  lemma KeysAbsorbed<T(!new), K>(key: T -> K, merge: (T, T) -> T, s: seq<T>, x: T)
    requires Respects(key, merge)
    ensures Map(key, Absorb(key, merge, s, x)) == if key(x) in Map(key, s) then Map(key, s) else Map(key, s) + [key(x)]
  {
    var r := Absorb(key, merge, s, x);
    KeyFound(key, s, key(x));
    MapAt(key, s);
    MapAt(key, r);
  }

  /** Collecting lists the keys in the order in which they first come up. */
  lemma {:induction false} KeysInOrder<T(!new), K>(key: T -> K, merge: (T, T) -> T, xs: seq<T>)
    requires Respects(key, merge)
    ensures Map(key, AbsorbAll(key, merge, [], xs)) == FirstKeys(Map(key, xs))
  {
    if xs != [] {
      var front, x := xs[..|xs| - 1], xs[|xs| - 1];
      KeysInOrder(key, merge, front);
      KeysAbsorbed(key, merge, AbsorbAll(key, merge, [], front), x);
      assert (Map(key, front) + [key(x)])[..|Map(key, front)|] == Map(key, front);
    }
  }
}
