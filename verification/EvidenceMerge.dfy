/** Merging the evidence of two findings (internal/findings/aggregator.go). */
module EvidenceMerge {
  import opened Text
  import opened Ordering
  import opened Grouping

  datatype Evidence = Evidence(source: string, value: string)

  /** The loop's `seen` key. */
  function EvidenceKey(e: Evidence): string {
    e.source + "\0" + e.value
  }

  /** By source, then by value. */
  predicate EvidenceBefore(a: Evidence, b: Evidence) {
    if a.source != b.source then Less(a.source, b.source) else Less(a.value, b.value)
  }

  function Distinct(all: seq<Evidence>): seq<Evidence> {
    AbsorbAll(EvidenceKey, KeepFirst, [], all)
  }

  function Merged(left: seq<Evidence>, right: seq<Evidence>): seq<Evidence> {
    StableSort(EvidenceBefore, Distinct(left + right))
  }

  method MergeEvidence(left: seq<Evidence>, right: seq<Evidence>) returns (merged: seq<Evidence>)
    ensures merged == Merged(left, right)
  {
    var all := left + right;
    merged := [];
    var seen: set<string> := {};
    for i := 0 to |all|
      invariant merged == AbsorbAll(EvidenceKey, KeepFirst, [], all[..i])
      invariant forall k :: k in seen <==> IndexOf(EvidenceKey, merged, k) < |merged|
    {
      AbsorbNext(EvidenceKey, KeepFirst, [], all, i);
      var key := EvidenceKey(all[i]);
      if key in seen { continue; }
      forall k ensures k in seen + {key} <==> IndexOf(EvidenceKey, merged + [all[i]], k) < |merged + [all[i]]| {
        IndexAppended(EvidenceKey, merged, all[i], k);
      }
      seen := seen + {key};
      merged := merged + [all[i]];
    }
    assert all[..|all|] == all;
    merged := StableSort(EvidenceBefore, merged);
  }

  // ---------------------------------------------------------------------
  // What a merge holds, for any evidence
  // ---------------------------------------------------------------------

  lemma OrderIsTotal()
    ensures WeakOrder(EvidenceBefore) && Total(EvidenceBefore)
  {
    forall a: string, b: string ensures !(Less(a, b) && Less(b, a)) && (a == b || Less(a, b) || Less(b, a)) {
      LessTotal(a, b);
    }
    forall a: string, b: string, c: string ensures Less(a, b) && Less(b, c) ==> Less(a, c) {
      if Less(a, b) && Less(b, c) { LessTransitive(a, b, c); }
    }
  }

  /** The evidence found first under a key, in a list or in two lists in a row. */
  function First(s: seq<Evidence>, k: string): Option<Evidence> {
    Lookup(EvidenceKey, s, k)
  }

  function Either(a: Option<Evidence>, b: Option<Evidence>): Option<Evidence> {
    if a.Some? then a else b
  }

  /** Merged evidence is in strict order, and holds for every key what the left list has first, or else the right. */
  lemma MergedMeaning(left: seq<Evidence>, right: seq<Evidence>)
    ensures Strict(EvidenceBefore, Merged(left, right)) && DistinctKeys(EvidenceKey, Merged(left, right))
    ensures forall k :: First(Merged(left, right), k) == Either(First(left, k), First(right, k))
  {
    var d, m := Distinct(left + right), Merged(left, right);
    OrderIsTotal();
    FirstsOnly(EvidenceKey, left + right);
    SortSorted(EvidenceBefore, d);
    SortElements(EvidenceBefore, d);
    SortKeepsDistinct(EvidenceKey, EvidenceBefore, d);
    SortedIsStrict(EvidenceKey, EvidenceBefore, m);
    forall k ensures First(m, k) == Either(First(left, k), First(right, k)) {
      LookupSame(EvidenceKey, d, m, k);
      FirstsLookup(EvidenceKey, left + right, k);
      LookupConcat(EvidenceKey, left, right, k);
    }
  }

  lemma Found(s: seq<Evidence>, e: Evidence)
    requires DistinctKeys(EvidenceKey, s)
    ensures e in s <==> First(s, EvidenceKey(e)) == Some(e)
  {
    if e in s {
      var i :| 0 <= i < |s| && s[i] == e;
      var j := IndexOf(EvidenceKey, s, EvidenceKey(e));
      assert j == i;
    }
  }

  /** Two merges that find the same under every key are the same list. */
  lemma SameMerge(s: seq<Evidence>, t: seq<Evidence>)
    requires Strict(EvidenceBefore, s) && DistinctKeys(EvidenceKey, s)
    requires Strict(EvidenceBefore, t) && DistinctKeys(EvidenceKey, t)
    requires forall k :: First(s, k) == First(t, k)
    ensures s == t
  {
    OrderIsTotal();
    forall e ensures e in s <==> e in t {
      Found(s, e);
      Found(t, e);
    }
    StrictUnique(EvidenceBefore, s, t);
  }

  /** Under every key both lists hold, both hold the same piece first. */
  predicate AgreeOnShared(left: seq<Evidence>, right: seq<Evidence>) {
    forall i | 0 <= i < |left| ::
      var k := EvidenceKey(left[i]); First(right, k).Some? ==> First(left, k) == First(right, k)
  }

  lemma AgreeAt(left: seq<Evidence>, right: seq<Evidence>, k: string)
    requires AgreeOnShared(left, right) && First(left, k).Some? && First(right, k).Some?
    ensures First(left, k) == First(right, k)
  {
    var i := IndexOf(EvidenceKey, left, k);
    assert EvidenceKey(left[i]) == k;
  }

  /** The order of the arguments shows exactly when a key stands for different pieces of evidence in them. */
  lemma MergeCommutes(left: seq<Evidence>, right: seq<Evidence>)
    ensures Merged(left, right) == Merged(right, left) <==> AgreeOnShared(left, right)
  {
    var s, t := Merged(left, right), Merged(right, left);
    MergedMeaning(left, right);
    MergedMeaning(right, left);
    if s == t {
      forall i | 0 <= i < |left|
        ensures var k := EvidenceKey(left[i]); First(right, k).Some? ==> First(left, k) == First(right, k)
      {
        var k := EvidenceKey(left[i]);
        assert IndexOf(EvidenceKey, left, k) <= i;
        assert First(s, k) == First(t, k);
      }
    }
    if AgreeOnShared(left, right) {
      forall k ensures First(s, k) == First(t, k) {
        if First(left, k).Some? && First(right, k).Some? { AgreeAt(left, right, k); }
      }
      SameMerge(s, t);
    }
  }

  /** Merging is associative, whatever the evidence. */
  lemma MergeAssociates(a: seq<Evidence>, b: seq<Evidence>, c: seq<Evidence>)
    ensures Merged(Merged(a, b), c) == Merged(a, Merged(b, c))
  {
    MergedMeaning(a, b);
    MergedMeaning(b, c);
    MergedMeaning(Merged(a, b), c);
    MergedMeaning(a, Merged(b, c));
    SameMerge(Merged(Merged(a, b), c), Merged(a, Merged(b, c)));
  }

  // ---------------------------------------------------------------------
  // The key tells evidence apart when sources hold no NUL
  // ---------------------------------------------------------------------

  predicate PlainSources(s: seq<Evidence>) {
    forall k | 0 <= k < |s| :: '\0' !in s[k].source
  }

  lemma PlainKeys(d: Evidence, e: Evidence)
    requires '\0' !in d.source && '\0' !in e.source && EvidenceKey(d) == EvidenceKey(e)
    ensures d == e
  {
    JoinedApart(d.source, d.value, e.source, e.value, '\0');
  }

  /** In a list with plain sources a key finds the evidence it is made of. */
  lemma PlainFirst(s: seq<Evidence>, e: Evidence)
    requires PlainSources(s) && '\0' !in e.source
    ensures First(s, EvidenceKey(e)) == if e in s then Some(e) else None
  {
    var i := IndexOf(EvidenceKey, s, EvidenceKey(e));
    if i < |s| {
      PlainKeys(s[i], e);
    } else {
      assert forall j | 0 <= j < |s| :: EvidenceKey(s[j]) != EvidenceKey(e);
    }
  }

  /** With plain sources the merged evidence is the set union, in strict order. */
  lemma EvidenceUnion(left: seq<Evidence>, right: seq<Evidence>)
    requires PlainSources(left) && PlainSources(right)
    ensures Strict(EvidenceBefore, Merged(left, right)) && PlainSources(Merged(left, right))
    ensures forall e :: e in Merged(left, right) <==> e in left || e in right
  {
    var m := Merged(left, right);
    MergedMeaning(left, right);
    SortElements(EvidenceBefore, Distinct(left + right));
    FirstsOnly(EvidenceKey, left + right);
    forall e ensures e in m ==> e in left || e in right {
      if e in m { assert e in left + right; }
    }
    forall e | e in left || e in right ensures e in m {
      PlainFirst(left, e);
      PlainFirst(right, e);
      Found(m, e);
    }
    forall k | 0 <= k < |m| ensures '\0' !in m[k].source {
      assert m[k] in m;
    }
  }

  /** With plain sources the order of the arguments never shows. */
  lemma PlainMergeCommutes(left: seq<Evidence>, right: seq<Evidence>)
    requires PlainSources(left) && PlainSources(right)
    ensures Merged(left, right) == Merged(right, left)
  {
    forall i | 0 <= i < |left|
      ensures var k := EvidenceKey(left[i]); First(right, k).Some? ==> First(left, k) == First(right, k)
    {
      PlainFirst(left, left[i]);
      PlainFirst(right, left[i]);
    }
    MergeCommutes(left, right);
  }

  /** With a NUL in a source two different pieces of evidence can share a key, and the order of the arguments shows. */
  lemma NulMakesOrderMatter()
    ensures exists left, right :: Merged(left, right) != Merged(right, left)
  {
    var x, y := Evidence("a", "b\0c"), Evidence("a\0b", "c");
    assert EvidenceKey(x) == "a\0b\0c" == EvidenceKey(y);
    assert First([x], EvidenceKey(x)) == Some(x) && First([y], EvidenceKey(x)) == Some(y);
    assert [x][0] == x && !AgreeOnShared([x], [y]);
    MergeCommutes([x], [y]);
  }
}
