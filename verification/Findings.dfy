/** The finding aggregator (internal/findings/aggregator.go): deduplicate, merge and rank. */
module Findings {
  import opened Text
  import opened Ordering
  import opened Grouping
  import opened EvidenceMerge

  datatype Fix = Fix(class_: string, title: string, commands: seq<string>, rollback: seq<string>)

  datatype Finding = Finding(id: string, title: string, severity: string, confidence: real, layers: seq<string>,
                             symptom: string, evidence: seq<Evidence>, likelyCauses: seq<string>, fixes: seq<Fix>,
                             fixHints: seq<string>, redactionStatus: string)

  function SeverityRank(severity: string): nat {
    if severity == "critical" then 0
    else if severity == "high" then 1
    else if severity == "medium" then 2
    else if severity == "low" then 3
    else if severity == "info" then 4
    else 5
  }

  /** Graver first, then the more certain. */
  predicate RanksBefore(a: Finding, b: Finding) {
    var ai, bi := SeverityRank(a.severity), SeverityRank(b.severity);
    if ai != bi then ai < bi else a.confidence > b.confidence
  }

  const REVIEW := Fix("manual", "Review the finding and apply the recommended remediation", [], [])

  /** Fills the defaults in. `layersOf` is the domain registry's table of default layers. */
  function Normalize(layersOf: string -> seq<string>, f: Finding): Finding {
    f.(layers := if f.layers == [] then layersOf(f.id) else f.layers,
       redactionStatus := if f.redactionStatus == "" then "default" else f.redactionStatus,
       fixes := if f.fixes == [] then [REVIEW] else f.fixes)
  }

  function Normalizer(layersOf: string -> seq<string>): Finding -> Finding {
    f => Normalize(layersOf, f)
  }

  function NormalizeAll(layersOf: string -> seq<string>, fs: seq<Finding>): seq<Finding> {
    Map(Normalizer(layersOf), fs)
  }

  /** What makes two findings the same finding. */
  function Key(f: Finding): string {
    f.id + "\0" + f.title + "\0" + f.symptom
  }

  function MergeFinding(existing: Finding, next: Finding): Finding {
    var evidence := Merged(existing.evidence, next.evidence);
    if RanksBefore(next, existing) then next.(evidence := evidence) else existing.(evidence := evidence)
  }

  function Deduped(layersOf: string -> seq<string>, fs: seq<Finding>): seq<Finding> {
    AbsorbAll(Key, MergeFinding, [], NormalizeAll(layersOf, fs))
  }

  function Report(layersOf: string -> seq<string>, fs: seq<Finding>): seq<Finding> {
    StableSort(RanksBefore, Deduped(layersOf, fs))
  }

  /** `seen` holds the index of every key collected so far. */
  ghost predicate Indexes(seen: map<string, nat>, s: seq<Finding>) {
    forall k :: (k in seen <==> IndexOf(Key, s, k) < |s|) && (k in seen ==> seen[k] == IndexOf(Key, s, k))
  }

  lemma IndexesReplaced(seen: map<string, nat>, s: seq<Finding>, i: nat, f: Finding)
    requires Indexes(seen, s) && i < |s| && Key(f) == Key(s[i])
    ensures Indexes(seen, s[i := f])
  {
    forall k ensures IndexOf(Key, s[i := f], k) == IndexOf(Key, s, k) {
      IndexStays(Key, s, s[i := f], k);
    }
  }

  lemma IndexesAppended(seen: map<string, nat>, s: seq<Finding>, f: Finding)
    requires Indexes(seen, s) && Key(f) !in seen
    ensures Indexes(seen[Key(f) := |s|], s + [f])
  {
    forall k ensures IndexOf(Key, s + [f], k) == if k == Key(f) then |s| else
                                                 if IndexOf(Key, s, k) < |s| then IndexOf(Key, s, k) else |s + [f]| {
      IndexAppended(Key, s, f, k);
    }
  }

  /** What absorbing one more finding does, in terms of the index. */
  lemma AbsorbIndexed(seen: map<string, nat>, s: seq<Finding>, f: Finding)
    requires Indexes(seen, s)
    ensures Key(f) in seen ==>
              var i := seen[Key(f)];
              && i < |s| && Absorb(Key, MergeFinding, s, f) == s[i := MergeFinding(s[i], f)]
              && Indexes(seen, Absorb(Key, MergeFinding, s, f))
    ensures Key(f) !in seen ==>
              && Absorb(Key, MergeFinding, s, f) == s + [f]
              && Indexes(seen[Key(f) := |s|], s + [f])
  {
    if Key(f) in seen {
      var i := seen[Key(f)];
      assert Key(s[i]) == Key(f) == Key(MergeFinding(s[i], f));
      IndexesReplaced(seen, s, i, MergeFinding(s[i], f));
    } else {
      IndexesAppended(seen, s, f);
    }
  }

  method Add(layersOf: string -> seq<string>, findings: seq<Finding>) returns (sorted: seq<Finding>)
    ensures sorted == Report(layersOf, findings)
  {
    var deduped: seq<Finding> := [];
    var seen: map<string, nat> := map[];
    ghost var all := NormalizeAll(layersOf, findings);
    NormalizeAt(layersOf, findings);
    for i := 0 to |findings|
      invariant deduped == AbsorbAll(Key, MergeFinding, [], all[..i])
      invariant Indexes(seen, deduped)
    {
      var normalized := Normalize(layersOf, findings[i]);
      AbsorbNext(Key, MergeFinding, [], all, i);
      AbsorbIndexed(seen, deduped, normalized);
      var key := Key(normalized);
      if key in seen {
        deduped := deduped[seen[key] := MergeFinding(deduped[seen[key]], normalized)];
      } else {
        seen := seen[key := |deduped|];
        deduped := deduped + [normalized];
      }
    }
    assert all[..|findings|] == all;
    sorted := StableSort(RanksBefore, deduped);
  }

  lemma NormalizeAt(layersOf: string -> seq<string>, fs: seq<Finding>)
    ensures |NormalizeAll(layersOf, fs)| == |fs|
    ensures forall k | 0 <= k < |fs| :: NormalizeAll(layersOf, fs)[k] == Normalize(layersOf, fs[k])
  {
    MapAt(Normalizer(layersOf), fs);
  }

  // ---------------------------------------------------------------------
  // What stands for a group of findings with one key
  // ---------------------------------------------------------------------

  predicate Plain(fs: seq<Finding>) {
    forall k | 0 <= k < |fs| :: PlainSources(fs[k].evidence)
  }

  /** Some finding of the list shows `e`. */
  ghost predicate Shows(fs: seq<Finding>, e: Evidence) {
    exists f :: f in fs && e in f.evidence
  }

  /** Of the findings of `all` under a key, the one at `i` is the first that none of them ranks before. */
  predicate BestAt(all: seq<Finding>, key: string, i: nat) {
    && i < |all| && Key(all[i]) == key
    && (forall j | 0 <= j < |all| && Key(all[j]) == key :: !RanksBefore(all[j], all[i]))
    && (forall j | 0 <= j < i && Key(all[j]) == key :: RanksBefore(all[i], all[j]))
  }

  lemma BestNext(front: seq<Finding>, last: Finding, key: string, i: nat)
    requires BestAt(front, key, i) && Key(last) == key
    ensures BestAt(front + [last], key, if RanksBefore(last, front[i]) then |front| else i)
  {
  }

  lemma BestKept(front: seq<Finding>, last: Finding, key: string, i: nat)
    requires BestAt(front, key, i) && Key(last) != key
    ensures BestAt(front + [last], key, i)
  {
  }

  lemma BestAlone(front: seq<Finding>, last: Finding, key: string)
    requires Key(last) == key && Group(Key, key, front) == []
    ensures BestAt(front + [last], key, |front|)
  {
    GroupMembers(Key, key, front);
    forall j | 0 <= j < |front| ensures Key(front[j]) != key {
      assert front[j] in front;
    }
  }

  /** The merge is the first of the best ranked findings of the group, apart from its evidence. */
  lemma {:induction false} GroupBest(all: seq<Finding>, key: string) returns (i: nat)
    requires Group(Key, key, all) != []
    ensures BestAt(all, key, i)
    ensures var m := MergeAll(MergeFinding, Group(Key, key, all)); m == all[i].(evidence := m.evidence)
  {
    var front, last := all[..|all| - 1], all[|all| - 1];
    var g := Group(Key, key, front);
    assert all == front + [last];
    if g == [] {
      i := |front|;
      BestAlone(front, last, key);
    } else {
      i := GroupBest(front, key);
      if Key(last) == key {
        BestNext(front, last, key, i);
        assert (g + [last])[..|g|] == g;
        if RanksBefore(last, front[i]) { i := |front|; }
      } else {
        BestKept(front, last, key, i);
      }
    }
  }

  /** The piece of evidence under key `k` that is found first, finding by finding. */
  function FirstIn(g: seq<Finding>, k: string): Option<Evidence> {
    if g == [] then None else Either(FirstIn(g[..|g| - 1], k), First(g[|g| - 1].evidence, k))
  }

  /** The merge shows under every key what its group shows first; that of several findings is in strict order. */
  lemma {:induction false} GroupEvidence(g: seq<Finding>)
    requires g != []
    ensures var s := MergeAll(MergeFinding, g).evidence;
            && (forall k :: First(s, k) == FirstIn(g, k))
            && (|g| > 1 ==> Strict(EvidenceBefore, s) && DistinctKeys(EvidenceKey, s))
  {
    var front, last := g[..|g| - 1], g[|g| - 1];
    if |g| > 1 {
      GroupEvidence(front);
      MergedMeaning(MergeAll(MergeFinding, front).evidence, last.evidence);
    }
  }

  lemma {:induction false} FirstShown(g: seq<Finding>, k: string) returns (f: Finding)
    requires FirstIn(g, k).Some?
    ensures f in g && First(f.evidence, k) == FirstIn(g, k)
  {
    var front := g[..|g| - 1];
    f := g[|g| - 1];
    if FirstIn(front, k).Some? { f := FirstShown(front, k); }
  }

  lemma {:induction false} ShownFound(g: seq<Finding>, f: Finding, k: string)
    requires f in g && First(f.evidence, k).Some?
    ensures FirstIn(g, k).Some?
  {
    var front := g[..|g| - 1];
    if f in front {
      ShownFound(front, f, k);
    } else {
      assert g == front + [g[|g| - 1]];
    }
  }

  /** Under every key two findings both show, both show the same piece first. */
  ghost predicate Agreeing(g: seq<Finding>) {
    forall f, h, k | f in g && h in g && First(f.evidence, k).Some? && First(h.evidence, k).Some? ::
      First(f.evidence, k) == First(h.evidence, k)
  }

  /** What agreeing findings show first does not depend on their order. */
  lemma AgreeingFirst(g: seq<Finding>, h: seq<Finding>, k: string)
    requires multiset(g) == multiset(h) && Agreeing(g)
    ensures FirstIn(g, k) == FirstIn(h, k)
  {
    if FirstIn(g, k).Some? {
      var x := FirstShown(g, k);
      assert x in multiset(h);
      ShownFound(h, x, k);
    }
    if FirstIn(h, k).Some? {
      var y := FirstShown(h, k);
      assert y in multiset(g);
      ShownFound(g, y, k);
      var x := FirstShown(g, k);
    }
  }

  lemma PlainAgreeing(fs: seq<Finding>, key: string)
    requires Plain(fs)
    ensures Agreeing(Group(Key, key, fs))
  {
    var g := Group(Key, key, fs);
    GroupMembers(Key, key, fs);
    forall f, h, k | f in g && h in g && First(f.evidence, k).Some? && First(h.evidence, k).Some?
      ensures First(f.evidence, k) == First(h.evidence, k)
    {
      PlainMember(fs, f);
      PlainMember(fs, h);
      var e := First(f.evidence, k).value;
      PlainFirst(f.evidence, e);
      PlainFirst(h.evidence, e);
    }
  }

  lemma PlainMember(fs: seq<Finding>, f: Finding)
    requires Plain(fs) && f in fs
    ensures PlainSources(f.evidence)
  {
    var i :| 0 <= i < |fs| && fs[i] == f;
  }

  // ---------------------------------------------------------------------
  // The report
  // ---------------------------------------------------------------------

  /** What a report `r` of the findings `fs` must be: ranked, one finding per key, each the merge of its group. */
  ghost predicate Reports(fs: seq<Finding>, r: seq<Finding>) {
    && Sorted(RanksBefore, r)
    && DistinctKeys(Key, r)
    && (forall f | f in fs :: IndexOf(Key, r, Key(f)) < |r|)
    && (forall m | m in r :: IsGroup(Key, MergeFinding, fs, m))
  }

  lemma ReportMeaning(layersOf: string -> seq<string>, fs: seq<Finding>)
    ensures Reports(NormalizeAll(layersOf, fs), Report(layersOf, fs))
  {
    var all := NormalizeAll(layersOf, fs);
    var d, r := Deduped(layersOf, fs), Report(layersOf, fs);
    CollectsAll(Key, MergeFinding, all);
    SortSorted(RanksBefore, d);
    SortKeepsDistinct(Key, RanksBefore, d);
    SortElements(RanksBefore, d);
    forall f | f in all ensures IndexOf(Key, r, Key(f)) < |r| {
      var i := IndexOf(Key, d, Key(f));
      assert d[i] in r;
    }
    forall m | m in r ensures IsGroup(Key, MergeFinding, all, m) {
      assert m in d;
    }
  }

  predicate PlainNames(f: Finding) {
    '\0' !in f.id && '\0' !in f.title
  }

  /** Findings are merged exactly when they agree in ID, title and symptom. */
  lemma KeyTellsApart(f: Finding, g: Finding)
    requires PlainNames(f) && PlainNames(g)
    ensures Key(f) == Key(g) <==> f.id == g.id && f.title == g.title && f.symptom == g.symptom
  {
    if Key(f) == Key(g) {
      var restF, restG := f.title + "\0" + f.symptom, g.title + "\0" + g.symptom;
      ConcatAssoc(f.id + "\0", f.title, "\0" + f.symptom);
      ConcatAssoc(g.id + "\0", g.title, "\0" + g.symptom);
      assert Key(f) == f.id + "\0" + restF;
      assert Key(g) == g.id + "\0" + restG;
      JoinedApart(f.id, restF, g.id, restG, '\0');
      JoinedApart(f.title, f.symptom, g.title, g.symptom, '\0');
    }
  }

  lemma BestOfEntry(all: seq<Finding>, m: Finding) returns (i: nat)
    requires IsGroup(Key, MergeFinding, all, m)
    ensures BestAt(all, Key(m), i) && m == all[i].(evidence := m.evidence)
    ensures forall f | f in all && Key(f) == Key(m) :: !RanksBefore(f, m)
  {
    i := GroupBest(all, Key(m));
    forall f | f in all && Key(f) == Key(m) ensures !RanksBefore(f, m) {
      var j :| 0 <= j < |all| && all[j] == f;
    }
  }

  lemma NormalizedMember(layersOf: string -> seq<string>, fs: seq<Finding>, f: Finding)
    requires f in fs
    ensures Normalize(layersOf, f) in NormalizeAll(layersOf, fs)
  {
    NormalizeAt(layersOf, fs);
    var i :| 0 <= i < |fs| && fs[i] == f;
    assert NormalizeAll(layersOf, fs)[i] in NormalizeAll(layersOf, fs);
  }

  /** Every finding is stood for by exactly one entry of the report, which ranks no lower. */
  lemma Represented(layersOf: string -> seq<string>, fs: seq<Finding>, f: Finding) returns (m: Finding)
    requires f in fs
    ensures m in Report(layersOf, fs) && Key(m) == Key(f) && !RanksBefore(f, m)
    ensures forall n | n in Report(layersOf, fs) && Key(n) == Key(f) :: n == m
  {
    var all, r := NormalizeAll(layersOf, fs), Report(layersOf, fs);
    ReportMeaning(layersOf, fs);
    NormalizedMember(layersOf, fs, f);
    var n := Normalize(layersOf, f);
    m := r[IndexOf(Key, r, Key(n))];
    var _ := BestOfEntry(all, m);
    forall k | k in r && Key(k) == Key(f) ensures k == m {
    }
  }

  /** Every entry of the report is one of the findings, with defaults filled in and evidence merged: the first of the best. */
  lemma OriginatesAt(layersOf: string -> seq<string>, fs: seq<Finding>, m: Finding) returns (i: nat)
    requires m in Report(layersOf, fs)
    ensures BestAt(fs, Key(m), i) && m == Normalize(layersOf, fs[i]).(evidence := m.evidence)
  {
    ReportMeaning(layersOf, fs);
    NormalizeAt(layersOf, fs);
    i := BestOfEntry(NormalizeAll(layersOf, fs), m);
  }

  lemma Originates(layersOf: string -> seq<string>, fs: seq<Finding>, m: Finding) returns (f: Finding)
    requires m in Report(layersOf, fs)
    ensures f in fs && Key(f) == Key(m) && m == Normalize(layersOf, f).(evidence := m.evidence)
  {
    var i := OriginatesAt(layersOf, fs, m);
    f := fs[i];
  }

  predicate Repeated(fs: seq<Finding>, key: string) {
    |Group(Key, key, fs)| > 1
  }

  lemma GroupOfNormalized(layersOf: string -> seq<string>, fs: seq<Finding>, key: string)
    ensures |Group(Key, key, NormalizeAll(layersOf, fs))| == |Group(Key, key, fs)|
  {
    if fs != [] {
      var front := fs[..|fs| - 1];
      GroupOfNormalized(layersOf, front, key);
      assert NormalizeAll(layersOf, fs)[..|front|] == NormalizeAll(layersOf, front) by {
        NormalizeAt(layersOf, front);
      }
    }
  }

  lemma {:induction false} FirstNormalized(layersOf: string -> seq<string>, fs: seq<Finding>, key: string, k: string)
    ensures FirstIn(Group(Key, key, NormalizeAll(layersOf, fs)), k) == FirstIn(Group(Key, key, fs), k)
  {
    if fs != [] {
      var front := fs[..|fs| - 1];
      FirstNormalized(layersOf, front, key, k);
      NormalizedLast(layersOf, fs);
      FirstAdded(Group(Key, key, front), fs[|fs| - 1], k);
      FirstAdded(Group(Key, key, NormalizeAll(layersOf, front)), Normalize(layersOf, fs[|fs| - 1]), k);
    }
  }

  lemma NormalizedLast(layersOf: string -> seq<string>, fs: seq<Finding>)
    requires fs != []
    ensures var n := |fs| - 1;
            NormalizeAll(layersOf, fs) == NormalizeAll(layersOf, fs[..n]) + [Normalize(layersOf, fs[n])]
  {
  }

  lemma FirstAdded(g: seq<Finding>, f: Finding, k: string)
    ensures FirstIn(g + [f], k) == Either(FirstIn(g, k), First(f.evidence, k))
  {
    assert (g + [f])[..|g|] == g;
  }

  /**
   A report entry shows under every key the piece of evidence that the findings with its key show first; what comes from
   several findings is in strict order, one piece per key.
   */
  lemma EvidenceIsFirst(layersOf: string -> seq<string>, fs: seq<Finding>, m: Finding)
    requires m in Report(layersOf, fs)
    ensures forall k :: First(m.evidence, k) == FirstIn(Group(Key, Key(m), fs), k)
    ensures Repeated(fs, Key(m)) ==> Strict(EvidenceBefore, m.evidence) && DistinctKeys(EvidenceKey, m.evidence)
  {
    var all := NormalizeAll(layersOf, fs);
    ReportMeaning(layersOf, fs);
    GroupOfNormalized(layersOf, fs, Key(m));
    assert IsGroup(Key, MergeFinding, all, m);
    GroupEvidence(Group(Key, Key(m), all));
    forall k ensures First(m.evidence, k) == FirstIn(Group(Key, Key(m), fs), k) {
      FirstNormalized(layersOf, fs, Key(m), k);
    }
  }

  /** With plain sources that is all the evidence of the findings with its key. */
  lemma EvidenceIsUnion(layersOf: string -> seq<string>, fs: seq<Finding>, m: Finding)
    requires Plain(fs) && m in Report(layersOf, fs)
    ensures forall e :: e in m.evidence <==> Shows(Group(Key, Key(m), fs), e)
    ensures Repeated(fs, Key(m)) ==> Strict(EvidenceBefore, m.evidence)
  {
    var g := Group(Key, Key(m), fs);
    EvidenceIsFirst(layersOf, fs, m);
    PlainEntry(layersOf, fs, m);
    PlainAgreeing(fs, Key(m));
    GroupMembers(Key, Key(m), fs);
    forall e ensures e in m.evidence <==> Shows(g, e) {
      var k := EvidenceKey(e);
      if e in m.evidence {
        PlainFirst(m.evidence, e);
        var f := FirstShown(g, k);
        FirstIsHeld(f.evidence, k);
      }
      if Shows(g, e) {
        var f :| f in g && e in f.evidence;
        PlainMember(fs, f);
        PlainFirst(f.evidence, e);
        ShownFound(g, f, k);
        var h := FirstShown(g, k);
        FirstIsHeld(m.evidence, k);
      }
    }
  }

  lemma FirstIsHeld(s: seq<Evidence>, k: string)
    requires First(s, k).Some?
    ensures First(s, k).value in s
  {
  }

  lemma PlainEntry(layersOf: string -> seq<string>, fs: seq<Finding>, m: Finding)
    requires Plain(fs) && m in Report(layersOf, fs)
    ensures PlainSources(m.evidence)
  {
    var all := NormalizeAll(layersOf, fs);
    ReportMeaning(layersOf, fs);
    NormalizeAt(layersOf, fs);
    var g := Group(Key, Key(m), all);
    assert IsGroup(Key, MergeFinding, all, m);
    GroupMembers(Key, Key(m), all);
    forall k | 0 <= k < |g| ensures PlainSources(g[k].evidence) {
      assert g[k] in g && g[k] in all;
      var i :| 0 <= i < |all| && all[i] == g[k];
    }
    PlainMerge(g);
  }

  lemma {:induction false} PlainMerge(g: seq<Finding>)
    requires g != [] && Plain(g)
    ensures PlainSources(MergeAll(MergeFinding, g).evidence)
  {
    if |g| > 1 {
      PlainMerge(g[..|g| - 1]);
      EvidenceUnion(MergeAll(MergeFinding, g[..|g| - 1]).evidence, g[|g| - 1].evidence);
    }
  }

  // ---------------------------------------------------------------------
  // Neither the order of the findings nor a second pass matters
  // ---------------------------------------------------------------------

  /** Entries of two reports of the same findings, for one key. */
  lemma SameEvidence(layersOf: string -> seq<string>, fs: seq<Finding>, gs: seq<Finding>, m: Finding, n: Finding)
    requires multiset(fs) == multiset(gs) && Agreeing(Group(Key, Key(m), fs))
    requires m in Report(layersOf, fs) && n in Report(layersOf, gs) && Key(m) == Key(n)
    ensures m.evidence == n.evidence
  {
    GroupPermuted(Key, Key(m), fs, gs);
    if Repeated(fs, Key(m)) {
      EvidenceIsFirst(layersOf, fs, m);
      EvidenceIsFirst(layersOf, gs, n);
      forall k ensures First(m.evidence, k) == First(n.evidence, k) {
        AgreeingFirst(Group(Key, Key(m), fs), Group(Key, Key(m), gs), k);
      }
      SameMerge(m.evidence, n.evidence);
    } else {
      OnlyOne(layersOf, fs, gs, m, n);
    }
  }

  lemma SameRank(layersOf: string -> seq<string>, fs: seq<Finding>, gs: seq<Finding>, m: Finding, n: Finding)
    requires multiset(fs) == multiset(gs)
    requires m in Report(layersOf, fs) && n in Report(layersOf, gs) && Key(m) == Key(n)
    ensures !RanksBefore(m, n)
  {
    var f := Originates(layersOf, fs, m);
    assert f in multiset(fs) && f in gs;
    var k := Represented(layersOf, gs, f);
    assert k == n;
  }

  lemma OnlyOne(layersOf: string -> seq<string>, fs: seq<Finding>, gs: seq<Finding>, m: Finding, n: Finding)
    requires multiset(fs) == multiset(gs) && !Repeated(fs, Key(m))
    requires m in Report(layersOf, fs) && n in Report(layersOf, gs) && Key(m) == Key(n)
    ensures m == n
  {
    var all, other := NormalizeAll(layersOf, fs), NormalizeAll(layersOf, gs);
    ReportMeaning(layersOf, fs);
    ReportMeaning(layersOf, gs);
    MapPermuted(Normalizer(layersOf), fs, gs);
    GroupOfNormalized(layersOf, fs, Key(m));
    GroupOfOne(Key, MergeFinding, all, other, m, n);
  }

  /** The same findings in another order give a report of the same keys, ranks and, where they agree, evidence. */
  lemma OrderIrrelevant(layersOf: string -> seq<string>, fs: seq<Finding>, gs: seq<Finding>, m: Finding) returns (n: Finding)
    requires multiset(fs) == multiset(gs) && m in Report(layersOf, fs)
    ensures n in Report(layersOf, gs) && Key(n) == Key(m)
    ensures !RanksBefore(m, n) && !RanksBefore(n, m)
    ensures Agreeing(Group(Key, Key(m), fs)) ==> m.evidence == n.evidence
    ensures !Repeated(fs, Key(m)) ==> m == n
  {
    var f := Originates(layersOf, fs, m);
    assert f in multiset(fs) && f in gs;
    n := Represented(layersOf, gs, f);
    SameRank(layersOf, fs, gs, m, n);
    SameRank(layersOf, gs, fs, n, m);
    if Agreeing(Group(Key, Key(m), fs)) { SameEvidence(layersOf, fs, gs, m, n); }
    if !Repeated(fs, Key(m)) { OnlyOne(layersOf, fs, gs, m, n); }
  }

  /** However the findings are reordered, the entry with the key of `m` shows the same evidence. */
  ghost predicate OrderHidden(layersOf: string -> seq<string>, fs: seq<Finding>, m: Finding) {
    forall gs, n | multiset(gs) == multiset(fs) && n in Report(layersOf, gs) && Key(n) == Key(m) :: n.evidence == m.evidence
  }

  lemma {:induction false} GroupConcat(key: string, a: seq<Finding>, b: seq<Finding>)
    ensures Group(Key, key, a + b) == Group(Key, key, a) + Group(Key, key, b)
  {
    if b == [] {
      assert a + b == a;
    } else {
      GroupConcat(key, a, b[..|b| - 1]);
      assert (a + b)[..|a + b| - 1] == a + b[..|b| - 1];
    }
  }

  lemma {:induction false} FirstConcat(a: seq<Finding>, b: seq<Finding>, k: string)
    ensures FirstIn(a + b, k) == Either(FirstIn(a, k), FirstIn(b, k))
  {
    if b == [] {
      assert a + b == a;
    } else {
      FirstConcat(a, b[..|b| - 1], k);
      assert (a + b)[..|a + b| - 1] == a + b[..|b| - 1];
    }
  }

  /** With `f` in front of the others its entry shows what `f` shows first. */
  lemma FrontShows(layersOf: string -> seq<string>, fs: seq<Finding>, f: Finding, k: string) returns (gs: seq<Finding>, n: Finding)
    requires f in fs && First(f.evidence, k).Some?
    ensures multiset(gs) == multiset(fs) && n in Report(layersOf, gs) && Key(n) == Key(f)
    ensures First(n.evidence, k) == First(f.evidence, k)
  {
    var i :| 0 <= i < |fs| && fs[i] == f;
    var rest := fs[..i] + fs[i + 1..];
    gs := [f] + rest;
    assert fs == fs[..i] + [f] + fs[i + 1..];
    n := Represented(layersOf, gs, f);
    EvidenceIsFirst(layersOf, gs, n);
    GroupConcat(Key(f), [f], rest);
    FirstConcat([f], Group(Key, Key(f), rest), k);
    FirstAdded([], f, k);
    assert [] + [f] == [f] && Group(Key, Key(f), [f]) == [f];
  }

  /** The order of the findings shows in an entry's evidence exactly when two of its findings disagree under a key. */
  lemma OrderShows(layersOf: string -> seq<string>, fs: seq<Finding>, m: Finding)
    requires m in Report(layersOf, fs)
    ensures OrderHidden(layersOf, fs, m) <==> Agreeing(Group(Key, Key(m), fs))
  {
    var g := Group(Key, Key(m), fs);
    if Agreeing(g) {
      forall gs, n | multiset(gs) == multiset(fs) && n in Report(layersOf, gs) && Key(n) == Key(m)
        ensures n.evidence == m.evidence
      {
        SameEvidence(layersOf, fs, gs, m, n);
      }
    }
    if OrderHidden(layersOf, fs, m) {
      GroupMembers(Key, Key(m), fs);
      forall f, h, k | f in g && h in g && First(f.evidence, k).Some? && First(h.evidence, k).Some?
        ensures First(f.evidence, k) == First(h.evidence, k)
      {
        var _, a := FrontShows(layersOf, fs, f, k);
        var _, b := FrontShows(layersOf, fs, h, k);
      }
    }
  }

  /** Aggregating a report again changes nothing. */
  lemma Idempotent(layersOf: string -> seq<string>, fs: seq<Finding>)
    ensures Report(layersOf, Report(layersOf, fs)) == Report(layersOf, fs)
  {
    var r := Report(layersOf, fs);
    ReportMeaning(layersOf, fs);
    forall m | m in r ensures Normalize(layersOf, m) == m {
      var _ := Originates(layersOf, fs, m);
    }
    NormalizeAt(layersOf, r);
    forall k | 0 <= k < |r| ensures NormalizeAll(layersOf, r)[k] == r[k] {
      assert r[k] in r;
    }
    assert NormalizeAll(layersOf, r) == r;
    CollectDistinct(Key, MergeFinding, r);
    SortFixed(RanksBefore, r);
  }

  /** Entries of the same rank stand in the order in which their keys first came up among the findings. */
  lemma TiesKeepOrder(layersOf: string -> seq<string>, fs: seq<Finding>, rank: nat, confidence: real)
    ensures var tied := (f: Finding) => SeverityRank(f.severity) == rank && f.confidence == confidence;
            Keep(tied, Report(layersOf, fs)) == Keep(tied, Deduped(layersOf, fs))
    ensures Map(Key, Deduped(layersOf, fs)) == FirstKeys(Map(Key, fs))
  {
    var tied := (f: Finding) => SeverityRank(f.severity) == rank && f.confidence == confidence;
    SortStable(RanksBefore, Deduped(layersOf, fs), tied);
    assert Respects(Key, MergeFinding);
    KeysInOrder(Key, MergeFinding, NormalizeAll(layersOf, fs));
    NormalizeAt(layersOf, fs);
    MapAt(Key, NormalizeAll(layersOf, fs));
    MapAt(Key, fs);
    assert Map(Key, NormalizeAll(layersOf, fs)) == Map(Key, fs);
  }
}
