/** Creating a baseline from the findings of a report (internal/baseline/baseline.go). */
module Snapshot {
  import opened Text
  import opened Ordering
  import opened Grouping
  import opened Baselines
  import opened Findings

  datatype Options = Options(reason: string, createdAt: Time, createdBy: string, expiresAt: Option<Time>,
                             minSeverity: string, useFingerprint: bool)

  function Rank(severity: string): int {
    if severity == "critical" then 4
    else if severity == "high" then 3
    else if severity == "medium" then 2
    else if severity == "low" then 1
    else if severity == "info" then 0
    else -1
  }

  /** What is hashed: the normalised ID, a newline, the symptom. */
  function Hashed(f: Finding): string {
    NormalId(f.id) + "\n" + f.symptom
  }

  /** `hash` is SHA-256, in hexadecimal. */
  function Fingerprint(hash: string -> string, f: Finding): string {
    hash(Hashed(f))
  }

  predicate Selected(opts: Options, f: Finding) {
    TrimSpace(f.id) != "" && Rank(f.severity) >= Rank(opts.minSeverity)
  }

  function EntryOf(hash: string -> string, opts: Options, f: Finding): Entry {
    Entry(TrimSpace(f.id), opts.reason, opts.expiresAt, opts.createdAt, opts.createdBy,
          if opts.useFingerprint then Fingerprint(hash, f) else "")
  }

  function Candidates(hash: string -> string, opts: Options, fs: seq<Finding>): seq<Entry> {
    if fs == [] then []
    else
      var rest := Candidates(hash, opts, fs[..|fs| - 1]);
      var f := fs[|fs| - 1];
      if Selected(opts, f) then rest + [EntryOf(hash, opts, f)] else rest
  }

  /** The loop's `seen` key. */
  function SeenKey(useFingerprint: bool): Entry -> string {
    if useFingerprint then (e: Entry) => e.id + ":" + e.fingerprint else (e: Entry) => e.id
  }

  function Firsts(hash: string -> string, opts: Options, fs: seq<Finding>): seq<Entry> {
    AbsorbAll(SeenKey(opts.useFingerprint), KeepFirst, [], Candidates(hash, opts, fs))
  }

  function Created(hash: string -> string, opts: Options, fs: seq<Finding>): seq<Entry> {
    Stored(Firsts(hash, opts, fs))
  }

  lemma FirstsNext(hash: string -> string, opts: Options, fs: seq<Finding>, i: nat)
    requires i < |fs|
    ensures var s := Firsts(hash, opts, fs[..i]);
            var e := EntryOf(hash, opts, fs[i]);
            var key := SeenKey(opts.useFingerprint);
            Firsts(hash, opts, fs[..i + 1])
            == if Selected(opts, fs[i]) && IndexOf(key, s, key(e)) == |s| then s + [e] else s
  {
    assert fs[..i + 1][..i] == fs[..i];
    if Selected(opts, fs[i]) {
      var all := Candidates(hash, opts, fs[..i]);
      assert (all + [EntryOf(hash, opts, fs[i])])[..|all|] == all;
    }
  }

  /** `seen` holds the keys of what has been collected. */
  ghost predicate Knows(seen: set<string>, key: Entry -> string, s: seq<Entry>) {
    forall k :: k in seen <==> IndexOf(key, s, k) < |s|
  }

  lemma KnowsOneMore(seen: set<string>, key: Entry -> string, s: seq<Entry>, e: Entry)
    requires Knows(seen, key, s)
    ensures Knows(seen + {key(e)}, key, s + [e])
  {
    forall k ensures k in seen + {key(e)} <==> IndexOf(key, s + [e], k) < |s + [e]| {
      IndexAppended(key, s, e, k);
    }
  }

  method CreateFromFindings(hash: string -> string, opts: Options, findings: seq<Finding>) returns (entries: seq<Entry>)
    ensures entries == Created(hash, opts, findings)
  {
    var minRank := Rank(opts.minSeverity);
    var seen: set<string> := {};
    ghost var keyOf := SeenKey(opts.useFingerprint);
    entries := [];
    for i := 0 to |findings|
      invariant entries == Firsts(hash, opts, findings[..i])
      invariant Knows(seen, keyOf, entries)
    {
      FirstsNext(hash, opts, findings, i);
      var f := findings[i];
      var id := TrimSpace(f.id);
      if id == "" { continue; }
      var fingerprint, key := "", id;
      if opts.useFingerprint {
        fingerprint := Fingerprint(hash, f);
        key := id + ":" + fingerprint;
      }
      var entry := Entry(id, opts.reason, opts.expiresAt, opts.createdAt, opts.createdBy, fingerprint);
      assert key == keyOf(entry);
      if key in seen { continue; }
      if Rank(f.severity) < minRank { continue; }
      KnowsOneMore(seen, keyOf, entries, entry);
      seen := seen + {key};
      entries := entries + [entry];
    }
    assert findings[..|findings|] == findings;
    entries := Stored(entries);
  }

  // ---------------------------------------------------------------------
  // What a created baseline holds
  // ---------------------------------------------------------------------

  lemma {:induction false} CandidateMembers(hash: string -> string, opts: Options, fs: seq<Finding>)
    ensures forall e :: e in Candidates(hash, opts, fs)
                        <==> exists f :: f in fs && Selected(opts, f) && e == EntryOf(hash, opts, f)
  {
    if fs != [] {
      var front, last := fs[..|fs| - 1], fs[|fs| - 1];
      assert fs == front + [last];
      CandidateMembers(hash, opts, front);
      forall e ensures e in Candidates(hash, opts, fs)
                       <==> exists f :: f in fs && Selected(opts, f) && e == EntryOf(hash, opts, f)
      {
        if e in Candidates(hash, opts, front) {
          var f :| f in front && Selected(opts, f) && e == EntryOf(hash, opts, f);
          assert f in fs;
        }
      }
    }
  }

  /** Some selected finding has this ID once trimmed and, when fingerprints are used, this fingerprint. */
  ghost predicate Snapshots(hash: string -> string, opts: Options, fs: seq<Finding>, id: string, fingerprint: string) {
    exists f :: f in fs && Selected(opts, f)
                && EntryKey(EntryOf(hash, opts, f)) == (id, fingerprint)
  }

  /** Fingerprints all have one length, as those of SHA-256 do. */
  ghost predicate FixedLength(hash: string -> string) {
    forall a, b :: |hash(a)| == |hash(b)|
  }

  lemma SeenKeyExact(hash: string -> string, opts: Options, d: Entry, e: Entry)
    requires SeenKey(opts.useFingerprint)(d) == SeenKey(opts.useFingerprint)(e)
    requires |d.fingerprint| == |e.fingerprint| && (!opts.useFingerprint ==> d.fingerprint == e.fingerprint)
    ensures EntryKey(d) == EntryKey(e)
  {
    if opts.useFingerprint {
      var s, t := d.id + ":" + d.fingerprint, e.id + ":" + e.fingerprint;
      assert s[..|d.id|] == d.id && t[..|e.id|] == e.id;
      assert s[|d.id| + 1..] == d.fingerprint && t[|e.id| + 1..] == e.fingerprint;
    }
  }

  /** A created baseline has one entry for every ID, or ID and fingerprint, of a selected finding, and no other. */
  lemma CreatedMeaning(hash: string -> string, opts: Options, fs: seq<Finding>)
    requires FixedLength(hash)
    ensures DistinctKeys(EntryKey, Created(hash, opts, fs))
    ensures forall id, fingerprint ::
              (exists e :: e in Created(hash, opts, fs) && EntryKey(e) == (id, fingerprint))
              <==> Snapshots(hash, opts, fs, id, fingerprint)
    ensures forall e | e in Created(hash, opts, fs) ::
              && e.reason == opts.reason && e.createdBy == opts.createdBy
              && e.createdAt == opts.createdAt && e.expiresAt == opts.expiresAt
  {
    var key := SeenKey(opts.useFingerprint);
    var all := Candidates(hash, opts, fs);
    var r, c := Firsts(hash, opts, fs), Created(hash, opts, fs);
    FirstsOnly(key, all);
    CandidateMembers(hash, opts, fs);
    SortElements(StoredBefore, r);
    forall i, j | 0 <= i < j < |r| ensures EntryKey(r[i]) != EntryKey(r[j]) {
      assert key(r[i]) != key(r[j]);
    }
    SortKeepsDistinct(EntryKey, StoredBefore, r);
    forall e | e in c ensures e in all {
      assert e in r;
    }
    forall f | f in fs && Selected(opts, f)
      ensures exists e :: e in c && EntryKey(e) == EntryKey(EntryOf(hash, opts, f))
    {
      var d := EntryOf(hash, opts, f);
      assert d in all;
      var e := r[IndexOf(key, r, key(d))];
      assert e in c && e in all;
      SeenKeyExact(hash, opts, d, e);
    }
  }

  /** Two findings have one fingerprint exactly when they agree in normalised ID and symptom. */
  lemma FingerprintMeaning(hash: string -> string, f: Finding, g: Finding)
    requires '\n' !in NormalId(f.id) && '\n' !in NormalId(g.id)
    requires hash(Hashed(f)) == hash(Hashed(g)) ==> Hashed(f) == Hashed(g)
    ensures Fingerprint(hash, f) == Fingerprint(hash, g) <==> NormalId(f.id) == NormalId(g.id) && f.symptom == g.symptom
  {
    if Fingerprint(hash, f) == Fingerprint(hash, g) {
      JoinedApart(NormalId(f.id), f.symptom, NormalId(g.id), g.symptom, '\n');
    }
  }
}
