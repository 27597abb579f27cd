/** Which findings stay visible (internal/relevance/relevance.go). */
module Relevance {
  import opened Text
  import opened Trimming
  import opened Ordering
  import opened Grouping
  import opened Baselines
  import opened Findings
  import opened Snapshot

  datatype Settings = Settings(includeHidden: bool, minSeverity: string, view: string,
                               suppressedIds: map<string, string>, suppressedFingerprints: map<string, string>)

  predicate HasFindingPrefix(f: Finding, prefix: string) {
    HasPrefix(Upper(f.id), Upper(prefix))
  }

  predicate EvidenceOnly(f: Finding) {
    f.id == "F-RUNTIME-DECL-001"
  }

  datatype Actionability = HighAction | MediumAction | LowAction

  function Classify(f: Finding): Actionability {
    if f.severity == "critical" || f.severity == "high" then HighAction
    else if f.id == "F-ENV-001-OPTIONAL" || f.id == "F-CI-ENV-DEPLOY-INFO" || EvidenceOnly(f) then LowAction
    else if f.severity == "medium" then MediumAction
    else LowAction
  }

  /** Hidden by the view, the actionability or the severity, whatever is suppressed. */
  predicate Unwanted(f: Finding, p: Settings) {
    if p.view == "all" || p.view == "audit" then false
    else if p.view == "ci" then !HasFindingPrefix(f, "F-CI-")
    else if p.view == "env" then !HasFindingPrefix(f, "F-ENV-")
    else EvidenceOnly(f) || Classify(f) == LowAction || Rank(f.severity) < Rank(p.minSeverity)
  }

  predicate IsHidden(hash: string -> string, f: Finding, p: Settings) {
    if p.includeHidden then false
    else if |p.suppressedFingerprints| > 0 && Fingerprint(hash, f) in p.suppressedFingerprints then true
    else if f.id in p.suppressedIds then true
    else Unwanted(f, p)
  }

  function Shown(hash: string -> string, p: Settings): Finding -> bool {
    (f: Finding) => !IsHidden(hash, f, p)
  }

  /** The findings that stay, in order. */
  function Visible(hash: string -> string, fs: seq<Finding>, p: Settings): seq<Finding> {
    Keep(Shown(hash, p), fs)
  }

  method FilterReport(hash: string -> string, findings: seq<Finding>, p: Settings)
    returns (visible: seq<Finding>, hidden: nat)
    ensures visible == Visible(hash, findings, p)
    ensures |visible| + hidden == |findings|
  {
    visible, hidden := [], 0;
    for i := 0 to |findings|
      invariant visible == Visible(hash, findings[..i], p)
      invariant |visible| + hidden == i
    {
      KeepNext(Shown(hash, p), findings, i);
      if IsHidden(hash, findings[i], p) {
        hidden := hidden + 1;
        continue;
      }
      visible := visible + [findings[i]];
    }
    assert findings[..|findings|] == findings;
  }

  /** The visible findings are those not hidden, as often as they came, and filtering again keeps them all. */
  lemma VisibleMeaning(hash: string -> string, fs: seq<Finding>, p: Settings)
    ensures forall f :: multiset(Visible(hash, fs, p))[f] == if IsHidden(hash, f, p) then 0 else multiset(fs)[f]
    ensures Visible(hash, Visible(hash, fs, p), p) == Visible(hash, fs, p)
  {
    KeepMembers(Shown(hash, p), fs);
    KeepAll(Shown(hash, p), Visible(hash, fs, p));
  }

  /** Order is kept: what is visible of two lists in a row is what is visible of each, in a row. */
  lemma VisibleConcat(hash: string -> string, fs: seq<Finding>, gs: seq<Finding>, p: Settings)
    ensures Visible(hash, fs + gs, p) == Visible(hash, fs, p) + Visible(hash, gs, p)
  {
    KeepConcat(Shown(hash, p), fs, gs);
  }

  // ---------------------------------------------------------------------
  // Applying a baseline
  // ---------------------------------------------------------------------

  /** Entries without a fingerprint suppress their ID, unless it is suppressed already. */
  function WithIds(ids: map<string, string>, entries: seq<Entry>): map<string, string> {
    if entries == [] then ids
    else
      var m := WithIds(ids, entries[..|entries| - 1]);
      var e := entries[|entries| - 1];
      if e.fingerprint == "" && e.id !in m then m[e.id := e.reason] else m
  }

  function WithFingerprints(fps: map<string, string>, entries: seq<Entry>): map<string, string> {
    if entries == [] then fps
    else
      var m := WithFingerprints(fps, entries[..|entries| - 1]);
      var e := entries[|entries| - 1];
      if e.fingerprint != "" && e.fingerprint !in m then m[e.fingerprint := e.reason] else m
  }

  class Policy {
    var includeHidden: bool
    var minSeverity: string
    var view: string
    var suppressedIds: map<string, string>
    var suppressedFingerprints: map<string, string>

    constructor ()
      ensures Value() == Settings(false, "medium", "actionable", map[], map[])
    {
      includeHidden, minSeverity, view := false, "medium", "actionable";
      suppressedIds, suppressedFingerprints := map[], map[];
    }

    function Value(): Settings
      reads this
    {
      Settings(includeHidden, minSeverity, view, suppressedIds, suppressedFingerprints)
    }

    method ApplyBaseline(baseline: Baseline, now: Time)
      modifies this`suppressedIds, this`suppressedFingerprints
      ensures suppressedIds == WithIds(old(suppressedIds), Active(baseline.entries, now))
      ensures suppressedFingerprints == WithFingerprints(old(suppressedFingerprints), Active(baseline.entries, now))
    {
      var active := ActiveEntries(baseline.entries, now);
      for i := 0 to |active|
        invariant suppressedIds == WithIds(old(suppressedIds), active[..i])
        invariant suppressedFingerprints == WithFingerprints(old(suppressedFingerprints), active[..i])
      {
        assert active[..i + 1][..i] == active[..i];
        var entry := active[i];
        if entry.fingerprint != "" {
          if entry.fingerprint !in suppressedFingerprints {
            suppressedFingerprints := suppressedFingerprints[entry.fingerprint := entry.reason];
          }
        } else {
          if entry.id !in suppressedIds {
            suppressedIds := suppressedIds[entry.id := entry.reason];
          }
        }
      }
      assert active[..|active|] == active;
    }
  }

  /** Reasons already given stay, and exactly the entries' IDs and fingerprints join them. */
  lemma {:induction false} Applied(ids: map<string, string>, fps: map<string, string>, entries: seq<Entry>)
    ensures forall k | k in ids :: k in WithIds(ids, entries) && WithIds(ids, entries)[k] == ids[k]
    ensures forall k | k in fps :: k in WithFingerprints(fps, entries) && WithFingerprints(fps, entries)[k] == fps[k]
    ensures forall k :: k in WithIds(ids, entries)
                        <==> k in ids || exists e :: e in entries && EntryKey(e) == (k, "")
    ensures forall k :: k in WithFingerprints(fps, entries)
                        <==> k in fps || (k != "" && exists e :: e in entries && e.fingerprint == k)
  {
    if entries != [] {
      var front, last := entries[..|entries| - 1], entries[|entries| - 1];
      assert entries == front + [last];
      Applied(ids, fps, front);
      assert last in entries;
      forall e | e in front ensures e in entries {}
    }
  }

  /** A new ID gets the reason of the first entry that suppresses it. */
  lemma {:induction false} FirstReason(ids: map<string, string>, entries: seq<Entry>, i: nat)
    requires i < |entries| && entries[i].fingerprint == "" && entries[i].id !in ids
    requires forall j | 0 <= j < i :: EntryKey(entries[j]) != (entries[i].id, "")
    ensures entries[i].id in WithIds(ids, entries) && WithIds(ids, entries)[entries[i].id] == entries[i].reason
  {
    var front := entries[..|entries| - 1];
    if i < |front| {
      FirstReason(ids, front, i);
    } else {
      Applied(ids, map[], front);
      forall e | e in front ensures EntryKey(e) != (entries[i].id, "") {
        var j :| 0 <= j < |front| && front[j] == e;
        assert EntryKey(entries[j]) != (entries[i].id, "");
      }
    }
  }

  /** ... and so does a new fingerprint. */
  lemma {:induction false} FirstFingerprintReason(fps: map<string, string>, entries: seq<Entry>, i: nat)
    requires i < |entries| && entries[i].fingerprint != "" && entries[i].fingerprint !in fps
    requires forall j | 0 <= j < i :: entries[j].fingerprint != entries[i].fingerprint
    ensures var fp := entries[i].fingerprint;
            fp in WithFingerprints(fps, entries) && WithFingerprints(fps, entries)[fp] == entries[i].reason
  {
    var front := entries[..|entries| - 1];
    if i < |front| {
      FirstFingerprintReason(fps, front, i);
    } else {
      Applied(map[], fps, front);
      forall e | e in front ensures e.fingerprint != entries[i].fingerprint {
        var j :| 0 <= j < |front| && front[j] == e;
        assert entries[j].fingerprint != entries[i].fingerprint;
      }
    }
  }

  // ---------------------------------------------------------------------
  // Create, apply, filter
  // ---------------------------------------------------------------------

  /** The settings after a baseline created from `fs` has been applied. */
  function AfterBaseline(hash: string -> string, p: Settings, opts: Options, fs: seq<Finding>, now: Time): Settings {
    var active := Active(Created(hash, opts, fs), now);
    p.(suppressedIds := WithIds(p.suppressedIds, active),
       suppressedFingerprints := WithFingerprints(p.suppressedFingerprints, active))
  }

  predicate StillValid(opts: Options, now: Time) {
    opts.expiresAt.Some? ==> now <= opts.expiresAt.value
  }

  lemma CreatedActive(hash: string -> string, opts: Options, fs: seq<Finding>, now: Time)
    requires FixedLength(hash) && StillValid(opts, now)
    ensures Active(Created(hash, opts, fs), now) == Created(hash, opts, fs)
  {
    CreatedMeaning(hash, opts, fs);
    var c := Created(hash, opts, fs);
    forall i | 0 <= i < |c| ensures !Expired(c[i], now) {
      assert c[i] in c;
    }
    KeepAll(Unexpired(now), c);
  }

  /** In ID mode an ID is suppressed exactly when it was before or is the trimmed ID of a selected finding. */
  lemma IdsSuppressed(hash: string -> string, p: Settings, opts: Options, fs: seq<Finding>, now: Time, id: string)
    requires FixedLength(hash) && StillValid(opts, now) && !opts.useFingerprint
    ensures id in AfterBaseline(hash, p, opts, fs, now).suppressedIds
            <==> id in p.suppressedIds || exists f :: f in fs && Selected(opts, f) && TrimSpace(f.id) == id
  {
    CreatedActive(hash, opts, fs, now);
    CreatedMeaning(hash, opts, fs);
    var c := Created(hash, opts, fs);
    Applied(p.suppressedIds, p.suppressedFingerprints, c);
    assert (exists e :: e in c && EntryKey(e) == (id, "")) <==> Snapshots(hash, opts, fs, id, "");
    if exists f :: f in fs && Selected(opts, f) && TrimSpace(f.id) == id {
      var f :| f in fs && Selected(opts, f) && TrimSpace(f.id) == id;
      assert EntryKey(EntryOf(hash, opts, f)) == (id, "");
    }
  }

  /** A baselined finding is suppressed exactly when its ID has no surrounding space, unless it was suppressed before. */
  lemma IdMode(hash: string -> string, p: Settings, opts: Options, fs: seq<Finding>, now: Time, f: Finding)
    requires FixedLength(hash) && StillValid(opts, now) && !opts.useFingerprint
    requires f in fs && Selected(opts, f)
    ensures f.id in AfterBaseline(hash, p, opts, fs, now).suppressedIds
            <==> f.id in p.suppressedIds || TrimSpace(f.id) == f.id
    ensures TrimSpace(f.id) == f.id && !p.includeHidden ==> IsHidden(hash, f, AfterBaseline(hash, p, opts, fs, now))
  {
    IdsSuppressed(hash, p, opts, fs, now, f.id);
    if g :| g in fs && Selected(opts, g) && TrimSpace(g.id) == f.id {
      TrimTrimmed(g.id);
    }
  }

  /** In fingerprint mode exactly the fingerprints of the selected findings join, and no ID does. */
  lemma FingerprintsSuppressed(hash: string -> string, p: Settings, opts: Options, fs: seq<Finding>, now: Time, fp: string)
    requires FixedLength(hash) && StillValid(opts, now) && opts.useFingerprint && fp != ""
    ensures fp in AfterBaseline(hash, p, opts, fs, now).suppressedFingerprints
            <==> fp in p.suppressedFingerprints || exists f :: f in fs && Selected(opts, f) && Fingerprint(hash, f) == fp
  {
    CreatedActive(hash, opts, fs, now);
    CreatedMeaning(hash, opts, fs);
    var c := Created(hash, opts, fs);
    Applied(p.suppressedIds, p.suppressedFingerprints, c);
    if exists e :: e in c && e.fingerprint == fp {
      var e :| e in c && e.fingerprint == fp;
      assert EntryKey(e) == (e.id, fp);
      assert Snapshots(hash, opts, fs, e.id, fp);
      var f :| f in fs && Selected(opts, f) && EntryKey(EntryOf(hash, opts, f)) == (e.id, fp);
      assert Fingerprint(hash, f) == fp;
    }
    if exists f :: f in fs && Selected(opts, f) && Fingerprint(hash, f) == fp {
      var f :| f in fs && Selected(opts, f) && Fingerprint(hash, f) == fp;
      assert EntryKey(EntryOf(hash, opts, f)) == (TrimSpace(f.id), fp);
      assert Snapshots(hash, opts, fs, TrimSpace(f.id), fp);
      var e :| e in c && EntryKey(e) == (TrimSpace(f.id), fp);
      assert e.fingerprint == fp;
    }
  }

  /** No two of the texts of these findings have one hash. */
  ghost predicate NoCollision(hash: string -> string, fs: seq<Finding>, g: Finding) {
    forall f | f in fs :: hash(Hashed(f)) == hash(Hashed(g)) ==> Hashed(f) == Hashed(g)
  }

  predicate NoNewline(fs: seq<Finding>) {
    forall k | 0 <= k < |fs| :: '\n' !in NormalId(fs[k].id)
  }

  /** Fingerprint mode suppresses the findings that agree in normalised ID and symptom with a baselined one. */
  lemma FingerprintMode(hash: string -> string, p: Settings, opts: Options, fs: seq<Finding>, now: Time, g: Finding)
    requires FixedLength(hash) && StillValid(opts, now) && opts.useFingerprint && Fingerprint(hash, g) != ""
    requires NoCollision(hash, fs, g) && NoNewline(fs) && '\n' !in NormalId(g.id)
    ensures Fingerprint(hash, g) in AfterBaseline(hash, p, opts, fs, now).suppressedFingerprints
            <==> Fingerprint(hash, g) in p.suppressedFingerprints
                 || exists f :: f in fs && Selected(opts, f) && NormalId(f.id) == NormalId(g.id) && f.symptom == g.symptom
  {
    FingerprintsSuppressed(hash, p, opts, fs, now, Fingerprint(hash, g));
    forall f | f in fs
      ensures Fingerprint(hash, f) == Fingerprint(hash, g) <==> NormalId(f.id) == NormalId(g.id) && f.symptom == g.symptom
    {
      var k :| 0 <= k < |fs| && fs[k] == f;
      FingerprintMeaning(hash, f, g);
    }
  }

  lemma OneMode(hash: string -> string, p: Settings, opts: Options, fs: seq<Finding>, now: Time, k: string)
    requires FixedLength(hash) && StillValid(opts, now) && (opts.useFingerprint ==> hash("") != "")
    ensures var q := AfterBaseline(hash, p, opts, fs, now);
            if opts.useFingerprint then k in q.suppressedIds <==> k in p.suppressedIds
            else k in q.suppressedFingerprints <==> k in p.suppressedFingerprints
  {
    CreatedActive(hash, opts, fs, now);
    CreatedMeaning(hash, opts, fs);
    var c := Created(hash, opts, fs);
    Applied(p.suppressedIds, p.suppressedFingerprints, c);
    forall e | e in c ensures e.fingerprint == "" <==> !opts.useFingerprint {
      assert EntryKey(e) == (e.id, e.fingerprint);
      assert Snapshots(hash, opts, fs, e.id, e.fingerprint);
    }
  }

  /** Applying a baseline created by ID hides exactly the findings whose ID is that of a selected one, trimmed. */
  lemma IdModeHides(hash: string -> string, p: Settings, opts: Options, fs: seq<Finding>, now: Time, g: Finding)
    requires FixedLength(hash) && StillValid(opts, now) && !opts.useFingerprint
    ensures IsHidden(hash, g, AfterBaseline(hash, p, opts, fs, now))
            <==> IsHidden(hash, g, p)
                 || ((exists f :: f in fs && Selected(opts, f) && TrimSpace(f.id) == g.id) && !p.includeHidden)
  {
    var q := AfterBaseline(hash, p, opts, fs, now);
    IdsSuppressed(hash, p, opts, fs, now, g.id);
    OneMode(hash, p, opts, fs, now, Fingerprint(hash, g));
  }

  /** Applying a baseline created by fingerprint hides exactly the findings that agree with a selected one. */
  lemma FingerprintModeHides(hash: string -> string, p: Settings, opts: Options, fs: seq<Finding>, now: Time, g: Finding)
    requires FixedLength(hash) && StillValid(opts, now) && opts.useFingerprint && hash("") != ""
    requires NoCollision(hash, fs, g) && NoNewline(fs) && '\n' !in NormalId(g.id)
    ensures IsHidden(hash, g, AfterBaseline(hash, p, opts, fs, now))
            <==> IsHidden(hash, g, p)
                 || ((exists f :: f in fs && Selected(opts, f) && NormalId(f.id) == NormalId(g.id) && f.symptom == g.symptom)
                     && !p.includeHidden)
  {
    var q := AfterBaseline(hash, p, opts, fs, now);
    assert |Fingerprint(hash, g)| == |hash("")|;
    FingerprintMode(hash, p, opts, fs, now, g);
    OneMode(hash, p, opts, fs, now, g.id);
  }
}
