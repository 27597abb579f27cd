/** What a report shows under each view, and what a baseline takes up, in terms of severities and IDs as they are written. */
module Views {
  import opened Text
  import opened Trimming
  import opened Baselines
  import opened Findings
  import opened Severities
  import opened Snapshot
  import opened Relevance

  lemma RankedByGravity(a: string, b: string)
    ensures AsGrave(a, b) <==> Rank(a) >= Rank(b)
  {
    RankPlace(a);
    RankPlace(b);
    assert Rank(GRAVITY[0]) == 4 && Rank(GRAVITY[1]) == 3 && Rank(GRAVITY[2]) == 2;
    assert Rank(GRAVITY[3]) == 1 && Rank(GRAVITY[4]) == 0;
  }

  lemma RankPlace(severity: string)
    ensures -1 <= Rank(severity) <= 4
    ensures Rank(severity) >= 0 ==> severity == GRAVITY[4 - Rank(severity)]
    ensures Rank(severity) == -1 ==> severity !in GRAVITY
  {
  }

  lemma UpperPrefix(s: string, p: string)
    ensures HasPrefix(Upper(s), Upper(p)) <==> Says(s, 0, p)
  {
    if HasPrefix(Upper(s), Upper(p)) {
      forall k | 0 <= k < |p| ensures UpperChar(s[k]) == UpperChar(p[k - 0]) {
        assert Upper(s)[k] == Upper(p)[k];
      }
    }
    if Says(s, 0, p) {
      forall k | 0 <= k < |p| ensures Upper(s)[k] == Upper(p)[k] {
        assert UpperChar(s[k]) == UpperChar(p[k - 0]);
      }
    }
  }

  /** Noise by its nature, whatever the minimum severity. */
  predicate Noise(f: Finding) {
    || f.id == "F-RUNTIME-DECL-001"
    || (f.severity == "medium" && (f.id == "F-ENV-001-OPTIONAL" || f.id == "F-CI-ENV-DEPLOY-INFO"))
  }

  /** What a policy without suppressions shows. */
  predicate ShownBy(view: string, minSeverity: string, f: Finding) {
    if view in ["all", "audit"] then true
    else if view == "ci" then Says(f.id, 0, "F-CI-")
    else if view == "env" then Says(f.id, 0, "F-ENV-")
    else f.severity in ["critical", "high", "medium"] && !Noise(f) && AsGrave(f.severity, minSeverity)
  }

  /**
   A finding is hidden if its fingerprint or its ID is suppressed, or the view does not show it: the complete views show
   everything, those of one area the IDs of that area in upper or lower case, and the others what is critical, high or
   medium, not noise, and at least as grave as the minimum. With hidden findings included nothing is hidden.
   */
  lemma HiddenMeaning(hash: string -> string, f: Finding, p: Settings)
    ensures IsHidden(hash, f, p) <==>
            && !p.includeHidden
            && (f.id in p.suppressedIds || Fingerprint(hash, f) in p.suppressedFingerprints || !ShownBy(p.view, p.minSeverity, f))
  {
    AreaPrefix(f, p.view);
    LowAction(f);
    RankedByGravity(f.severity, p.minSeverity);
  }

  lemma AreaPrefix(f: Finding, view: string)
    ensures HasFindingPrefix(f, "F-CI-") <==> Says(f.id, 0, "F-CI-")
    ensures HasFindingPrefix(f, "F-ENV-") <==> Says(f.id, 0, "F-ENV-")
  {
    UpperPrefix(f.id, "F-CI-");
    UpperPrefix(f.id, "F-ENV-");
  }

  lemma LowAction(f: Finding)
    ensures EvidenceOnly(f) || Classify(f) == Actionability.LowAction <==>
            f.severity !in ["critical", "high", "medium"] || Noise(f)
  {
  }

  /** Baselines take up the findings whose ID is not white space only and that are at least as grave as the minimum. */
  lemma SelectedMeaning(opts: Options, f: Finding)
    ensures Selected(opts, f) <==> !AllSpace(f.id) && AsGrave(f.severity, opts.minSeverity)
  {
    RankedByGravity(f.severity, opts.minSeverity);
    if AllSpace(f.id) {
      TrimAllSpace(f.id);
    } else {
      var l := TrimLeftDrops(f.id);
      var r := TrimRightKeeps(TrimLeft(f.id));
      assert f.id == f.id[..l] + f.id[l..];
    }
  }
}
