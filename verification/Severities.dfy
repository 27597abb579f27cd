/** The order of a report and what stands for repeated findings, in terms of the names of the severities. */
module Severities {
  import opened Text
  import opened Ordering
  import opened Grouping
  import opened Findings

  /** The severities, gravest first; every other text counts as less grave than all of them. */
  const GRAVITY := ["critical", "high", "medium", "low", "info"]

  /** `a` stands no further back in the list than `b` does. */
  predicate AsGrave(a: string, b: string) {
    b in GRAVITY ==> exists i, j | 0 <= i <= j < |GRAVITY| :: a == GRAVITY[i] && b == GRAVITY[j]
  }

  /** `a` is at least as grave as `b` and, if they are equally grave, at least as certain. */
  predicate AsImportant(a: Finding, b: Finding) {
    && AsGrave(a.severity, b.severity)
    && (AsGrave(b.severity, a.severity) ==> a.confidence >= b.confidence)
  }

  lemma RankMeaning(severity: string)
    ensures SeverityRank(severity) <= 5
    ensures SeverityRank(severity) < 5 ==> severity == GRAVITY[SeverityRank(severity)]
    ensures SeverityRank(severity) == 5 ==> severity !in GRAVITY
  {
  }

  lemma GraveMeaning(a: string, b: string)
    ensures AsGrave(a, b) <==> SeverityRank(a) <= SeverityRank(b)
  {
    RankMeaning(a);
    RankMeaning(b);
    assert SeverityRank(GRAVITY[0]) == 0 && SeverityRank(GRAVITY[1]) == 1 && SeverityRank(GRAVITY[2]) == 2;
    assert SeverityRank(GRAVITY[3]) == 3 && SeverityRank(GRAVITY[4]) == 4;
  }

  lemma ImportantMeaning(a: Finding, b: Finding)
    ensures AsImportant(a, b) <==> !RanksBefore(b, a)
  {
    GraveMeaning(a.severity, b.severity);
    GraveMeaning(b.severity, a.severity);
  }

  /**
   In a report no graver entry stands behind a less grave one, and of two equally grave ones the more certain does not
   stand behind the less certain.
   */
  lemma GravestFirst(layersOf: string -> seq<string>, fs: seq<Finding>, i: nat, j: nat)
    requires i < j < |Report(layersOf, fs)|
    ensures AsImportant(Report(layersOf, fs)[i], Report(layersOf, fs)[j])
  {
    ReportMeaning(layersOf, fs);
    SortedAt(RanksBefore, Report(layersOf, fs), i, j);
    ImportantMeaning(Report(layersOf, fs)[i], Report(layersOf, fs)[j]);
  }

  predicate SameFinding(f: Finding, g: Finding) {
    f.id == g.id && f.title == g.title && f.symptom == g.symptom
  }

  /** `m` tells what `f` tells, with defaults where `f` is silent. */
  predicate Completed(layersOf: string -> seq<string>, f: Finding, m: Finding) {
    && m.likelyCauses == f.likelyCauses && m.fixHints == f.fixHints
    && (f.layers != [] ==> m.layers == f.layers) && (f.layers == [] ==> m.layers == layersOf(f.id))
    && (f.redactionStatus != "" ==> m.redactionStatus == f.redactionStatus)
    && (f.redactionStatus == "" ==> m.redactionStatus == "default")
    && (f.fixes != [] ==> m.fixes == f.fixes)
    && (f.fixes == [] ==> |m.fixes| == 1 && m.fixes[0].class_ == "manual" && m.fixes[0].commands == [])
  }

  /** An entry is the first of the most important findings with its ID, title and symptom, apart from evidence and defaults. */
  lemma MostImportantStands(layersOf: string -> seq<string>, fs: seq<Finding>, m: Finding) returns (i: nat)
    requires m in Report(layersOf, fs)
    ensures i < |fs| && fs[i].severity == m.severity && fs[i].confidence == m.confidence && Key(fs[i]) == Key(m)
    ensures SameFinding(fs[i], m) && Completed(layersOf, fs[i], m)
    ensures forall j | 0 <= j < |fs| && SameFinding(fs[j], m) :: AsImportant(m, fs[j])
    ensures forall j | 0 <= j < i && SameFinding(fs[j], m) :: !AsImportant(fs[j], m)
  {
    i := OriginatesAt(layersOf, fs, m);
    forall j | 0 <= j < |fs| && SameFinding(fs[j], m) ensures AsImportant(m, fs[j]) {
      assert Key(fs[j]) == Key(m);
      ImportantMeaning(m, fs[j]);
    }
    forall j | 0 <= j < i && SameFinding(fs[j], m) ensures !AsImportant(fs[j], m) {
      assert Key(fs[j]) == Key(m);
      ImportantMeaning(fs[j], m);
    }
  }
}
