/** In which order merged evidence and baseline files are listed, and what adding an entry makes of its texts. */
module Listing {
  import opened Text
  import opened Trimming
  import opened Ordering
  import opened Grouping
  import opened EvidenceMerge
  import opened Baselines

  // ---------- Order ----------

  /** As in a dictionary: by the first character to differ, and a text before its continuations. */
  predicate Earlier(a: string, b: string) {
    (|a| < |b| && a == b[..|a|]) || exists k | 0 <= k < |a| && k < |b| :: FirstApartAt(a, b, k)
  }

  predicate FirstApartAt(a: string, b: string, k: nat)
    requires k < |a| && k < |b|
  {
    a[..k] == b[..k] && a[k] < b[k]
  }

  lemma ApartShifted(a: string, b: string, k: nat)
    requires 0 < k < |a| && k < |b| && a[0] == b[0]
    ensures FirstApartAt(a, b, k) <==> FirstApartAt(a[1..], b[1..], k - 1)
  {
    assert a[..k] == [a[0]] + a[1..][..k - 1] && b[..k] == [b[0]] + b[1..][..k - 1];
  }

  lemma ApartFirst(a: string, b: string, k: nat)
    requires k < |a| && k < |b| && FirstApartAt(a, b, k)
    ensures k == 0 || a[0] == b[0]
  {
    if k > 0 { assert a[0] == a[..k][0] && b[0] == b[..k][0]; }
  }

  lemma {:induction false} LessMeaning(a: string, b: string)
    ensures Less(a, b) <==> Earlier(a, b)
  {
    if a != "" && b != "" {
      if a[0] == b[0] {
        LessMeaning(a[1..], b[1..]);
        if |a| <= |b| { PrefixShifted(a, b); }
        if k :| 0 <= k < |a| && k < |b| && FirstApartAt(a, b, k) {
          ApartShifted(a, b, k);
        }
        if k :| 0 <= k < |a| - 1 && k < |b| - 1 && FirstApartAt(a[1..], b[1..], k) {
          ApartShifted(a, b, k + 1);
        }
      } else {
        if a[0] < b[0] { assert FirstApartAt(a, b, 0); }
        if k :| 0 <= k < |a| && k < |b| && FirstApartAt(a, b, k) {
          ApartFirst(a, b, k);
        }
      }
    }
  }

  lemma PrefixShifted(a: string, b: string)
    requires a != "" && b != "" && a[0] == b[0] && |a| <= |b|
    ensures a == b[..|a|] <==> a[1..] == b[1..][..|a| - 1]
  {
    assert a == [a[0]] + a[1..] && b[..|a|] == [b[0]] + b[1..][..|a| - 1];
  }

  /** Merged evidence is listed by source, and for one source by value, each piece once. */
  lemma EvidenceListed(left: seq<Evidence>, right: seq<Evidence>, i: nat, j: nat)
    requires i < j < |Merged(left, right)|
    ensures var a, b := Merged(left, right)[i], Merged(left, right)[j];
            Earlier(a.source, b.source) || (a.source == b.source && Earlier(a.value, b.value))
  {
    var a, b := Merged(left, right)[i], Merged(left, right)[j];
    MergedMeaning(left, right);
    StrictAt(EvidenceBefore, Merged(left, right), i, j);
    LessMeaning(a.source, b.source);
    LessMeaning(a.value, b.value);
  }

  /** A baseline file lists its entries by ID, and for one ID by fingerprint. */
  lemma EntriesListed(entries: seq<Entry>, i: nat, j: nat)
    requires i < j < |Stored(entries)|
    ensures var a, b := Stored(entries)[i], Stored(entries)[j];
            Earlier(a.id, b.id) || (a.id == b.id && (Earlier(a.fingerprint, b.fingerprint) || a.fingerprint == b.fingerprint))
  {
    var a, b := Stored(entries)[i], Stored(entries)[j];
    StoredOrder();
    SortSorted(StoredBefore, entries);
    SortedAt(StoredBefore, Stored(entries), i, j);
    LessMeaning(a.id, b.id);
    LessTotal(a.id, b.id);
    LessMeaning(a.fingerprint, b.fingerprint);
    LessTotal(a.fingerprint, b.fingerprint);
  }

  // ---------- Texts of an entry ----------

  /** The same text in capital letters. */
  predicate Capitals(s: string, t: string) {
    && |t| == |s|
    && forall k | 0 <= k < |s| :: t[k] as int == if 'a' <= s[k] <= 'z' then s[k] as int - 32 else s[k] as int
  }

  lemma UpperCapitals(s: string)
    ensures Capitals(s, Upper(s))
  {
  }

  /** Adding stores the ID in capital letters, without the white space around it and around reason and author. */
  lemma EntryCleaned(e: Entry, a: string, b: string, now: Time)
    requires AllSpace(a) && AllSpace(b) && Trimmed(e.id) && Trimmed(e.reason) && Trimmed(e.createdBy)
    ensures var c := Cleaned(e.(id := a + e.id + b, reason := a + e.reason + b, createdBy := a + e.createdBy + b), now);
            && Capitals(e.id, c.id)
            && c == e.(id := c.id, createdAt := if e.createdAt == ZERO_TIME then now else e.createdAt)
  {
    TrimAround(a, e.id, b);
    TrimAround(a, e.reason, b);
    TrimAround(a, e.createdBy, b);
    UpperCapitals(e.id);
  }

  lemma CapitalsSame(s: string, t: string)
    ensures Upper(s) == Upper(t) <==> |s| == |t| && Says(s, 0, t)
  {
    UpperCapitals(s);
    UpperCapitals(t);
    if |s| == |t| && Says(s, 0, t) {
      forall k | 0 <= k < |s| ensures Upper(s)[k] == Upper(t)[k] {
        assert UpperChar(s[k]) == UpperChar(t[k - 0]);
      }
    }
    if Upper(s) == Upper(t) {
      forall k | 0 <= k < |s| ensures UpperChar(s[k]) == UpperChar(t[k - 0]) {
        assert Upper(s)[k] == Upper(t)[k];
      }
    }
  }

  /** IDs count as the same in capital and small letters, and with white space around them. */
  lemma SameId(a: string, s: string, b: string, t: string)
    requires AllSpace(a) && Trimmed(s) && AllSpace(b) && Trimmed(t)
    ensures NormalId(a + s + b) == NormalId(t) <==> |s| == |t| && Says(s, 0, t)
  {
    TrimAround(a, s, b);
    TrimNoop(t);
    CapitalsSame(s, t);
  }
}
