/** Baselines of accepted findings (internal/baseline/baseline.go) and their import (internal/cli/baseline.go). */
module Baselines {
  import opened Text
  import opened Ordering
  import opened Grouping
  import opened Overrides

  /** A point in time; `ZERO_TIME` is the value of an unset one. */
  type Time = int

  const ZERO_TIME: Time := 0

  datatype Entry = Entry(id: string, reason: string, expiresAt: Option<Time>, createdAt: Time, createdBy: string,
                         fingerprint: string)

  const SCHEMA_VERSION := "devdiag.baseline/v1"

  function NormalId(id: string): string {
    Upper(TrimSpace(id))
  }

  predicate IsValidFingerprint(v: string) {
    |v| == 64 && forall k | 0 <= k < |v| :: '0' <= v[k] <= '9' || 'a' <= v[k] <= 'f'
  }

  /** What identifies an entry. */
  function EntryKey(e: Entry): (string, string) {
    (e.id, e.fingerprint)
  }

  predicate Expired(e: Entry, now: Time) {
    e.expiresAt.Some? && e.expiresAt.value < now
  }

  function Unexpired(now: Time): Entry -> bool {
    (e: Entry) => !Expired(e, now)
  }

  /** The entries that have not expired, in order. */
  function Active(entries: seq<Entry>, now: Time): seq<Entry> {
    Keep(Unexpired(now), entries)
  }

  datatype Refusal = EmptyId | EmptyReason | InvalidFingerprint

  datatype Outcome = Updated | Added | Refused(why: Refusal)

  /** The reason `Add` refuses an entry for, if any. */
  function Objection(e: Entry): Option<Refusal> {
    if NormalId(e.id) == "" then Some(EmptyId)
    else if TrimSpace(e.reason) == "" then Some(EmptyReason)
    else if e.fingerprint != "" && !IsValidFingerprint(e.fingerprint) then Some(InvalidFingerprint)
    else None
  }

  /** The entry as `Add` stores it. */
  function Cleaned(e: Entry, now: Time): Entry {
    e.(id := NormalId(e.id), reason := TrimSpace(e.reason), createdBy := TrimSpace(e.createdBy),
       createdAt := if e.createdAt == ZERO_TIME then now else e.createdAt)
  }

  /** Everything but the first entry with that key. */
  function Without(entries: seq<Entry>, key: (string, string)): seq<Entry> {
    var i := IndexOf(EntryKey, entries, key);
    if i < |entries| then entries[..i] + entries[i + 1..] else entries
  }

  // ---------------------------------------------------------------------
  // Loading
  // ---------------------------------------------------------------------

  datatype LoadError = BadSchema | EmptyIdAt(i: nat) | ZeroTimeAt(i: nat) | BadFingerprintAt(i: nat)

  /** What `validate` finds wrong with the entry at `i`. */
  function Fault(e: Entry, i: nat): Option<LoadError> {
    if TrimSpace(e.id) == "" then Some(EmptyIdAt(i))
    else if e.createdAt == ZERO_TIME then Some(ZeroTimeAt(i))
    else if e.fingerprint != "" && !IsValidFingerprint(e.fingerprint) then Some(BadFingerprintAt(i))
    else None
  }

  /** The entries a baseline file may hold: loading refuses any other. */
  predicate Loadable(entries: seq<Entry>) {
    forall i | 0 <= i < |entries| :: Fault(entries[i], i) == None
  }

  /** The check `Load` makes of a file that parses. Missing and empty files load as an empty baseline instead. */
  method Validate(schemaVersion: string, entries: seq<Entry>) returns (error: Option<LoadError>)
    ensures error == None <==> schemaVersion == SCHEMA_VERSION && Loadable(entries)
    ensures error == Some(BadSchema) <==> schemaVersion != SCHEMA_VERSION
    ensures error.Some? && !error.value.BadSchema? ==>
              var i := error.value.i; i < |entries| && Fault(entries[i], i) == error && Loadable(entries[..i])
  {
    if schemaVersion != SCHEMA_VERSION { return Some(BadSchema); }
    for i := 0 to |entries|
      invariant Loadable(entries[..i])
    {
      var entry := entries[i];
      if TrimSpace(entry.id) == "" { return Some(EmptyIdAt(i)); }
      if entry.createdAt == ZERO_TIME { return Some(ZeroTimeAt(i)); }
      if entry.fingerprint != "" && !IsValidFingerprint(entry.fingerprint) { return Some(BadFingerprintAt(i)); }
    }
    assert entries[..|entries|] == entries;
    return None;
  }

  lemma IndexFound(entries: seq<Entry>, i: nat, key: (string, string))
    requires i <= |entries| && forall j | 0 <= j < i :: EntryKey(entries[j]) != key
    requires i < |entries| ==> EntryKey(entries[i]) == key
    ensures IndexOf(EntryKey, entries, key) == i
  {
    var k := IndexOf(EntryKey, entries, key);
  }

  class Baseline {
    var schemaVersion: string
    var entries: seq<Entry>

    constructor ()
      ensures schemaVersion == SCHEMA_VERSION && entries == []
    {
      schemaVersion := SCHEMA_VERSION;
      entries := [];
    }

    method Prune(now: Time) returns (pruned: nat)
      modifies this`entries
      ensures entries == Active(old(entries), now)
      ensures pruned == |old(entries)| - |entries|
    {
      var active: seq<Entry> := [];
      pruned := 0;
      for i := 0 to |entries|
        invariant entries == old(entries)
        invariant active == Active(entries[..i], now)
        invariant pruned == i - |active|
      {
        KeepNext(Unexpired(now), entries, i);
        if Expired(entries[i], now) {
          pruned := pruned + 1;
          continue;
        }
        active := active + [entries[i]];
      }
      assert entries[..|entries|] == entries;
      entries := active;
    }

    method Add(entry: Entry, now: Time) returns (outcome: Outcome)
      modifies this
      ensures outcome.Refused? <==> Objection(entry).Some?
      ensures outcome.Refused? ==> Objection(entry) == Some(outcome.why)
                                   && entries == old(entries) && schemaVersion == old(schemaVersion)
      ensures !outcome.Refused? ==> entries == Absorb(EntryKey, Replace, old(entries), Cleaned(entry, now))
      ensures !outcome.Refused? ==> schemaVersion == if old(schemaVersion) == "" then SCHEMA_VERSION else old(schemaVersion)
      ensures outcome == Added ==> |entries| == |old(entries)| + 1
      ensures outcome == Updated ==> |entries| == |old(entries)|
    {
      var clean := Cleaned(entry, now);
      if clean.id == "" { return Refused(EmptyId); }
      if clean.reason == "" { return Refused(EmptyReason); }
      if clean.fingerprint != "" && !IsValidFingerprint(clean.fingerprint) { return Refused(InvalidFingerprint); }
      if schemaVersion == "" { schemaVersion := SCHEMA_VERSION; }
      for i := 0 to |entries|
        invariant entries == old(entries)
        invariant forall j | 0 <= j < i :: EntryKey(entries[j]) != EntryKey(clean)
      {
        if entries[i].id == clean.id && entries[i].fingerprint == clean.fingerprint {
          IndexFound(entries, i, EntryKey(clean));
          entries := entries[i := clean];
          return Updated;
        }
      }
      IndexFound(entries, |entries|, EntryKey(clean));
      entries := entries + [clean];
      return Added;
    }

    method Remove(id: string, fingerprint: string) returns (removed: bool)
      modifies this`entries
      ensures var key := (NormalId(id), TrimSpace(fingerprint));
              entries == (if key.0 == "" then old(entries) else Without(old(entries), key))
      ensures removed <==> |entries| < |old(entries)|
    {
      var key := (NormalId(id), TrimSpace(fingerprint));
      if key.0 == "" { return false; }
      for i := 0 to |entries|
        invariant entries == old(entries)
        invariant forall j | 0 <= j < i :: EntryKey(entries[j]) != key
      {
        if entries[i].id == key.0 && entries[i].fingerprint == key.1 {
          IndexFound(entries, i, key);
          entries := entries[..i] + entries[i + 1..];
          return true;
        }
      }
      IndexFound(entries, |entries|, key);
      return false;
    }

    /** The loop of `baseline import`: `clock(i)` is the time at the `i`-th entry. It stops at the first refusal. */
    method ImportAll(source: seq<Entry>, clock: nat -> Time) returns (added: nat, updated: nat, refused: Option<Refusal>)
      modifies this
      ensures refused == FirstObjection(source)
      ensures refused == None ==>
                && entries == Import(EntryKey, old(entries), CleanedAll(source, clock))
                && added + updated == |source|
                && added == |entries| - |old(entries)|
    {
      added, updated := 0, 0;
      for i := 0 to |source|
        invariant entries == Import(EntryKey, old(entries), CleanedAll(source[..i], clock))
        invariant added + updated == i && added == |entries| - |old(entries)|
        invariant FirstObjection(source) == FirstObjection(source[i..])
      {
        assert source[i..][1..] == source[i + 1..];
        ImportNext(old(entries), source, clock, i);
        var outcome := Add(source[i], clock(i));
        match outcome
        case Refused(why) => return added, updated, Some(why);
        case Updated => updated := updated + 1;
        case Added => added := added + 1;
      }
      assert source[..|source|] == source;
      refused := None;
    }
  }

  function FirstObjection(source: seq<Entry>): Option<Refusal> {
    if source == [] then None
    else if Objection(source[0]).Some? then Objection(source[0])
    else FirstObjection(source[1..])
  }

  function CleanedAll(source: seq<Entry>, clock: nat -> Time): (es: seq<Entry>)
    ensures |es| == |source|
  {
    if source == [] then []
    else CleanedAll(source[..|source| - 1], clock) + [Cleaned(source[|source| - 1], clock(|source| - 1))]
  }

  lemma ImportNext(entries: seq<Entry>, source: seq<Entry>, clock: nat -> Time, i: nat)
    requires i < |source|
    ensures Import(EntryKey, entries, CleanedAll(source[..i + 1], clock))
            == Absorb(EntryKey, Replace, Import(EntryKey, entries, CleanedAll(source[..i], clock)), Cleaned(source[i], clock(i)))
  {
    var all, e := CleanedAll(source[..i], clock), Cleaned(source[i], clock(i));
    assert source[..i + 1][..i] == source[..i];
    assert (all + [e])[..|all|] == all;
  }

  method ActiveEntries(entries: seq<Entry>, now: Time) returns (active: seq<Entry>)
    ensures active == Active(entries, now)
  {
    active := [];
    for i := 0 to |entries|
      invariant active == Active(entries[..i], now)
    {
      KeepNext(Unexpired(now), entries, i);
      if Expired(entries[i], now) { continue; }
      active := active + [entries[i]];
    }
    assert entries[..|entries|] == entries;
  }

  // ---------------------------------------------------------------------
  // Laws
  // ---------------------------------------------------------------------

  /** The active entries are those that do not expire or do so now or later, as often as they came. */
  lemma ActiveMembers(entries: seq<Entry>, now: Time)
    ensures forall e :: multiset(Active(entries, now))[e] ==
              if e.expiresAt.Some? && e.expiresAt.value < now then 0 else multiset(entries)[e]
  {
    KeepMembers(Unexpired(now), entries);
  }

  /** Pruning again later leaves what a single late pruning leaves. */
  lemma {:induction false} PruneAgain(entries: seq<Entry>, now: Time, later: Time)
    requires now <= later
    ensures Active(Active(entries, now), later) == Active(entries, later)
  {
    if entries != [] {
      var front, last := entries[..|entries| - 1], entries[|entries| - 1];
      PruneAgain(front, now, later);
      var kept := Active(front, now) + [last];
      assert kept[..|kept| - 1] == Active(front, now);
    }
  }

  /** Removing the entry just added gives the table back. */
  lemma AddRemove(entries: seq<Entry>, e: Entry)
    requires Lookup(EntryKey, entries, EntryKey(e)) == None
    ensures Without(Absorb(EntryKey, Replace, entries, e), EntryKey(e)) == entries
  {
    IndexAppended(EntryKey, entries, e, EntryKey(e));
    var r := entries + [e];
    assert r[..|entries|] + r[|entries| + 1..] == entries;
  }

  /** With unique keys a removed entry is gone, and nothing else is. */
  lemma RemoveMeaning(entries: seq<Entry>, key: (string, string))
    requires DistinctKeys(EntryKey, entries)
    ensures DistinctKeys(EntryKey, Without(entries, key))
    ensures forall e :: e in Without(entries, key) <==> e in entries && EntryKey(e) != key
  {
    var i, r := IndexOf(EntryKey, entries, key), Without(entries, key);
    if i < |entries| {
      assert forall j | 0 <= j < |r| :: r[j] == entries[if j < i then j else j + 1];
      forall e ensures e in r <==> e in entries && EntryKey(e) != key {
        if e in entries && EntryKey(e) != key {
          var j :| 0 <= j < |entries| && entries[j] == e;
          assert r[if j < i then j else j - 1] == e;
        }
      }
    }
  }

  /** A source that loads has creation times, so that the clock does not matter. */
  lemma {:induction false} ClockIgnored(source: seq<Entry>, first: nat -> Time, second: nat -> Time)
    requires Loadable(source)
    ensures CleanedAll(source, first) == CleanedAll(source, second)
  {
    if source != [] {
      var last := |source| - 1;
      assert Fault(source[last], last) == None;
      assert forall i | 0 <= i < last :: source[..last][i] == source[i] && Fault(source[i], i) == None;
      ClockIgnored(source[..last], first, second);
    }
  }

  /** Entries by ID, then by fingerprint: the order of the file. */
  predicate StoredBefore(a: Entry, b: Entry) {
    if a.id == b.id then Less(a.fingerprint, b.fingerprint) else Less(a.id, b.id)
  }

  function Stored(entries: seq<Entry>): seq<Entry> {
    StableSort(StoredBefore, entries)
  }

  lemma StoredOrder()
    ensures WeakOrder(StoredBefore)
    ensures forall a, b :: EntryKey(a) != EntryKey(b) ==> StoredBefore(a, b) || StoredBefore(b, a)
  {
    forall a: string, b: string ensures !(Less(a, b) && Less(b, a)) && (a == b || Less(a, b) || Less(b, a)) {
      LessTotal(a, b);
    }
    forall a: string, b: string, c: string ensures Less(a, b) && Less(b, c) ==> Less(a, c) {
      if Less(a, b) && Less(b, c) { LessTransitive(a, b, c); }
    }
  }

  /** The file does not depend on how the entries are sorted, nor on their order in memory. */
  lemma StoredUnique(entries: seq<Entry>, t: seq<Entry>)
    requires DistinctKeys(EntryKey, entries) && multiset(entries) == multiset(t) && Sorted(StoredBefore, t)
    ensures t == Stored(entries)
  {
    StoredOrder();
    OneSortedOrder(EntryKey, StoredBefore, entries, t);
  }

  /** What an import leaves: unique keys, the last source entry for every key it names, the old entry for the others. */
  lemma ImportMeaning(entries: seq<Entry>, source: seq<Entry>, clock: nat -> Time, key: (string, string))
    requires DistinctKeys(EntryKey, entries)
    ensures var all := CleanedAll(source, clock);
            var r := Import(EntryKey, entries, all);
            && DistinctKeys(EntryKey, r)
            && Lookup(EntryKey, r, key)
               == (match LastOf(EntryKey, all, key) case Some(e) => Some(e) case None => Lookup(EntryKey, entries, key))
  {
    ImportKeepsDistinct(EntryKey, entries, CleanedAll(source, clock));
    Override(EntryKey, entries, CleanedAll(source, clock), key);
  }

  /**
   Importing a source that loads again, into the table the file gives back, changes nothing exactly when the file lists
   the source's last entry first under every key. Any sort does that when the target's keys were unique, and a stable
   sort does it always.
   */
  lemma ImportAgain(entries: seq<Entry>, source: seq<Entry>, first: nat -> Time, second: nat -> Time, saved: seq<Entry>)
    requires Loadable(source)
    requires multiset(saved) == multiset(Import(EntryKey, entries, CleanedAll(source, first)))
    ensures var all := CleanedAll(source, first);
            && (Import(EntryKey, saved, CleanedAll(source, second)) == saved <==> Holds(EntryKey, saved, all))
            && (DistinctKeys(EntryKey, entries) ==> Holds(EntryKey, saved, all))
            && (saved == Stored(Import(EntryKey, entries, all)) ==> Holds(EntryKey, saved, all))
  {
    var all := CleanedAll(source, first);
    ClockIgnored(source, first, second);
    ImportFixed(EntryKey, saved, all);
    if DistinctKeys(EntryKey, entries) { HoldsPermuted(EntryKey, entries, all, saved); }
    if saved == Stored(Import(EntryKey, entries, all)) { StoredHolds(entries, all); }
  }

  lemma StoredHolds(entries: seq<Entry>, all: seq<Entry>)
    ensures Holds(EntryKey, Stored(Import(EntryKey, entries, all)), all)
  {
    var r := Import(EntryKey, entries, all);
    ImportHolds(EntryKey, entries, all);
    forall a: Entry, b: Entry ensures EntryKey(a) == EntryKey(b) ==> !StoredBefore(a, b) {
      LessTotal(a.fingerprint, b.fingerprint);
    }
    forall j | 0 <= j < |all|
      ensures Lookup(EntryKey, Stored(r), EntryKey(all[j])) == LastOf(EntryKey, all, EntryKey(all[j]))
    {
      var k := EntryKey(all[j]);
      SortKeepsLookup(EntryKey, StoredBefore, r, k, (e: Entry) => EntryKey(e) == k);
    }
  }

  /** The key under which an entry is stored. */
  function CleanKey(e: Entry): (string, string) {
    (NormalId(e.id), e.fingerprint)
  }

  /** A clock that stands still. */
  function Stopped(now: Time): nat -> Time {
    _ => now
  }

  lemma {:induction false} CleanedOne(source: seq<Entry>, clock: nat -> Time, i: nat)
    requires i < |source|
    ensures CleanedAll(source, clock)[i] == Cleaned(source[i], clock(i))
  {
    if i < |source| - 1 {
      CleanedOne(source[..|source| - 1], clock, i);
    }
  }

  lemma CleanedAt(source: seq<Entry>, clock: nat -> Time)
    ensures forall i | 0 <= i < |source| :: CleanedAll(source, clock)[i] == Cleaned(source[i], clock(i))
  {
    forall i | 0 <= i < |source| ensures CleanedAll(source, clock)[i] == Cleaned(source[i], clock(i)) {
      CleanedOne(source, clock, i);
    }
  }

  lemma LastsKept(source: seq<Entry>, xs: seq<Entry>, j: nat)
    requires |xs| == |source| && j < |source|
    requires forall i | 0 <= i < |source| :: EntryKey(xs[i]) == CleanKey(source[i])
    ensures IsLast(EntryKey, xs, j) <==> IsLast(CleanKey, source, j)
  {
    if IsLast(EntryKey, xs, j) {
      forall i | j < i < |source| ensures CleanKey(source[i]) != CleanKey(source[j]) {
        assert EntryKey(xs[i]) != EntryKey(xs[j]);
      }
    }
  }

  /**
   Entries that never came from a file may lack a creation time. Adding the same entries at two different times then
   gives the same table exactly when the last entry of every key has one.
   */
  lemma ClockShows(entries: seq<Entry>, source: seq<Entry>, now: Time, later: Time)
    requires now != later
    ensures Import(EntryKey, entries, CleanedAll(source, Stopped(now)))
            == Import(EntryKey, entries, CleanedAll(source, Stopped(later)))
            <==> forall j | 0 <= j < |source| && IsLast(CleanKey, source, j) :: source[j].createdAt != ZERO_TIME
  {
    var xs, ys := CleanedAll(source, Stopped(now)), CleanedAll(source, Stopped(later));
    CleanedAt(source, Stopped(now));
    CleanedAt(source, Stopped(later));
    ImportSame(EntryKey, entries, xs, ys);
    if Import(EntryKey, entries, xs) == Import(EntryKey, entries, ys) {
      forall j | 0 <= j < |source| && IsLast(CleanKey, source, j) ensures source[j].createdAt != ZERO_TIME {
        LastsKept(source, xs, j);
        LastsKept(source, ys, j);
        LastOfIs(EntryKey, xs, j);
        LastOfIs(EntryKey, ys, j);
      }
    }
    if forall j | 0 <= j < |source| && IsLast(CleanKey, source, j) :: source[j].createdAt != ZERO_TIME {
      forall j | 0 <= j < |source| ensures LastOf(EntryKey, xs, EntryKey(xs[j])) == LastOf(EntryKey, ys, EntryKey(xs[j])) {
        var l := LastPlace(EntryKey, xs, j);
        LastsKept(source, xs, l);
        LastsKept(source, ys, l);
        LastOfIs(EntryKey, xs, l);
        LastOfIs(EntryKey, ys, l);
      }
    }
  }
}
