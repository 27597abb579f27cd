/** When a collector with one entry per process and kind of call reports what it should: exactly which calls may overlap. */
module KernelOverlap {
  import opened Text
  import opened KernelTrace

  // ---------- Overlapping calls ----------

  predicate Of(a: Action, pid: Pid, kind: Kind) {
    !a.Spawn? && a.pid == pid && a.kind == kind
  }

  /** The latest call of the kind that the process began or ended was begun at `i`. */
  predicate LatestEntry(run: seq<Action>, pid: Pid, kind: Kind, i: int) {
    && 0 <= i < |run| && run[i].Enter? && Of(run[i], pid, kind)
    && forall k | i < k < |run| :: !Of(run[k], pid, kind)
  }

  /**
   The call that the thread ends next overlaps with another thread's: since the thread entered it, the process began
   or ended a call of the kind. For an end without a beginning: the latest call of the kind has begun and not ended.
   */
  predicate Overlapped(run: seq<Action>, pid: Pid, tid: nat, kind: Kind) {
    match EntryOf(run, pid, tid, kind)
    case Some(j) => exists i | j < i < |run| :: Of(run[i], pid, kind)
    case None => exists i | 0 <= i < |run| :: LatestEntry(run, pid, kind, i)
  }

  /** No process to be reported ends a call that overlaps with another of the kind. */
  predicate NoOverlap(root: Pid, run: seq<Action>) {
    forall k | 0 <= k < |run| && run[k].Exit? && Descendant(root, run[..k], run[k].pid) ::
      !Overlapped(run[..k], run[k].pid, run[k].tid, run[k].kind)
  }

  lemma {:induction false} OwnerLatest(run: seq<Action>, pid: Pid, kind: Kind) returns (i: int)
    ensures Owner(run, pid, kind).Some? ==>
              LatestEntry(run, pid, kind, i) && run[i].tid == Owner(run, pid, kind).value
    ensures Owner(run, pid, kind).None? ==> forall n: int :: !LatestEntry(run, pid, kind, n)
  {
    if run == [] {
      i := 0;
    } else if Of(Last(run), pid, kind) {
      i := |run| - 1;
    } else {
      i := OwnerLatest(Init(run), pid, kind);
      if Owner(run, pid, kind).None? {
        forall n: int ensures !LatestEntry(run, pid, kind, n) {
          if LatestEntry(run, pid, kind, n) { assert LatestEntry(Init(run), pid, kind, n); }
        }
      }
    }
  }

  lemma {:induction false} EntryLatest(run: seq<Action>, pid: Pid, tid: nat, kind: Kind, i: int)
    requires LatestEntry(run, pid, kind, i) && run[i].tid == tid
    ensures EntryOf(run, pid, tid, kind) == Some(i)
  {
    if i < |run| - 1 {
      assert !Of(Last(run), pid, kind);
      EntryLatest(Init(run), pid, tid, kind, i);
    }
  }

  /** A thread's entry is the latest action of its kind, or another thread's action follows it. */
  lemma OwnIsApart(run: seq<Action>, pid: Pid, tid: nat, kind: Kind)
    ensures Own(run, pid, tid, kind) <==> !Overlapped(run, pid, tid, kind)
  {
    var e := EntryOf(run, pid, tid, kind);
    var i := OwnerLatest(run, pid, kind);
    if Owner(run, pid, kind) == Some(tid) {
      EntryLatest(run, pid, tid, kind, i);
    } else if e.Some? && !Overlapped(run, pid, tid, kind) {
      assert LatestEntry(run, pid, kind, e.value);
    }
  }

  lemma {:induction false} OwnExitsApart(root: Pid, run: seq<Action>)
    ensures OwnExits(root, run) <==> NoOverlap(root, run)
  {
    if run != [] {
      var before, a := Init(run), Last(run);
      OwnExitsApart(root, before);
      if a.Exit? { OwnIsApart(before, a.pid, a.tid, a.kind); }
      assert forall k | 0 <= k < |before| :: run[k] == before[k] && run[..k] == before[..k];
      assert run[..|before|] == before && run[|before|] == a;
    }
  }

  // ---------- The same schedule with other arguments and results ----------

  /** The same happens, but for what user memory holds and what the calls return. */
  predicate SameAction(a: Action, b: Action) {
    match a
    case Enter(pid, tid, kind, _) => b.Enter? && b.pid == pid && b.tid == tid && b.kind == kind
    case Exit(time, pid, tid, kind, _, room) =>
      b.Exit? && b.time == time && b.pid == pid && b.tid == tid && b.kind == kind && b.room == room
    case Spawn(_, _, _, _) => b == a
  }

  predicate Same(run: seq<Action>, other: seq<Action>) {
    |run| == |other| && forall k | 0 <= k < |run| :: SameAction(run[k], other[k])
  }

  lemma SameInit(run: seq<Action>, other: seq<Action>)
    requires Same(run, other) && run != []
    ensures other != [] && Same(Init(run), Init(other)) && SameAction(Last(run), Last(other))
  {
  }

  lemma {:induction false} SameEntry(run: seq<Action>, other: seq<Action>, pid: Pid, tid: nat, kind: Kind)
    requires Same(run, other)
    ensures EntryOf(run, pid, tid, kind) == EntryOf(other, pid, tid, kind)
  {
    if run != [] {
      SameInit(run, other);
      SameEntry(Init(run), Init(other), pid, tid, kind);
    }
  }

  lemma {:induction false} SameOwner(run: seq<Action>, other: seq<Action>, pid: Pid, kind: Kind)
    requires Same(run, other)
    ensures Owner(run, pid, kind) == Owner(other, pid, kind)
  {
    if run != [] {
      SameInit(run, other);
      SameOwner(Init(run), Init(other), pid, kind);
    }
  }

  lemma {:induction false} SameDescendant(root: Pid, run: seq<Action>, other: seq<Action>, pid: Pid)
    requires Same(run, other)
    ensures Descendant(root, run, pid) == Descendant(root, other, pid)
  {
    if run != [] {
      SameInit(run, other);
      SameDescendant(root, Init(run), Init(other), pid);
      if Last(run).Spawn? { SameDescendant(root, Init(run), Init(other), Last(run).parent); }
    }
  }

  lemma {:induction false} SameKeys(root: Pid, run: seq<Action>, other: seq<Action>)
    requires Same(run, other)
    ensures After(root, run).tracked == After(root, other).tracked
    ensures After(root, run).pending.Keys == After(root, other).pending.Keys
  {
    if run != [] {
      SameInit(run, other);
      SameKeys(root, Init(run), Init(other));
    }
  }

  lemma {:induction false} SameRoomy(root: Pid, run: seq<Action>, other: seq<Action>)
    requires Same(run, other) && Roomy(root, run)
    ensures Roomy(root, other)
  {
    if run != [] {
      SameInit(run, other);
      SameRoomy(root, Init(run), Init(other));
      SameKeys(root, Init(run), Init(other));
      SameSize(After(root, Init(run)).pending, After(root, Init(other)).pending);
      if Last(run).Spawn? {
        forall i | 0 <= i < |Init(other)| ensures !Acts(Init(other)[i], Last(other).child) {
          assert !Acts(Init(run)[i], Last(run).child) && SameAction(Init(run)[i], Init(other)[i]);
        }
      }
    }
  }

  lemma SameSize<K, V, W>(a: map<K, V>, b: map<K, W>)
    requires a.Keys == b.Keys
    ensures |a| == |b|
  {
    assert |a| == |a.Keys| && |b| == |b.Keys|;
  }

  lemma {:induction false} SameOwnExits(root: Pid, run: seq<Action>, other: seq<Action>)
    requires Same(run, other) && OwnExits(root, run)
    ensures OwnExits(root, other)
  {
    if run != [] {
      SameInit(run, other);
      SameOwnExits(root, Init(run), Init(other));
      var a := Last(run);
      if a.Exit? {
        SameDescendant(root, Init(run), Init(other), a.pid);
        SameOwner(Init(run), Init(other), a.pid, a.kind);
        SameEntry(Init(run), Init(other), a.pid, a.tid, a.kind);
      }
    }
  }

  // ---------- Telling arguments apart ----------

  /** User memory behind which something stands, or nothing. */
  function Memory(there: bool): User {
    User(!there, there, "/", 1, 0, 0)
  }

  lemma MemoryTells(kind: Kind)
    ensures Capture(kind, Memory(true)) != Capture(kind, Memory(false))
  {
    assert |"/"| < MAX_ARG_LEN;
    if kind.OpenAt? || kind.Execve? {
      assert Capture(kind, Memory(true)).arg0 == "/" && Capture(kind, Memory(false)).arg0 == "";
    } else {
      assert Capture(kind, Memory(true)).family == 1 && Capture(kind, Memory(false)).family == 0;
    }
  }

  /** The same run, with something in user memory only for the call entered at `j`. */
  function Marked(run: seq<Action>, j: int): (other: seq<Action>)
    ensures Same(run, other)
    ensures forall k | 0 <= k < |run| && run[k].Enter? :: other[k].user == Memory(k == j)
  {
    seq(|run|, k requires 0 <= k < |run| => if run[k].Enter? then run[k].(user := Memory(k == j)) else run[k])
  }

  /** The same action, with the given result if it ends a call. */
  function Returning(a: Action, ret: int): (b: Action)
    ensures SameAction(a, b) && (a.Exit? ==> b.ret == ret)
  {
    if a.Exit? then a.(ret := ret) else a
  }

  lemma Longer(root: Pid, run: seq<Action>, before: seq<Action>, a: Action, b: Action) returns (other: seq<Action>)
    requires run != [] && Same(Init(run), before) && a == Last(run) && SameAction(a, b) && Roomy(root, run)
    ensures other == before + [b] && Init(other) == before && Last(other) == b && Same(run, other) && Roomy(root, other)
  {
    other := before + [b];
    assert Init(other) == before;
    forall k | 0 <= k < |run| ensures SameAction(run[k], other[k]) {
      if k < |before| { assert run[k] == Init(run)[k]; }
    }
    SameRoomy(root, run, other);
  }

  /** Nothing is added for a call that succeeds, and nothing is due. */
  lemma StaysWrong(root: Pid, run: seq<Action>)
    requires run != [] && Roomy(root, run) && (Last(run).Exit? ==> Last(run).ret >= 0)
    requires After(root, Init(run)).events != Report(root, Init(run))
    ensures After(root, run).events != Report(root, run)
  {
    if Last(run).Exit? { ExitAdds(root, run); } else { OthersAdd(root, run); }
    var added := Due(root, Init(run), Last(run));
    SameTail(After(root, Init(run)).events, Report(root, Init(run)), added);
  }

  lemma SameTail(a: seq<Event>, b: seq<Event>, c: seq<Event>)
    requires a != b
    ensures a + c != b + c
  {
    assert (a + c)[..|a|] == a && (b + c)[..|b|] == b;
  }

  /** With the arguments told apart, a failing end of an overlapping call adds something else than what is due. */
  lemma AddsOther(root: Pid, before: seq<Action>, a: Action)
    requires a.Exit? && a.ret < 0 && Descendant(root, before, a.pid) && !Own(before, a.pid, a.tid, a.kind)
    requires var e := EntryOf(before, a.pid, a.tid, a.kind);
             forall k | 0 <= k < |before| && before[k].Enter? :: before[k].user == Memory(e.Some? && k == e.value)
    ensures Added(root, before, a) != Due(root, before, a)
  {
    var e, o := EntryOf(before, a.pid, a.tid, a.kind), Owner(before, a.pid, a.kind);
    if o.Some? {
      OwnerHasEntry(before, a.pid, a.kind);
      MemoryTells(a.kind);
    }
  }

  lemma EndsWrong(root: Pid, run: seq<Action>, before: seq<Action>, a: Action)
    requires run != [] && Roomy(root, run) && Init(run) == before && Last(run) == a && a.Exit?
    requires Added(root, before, a) != Due(root, before, a) && After(root, before).events == Report(root, before)
    ensures After(root, run).events != Report(root, run)
  {
    ExitAdds(root, run);
    var r := Report(root, before);
    assert (r + Added(root, before, a))[|r|..] == Added(root, before, a) && (r + Due(root, before, a))[|r|..] == Due(root, before, a);
  }

  /** Where calls overlap, there are arguments and results for which the ring buffer is not the report. */
  lemma {:induction false} Misreports(root: Pid, run: seq<Action>) returns (other: seq<Action>)
    requires Roomy(root, run) && !OwnExits(root, run)
    ensures Same(run, other) && After(root, other).events != Report(root, other)
  {
    var before, a := Init(run), Last(run);
    var earlier;
    if !OwnExits(root, before) {
      earlier := Misreports(root, before);
    } else {
      var e := EntryOf(before, a.pid, a.tid, a.kind);
      earlier := Marked(before, if e.Some? then e.value else -1);
    }
    if After(root, earlier).events != Report(root, earlier) {
      other := Longer(root, run, earlier, a, Returning(a, 0));
      StaysWrong(root, other);
    } else {
      other := Longer(root, run, earlier, a, Returning(a, -1));
      SameDescendant(root, before, earlier, a.pid);
      SameOwner(before, earlier, a.pid, a.kind);
      SameEntry(before, earlier, a.pid, a.tid, a.kind);
      MarkedEntries(before, earlier, a);
      AddsOther(root, earlier, Last(other));
      EndsWrong(root, other, earlier, Last(other));
    }
  }

  lemma MarkedEntries(before: seq<Action>, other: seq<Action>, a: Action)
    requires a.Exit? && Same(before, other)
    requires other == Marked(before, var e := EntryOf(before, a.pid, a.tid, a.kind); if e.Some? then e.value else -1)
    ensures var e := EntryOf(other, a.pid, a.tid, a.kind);
            forall k | 0 <= k < |other| && other[k].Enter? :: other[k].user == Memory(e.Some? && k == e.value)
  {
    SameEntry(before, other, a.pid, a.tid, a.kind);
    forall k | 0 <= k < |other| && other[k].Enter? ensures before[k].Enter? {
      assert SameAction(before[k], other[k]);
    }
  }

  /** Whatever user memory holds and the calls return, the ring buffer holds the report. */
  ghost predicate AlwaysReports(root: Pid, run: seq<Action>) {
    forall other | Same(run, other) :: After(root, other).events == Report(root, other)
  }

  /**
   Where nothing overflows and process ids are not reused, a schedule is reported correctly, whatever user memory
   holds and the calls return, exactly when no process to be reported ends a call that overlaps with another.
   */
  lemma ReportsIffApart(root: Pid, run: seq<Action>)
    requires Roomy(root, run)
    ensures AlwaysReports(root, run) <==> NoOverlap(root, run)
  {
    OwnExitsApart(root, run);
    if OwnExits(root, run) {
      forall other | Same(run, other) ensures After(root, other).events == Report(root, other) {
        SameRoomy(root, run, other);
        SameOwnExits(root, run, other);
        OwnReports(root, other);
      }
    } else {
      var other := Misreports(root, run);
    }
  }

  /**
   How it goes wrong: of two threads inside the same kind of call the first to fail is reported with the other's
   arguments, and the second not at all.
   */
  lemma SharedEntry(root: Pid, a: User, b: User, ret: int)
    requires ret < 0
    ensures var run := [Enter(root, 1, OpenAt, a), Enter(root, 2, OpenAt, b),
                        Exit(1, root, 1, OpenAt, ret, true), Exit(2, root, 2, OpenAt, ret, true)];
            && After(root, run).events == [Call(1, root, OpenAt, ret, CapturePath(b))]
            && Report(root, run) == [Call(1, root, OpenAt, ret, CapturePath(a)), Call(2, root, OpenAt, ret, CapturePath(b))]
  {
    var e1, e2 := Enter(root, 1, OpenAt, a), Enter(root, 2, OpenAt, b);
    var x1, x2 := Exit(1, root, 1, OpenAt, ret, true), Exit(2, root, 2, OpenAt, ret, true);
    var run := [e1, e2, x1, x2];
    assert Init(run) == [e1, e2, x1] && Init([e1, e2, x1]) == [e1, e2] && Init([e1, e2]) == [e1] && Init([e1]) == [];
    assert After(root, []) == State({root}, map[], []);
    assert After(root, [e1]) == State({root}, map[(root, OpenAt) := CapturePath(a)], []);
    assert After(root, [e1, e2]).pending == map[(root, OpenAt) := CapturePath(b)];
    assert Report(root, []) == [] && Report(root, [e1]) == [] && Report(root, [e1, e2]) == [];
    assert EntryOf([e1], root, 1, OpenAt) == Some(0);
    assert EntryOf([e1, e2], root, 1, OpenAt) == Some(0);
    assert EntryOf([e1, e2], root, 2, OpenAt) == Some(1);
    assert EntryOf([e1, e2, x1], root, 2, OpenAt) == Some(1);
  }
}
