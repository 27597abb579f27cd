/** What the reported calls show of the memory their processes passed, and which calls are reported. */
module KernelCapture {
  import opened Text
  import opened KernelTrace

  // ---------- Arguments ----------

  /** On a little-endian machine a port whose bytes are `first` and `second` in memory is read in network order. */
  lemma PortRead(first: bv16, second: bv16)
    requires first < 256 && second < 256
    ensures Ntohs(second * 256 + first) as nat == 256 * (first as nat) + second as nat
  {
    assert Ntohs(second * 256 + first) == first * 256 + second;
    TwoBytes(first, second);
  }

  lemma TwoBytes(high: bv16, low: bv16)
    requires high < 256 && low < 256
    ensures (high * 256 + low) as nat == 256 * (high as nat) + low as nat
  {
  }

  lemma Swapped(v: bv16)
    ensures Ntohs(v) == 256 * (v % 256) + v / 256
  {
  }

  /** A path as far as the field holds it, with its terminating zero. */
  predicate FirstOf(arg: string, path: string) {
    arg <= path && |arg| == if |path| <= 95 then |path| else 95
  }

  /**
   The arguments shown for a call: nothing of memory that cannot be read, the first 95 characters of a path, and of an
   address its family, and for the Internet family, which is 2, address and port, whose first byte is the high one.
   */
  predicate Shows(args: Args, kind: Kind, user: User) {
    if user.isNull || !user.readable then args == Args("", 0, 0, 0)
    else if kind.OpenAt? || kind.Execve? then FirstOf(args.arg0, user.path) && args == Args(args.arg0, 0, 0, 0)
    else if user.family != 2 then args == Args("", user.family, 0, 0)
    else args == Args("", 2, 256 * (user.rawPort % 256) + user.rawPort / 256, user.addr)
  }

  lemma Captured(args: Args, kind: Kind, user: User)
    ensures args == Capture(kind, user) <==> Shows(args, kind, user)
  {
    Swapped(user.rawPort);
    if FirstOf(args.arg0, user.path) {
      assert args.arg0 == user.path[..|args.arg0|];
    }
    if |user.path| <= 95 { assert user.path[..|user.path|] == user.path; }
  }

  // ---------- Calls ----------

  predicate Same(a: Action, pid: Pid, tid: nat, kind: Kind) {
    !a.Spawn? && a.pid == pid && a.tid == tid && a.kind == kind
  }

  /** The call a thread ends at `j` is the one it entered at `i`. */
  predicate CallOf(run: seq<Action>, i: nat, j: nat, pid: Pid, tid: nat, kind: Kind) {
    && i < j <= |run| && run[i].Enter? && Same(run[i], pid, tid, kind)
    && forall k | i < k < j :: !Same(run[k], pid, tid, kind)
  }

  lemma {:induction false} EntryIs(run: seq<Action>, i: nat, pid: Pid, tid: nat, kind: Kind)
    ensures EntryOf(run, pid, tid, kind) == Some(i) <==> CallOf(run, i, |run|, pid, tid, kind)
  {
    if run != [] {
      var n := |run| - 1;
      EntryIs(Init(run), i, pid, tid, kind);
      assert forall k | 0 <= k < n :: Init(run)[k] == run[k];
      if i < n { assert CallOf(Init(run), i, n, pid, tid, kind) <==> CallOf(run, i, n, pid, tid, kind); }
    }
  }

  /** The event tells of a call that failed, of a process reached from the root by then, with what it passed at its entry. */
  predicate Tells(e: Event, root: Pid, run: seq<Action>, i: nat, j: nat) {
    && i < j < |run| && run[i].Enter? && run[j].Exit? && run[j].ret < 0
    && e.Call? && (e.time, e.pid, e.kind, e.ret) == (run[j].time, run[j].pid, run[j].kind, run[j].ret)
    && CallOf(run, i, j, run[j].pid, run[j].tid, run[j].kind) && Descendant(root, run[..j], run[j].pid)
    && Shows(e.args, e.kind, run[i].user)
  }

  predicate DueAt(root: Pid, run: seq<Action>, e: Event, j: nat) {
    j < |run| && e in Due(root, run[..j], run[j])
  }

  lemma DueEarlier(root: Pid, run: seq<Action>, e: Event, j: nat)
    requires j < |run| - 1
    ensures DueAt(root, Init(run), e, j) <==> DueAt(root, run, e, j)
  {
    assert Init(run)[..j] == run[..j] && Init(run)[j] == run[j];
  }

  lemma {:induction false} ReportedAt(root: Pid, run: seq<Action>, e: Event)
    ensures e in Report(root, run) <==> exists j: nat :: DueAt(root, run, e, j)
  {
    if run != [] {
      ReportedAt(root, Init(run), e);
      if j: nat :| DueAt(root, Init(run), e, j) {
        DueEarlier(root, run, e, j);
      }
      if e in Due(root, Init(run), Last(run)) {
        assert DueAt(root, run, e, |run| - 1);
      }
      if j: nat :| DueAt(root, run, e, j) {
        if j < |run| - 1 { DueEarlier(root, run, e, j); }
      }
    }
  }

  lemma DueTells(root: Pid, run: seq<Action>, j: nat, e: Event)
    requires j < |run| && e.Call?
    ensures e in Due(root, run[..j], run[j]) <==> exists i: nat :: Tells(e, root, run, i, j)
  {
    var before, a := run[..j], run[j];
    if a.Exit? {
      forall i: nat ensures EntryOf(before, a.pid, a.tid, a.kind) == Some(i) <==> CallOf(run, i, j, a.pid, a.tid, a.kind) {
        EntryIs(before, i, a.pid, a.tid, a.kind);
        assert forall k | 0 <= k < j :: before[k] == run[k];
      }
      var entry := EntryOf(before, a.pid, a.tid, a.kind);
      if entry.Some? { Captured(e.args, a.kind, run[entry.value].user); }
      if e in Due(root, before, a) {
        assert Tells(e, root, run, entry.value, j);
      }
    }
  }

  /** On every orderly run the calls in the ring buffer are those that failed, each with what it passed at its own entry. */
  lemma FailedCalls(root: Pid, run: seq<Action>, e: Event)
    requires Orderly(root, run) && e.Call?
    ensures e in After(root, run).events <==> exists i: nat, j: nat :: Tells(e, root, run, i, j)
  {
    ReportsExactly(root, run);
    ReportedAt(root, run, e);
    if j: nat :| DueAt(root, run, e, j) {
      DueTells(root, run, j, e);
    }
    if i: nat, j: nat :| Tells(e, root, run, i, j) {
      DueTells(root, run, j, e);
      assert DueAt(root, run, e, j);
    }
  }

  /** ... and the forks in it are those of processes reached from the root by then. */
  lemma Forks(root: Pid, run: seq<Action>, e: Event)
    requires Orderly(root, run) && e.Fork?
    ensures e in After(root, run).events <==>
            exists j | 0 <= j < |run| ::
              run[j].Spawn? && Descendant(root, run[..j], run[j].parent) && e == Fork(run[j].time, run[j].child, run[j].parent)
  {
    ReportsExactly(root, run);
    ReportedAt(root, run, e);
    forall j | 0 <= j < |run|
      ensures DueAt(root, run, e, j) <==>
              run[j].Spawn? && Descendant(root, run[..j], run[j].parent) && e == Fork(run[j].time, run[j].child, run[j].parent)
    {
    }
  }
}
