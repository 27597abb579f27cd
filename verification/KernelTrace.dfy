/**
 The kernel-side event collector: tracepoint handlers over two hash maps and a ring buffer, and the calls
 a run of them reports.
 */
module KernelTrace {
  import opened Text

  const MAX_TRACKED := 4096
  const MAX_PENDING := 8192
  const MAX_ARG_LEN := 96
  const AF_INET := 2

  type Pid = p: nat | p < 0x1_0000_0000

  datatype Kind = OpenAt | Execve | Connect | Bind

  /** What user memory holds behind the pointer argument of a call. */
  datatype User = User(isNull: bool, readable: bool, path: string, family: nat, rawPort: bv16, addr: nat)

  /** The arguments captured for a call. */
  datatype Args = Args(arg0: string, family: nat, port: bv16, addr4: nat)

  const NO_ARGS := Args("", 0, 0, 0)

  datatype Event =
    | Call(time: nat, pid: Pid, kind: Kind, ret: int, args: Args)
    | Fork(time: nat, pid: Pid, ppid: Pid)

  function Ntohs(v: bv16): bv16 {
    (v >> 8) | (v << 8)
  }

  function CapturePath(user: User): Args {
    if user.isNull || !user.readable then NO_ARGS
    else NO_ARGS.(arg0 := if |user.path| < MAX_ARG_LEN then user.path else user.path[..MAX_ARG_LEN - 1])
  }

  function CaptureSockaddr(user: User): Args {
    if user.isNull || !user.readable then NO_ARGS
    else if user.family == AF_INET then Args("", user.family, Ntohs(user.rawPort), user.addr)
    else NO_ARGS.(family := user.family)
  }

  function Capture(kind: Kind, user: User): Args {
    if kind.OpenAt? || kind.Execve? then CapturePath(user) else CaptureSockaddr(user)
  }

  // ---------- The maps and the ring buffer ----------

  datatype State = State(tracked: set<Pid>, pending: map<(Pid, Kind), Args>, events: seq<Event>)

  /** What a map update leaves behind: nothing changes when the key is new and the map is full. */
  function Stored(st: State, pid: Pid, kind: Kind, args: Args): State {
    if pid !in st.tracked then st
    else if (pid, kind) in st.pending || |st.pending| < MAX_PENDING then
      st.(pending := st.pending[(pid, kind) := args])
    else st
  }

  function Emitted(st: State, time: nat, pid: Pid, kind: Kind, ret: int, room: bool): State {
    if (pid, kind) !in st.pending then st
    else
      State(st.tracked, st.pending - {(pid, kind)},
            if ret >= 0 || !room then st.events else st.events + [Call(time, pid, kind, ret, st.pending[(pid, kind)])])
  }

  function Forked(st: State, time: nat, parent: Pid, child: Pid, room: bool): State {
    if parent !in st.tracked then st
    else
      State(if child in st.tracked || |st.tracked| < MAX_TRACKED then st.tracked + {child} else st.tracked,
            st.pending,
            if room then st.events + [Fork(time, child, parent)] else st.events)
  }

  class Collector {
    var tracked: set<Pid>
    var pending: map<(Pid, Kind), Args>
    var events: seq<Event>

    ghost function View(): State
      reads this
    {
      State(tracked, pending, events)
    }

    /** User space seeds the map with the root process before the programs run. */
    constructor (root: Pid)
      ensures View() == State({root}, map[], [])
    {
      tracked, pending, events := {root}, map[], [];
    }

    method StorePathPending(pid: Pid, kind: Kind, user: User)
      requires kind.OpenAt? || kind.Execve?
      modifies this
      ensures View() == Stored(old(View()), pid, kind, Capture(kind, user))
    {
      if pid !in tracked {
        return;
      }
      var value := NO_ARGS;
      if !user.isNull && user.readable {
        value := value.(arg0 := if |user.path| < MAX_ARG_LEN then user.path else user.path[..MAX_ARG_LEN - 1]);
      }
      UpdatePending(pid, kind, value);
    }

    method StoreSockaddrPending(pid: Pid, kind: Kind, user: User)
      requires kind.Connect? || kind.Bind?
      modifies this
      ensures View() == Stored(old(View()), pid, kind, Capture(kind, user))
    {
      if pid !in tracked {
        return;
      }
      var value := NO_ARGS;
      if !user.isNull && user.readable {
        value := value.(family := user.family);
        if user.family == AF_INET {
          value := value.(port := Ntohs(user.rawPort), addr4 := user.addr);
        }
      }
      UpdatePending(pid, kind, value);
    }

    method UpdatePending(pid: Pid, kind: Kind, value: Args)
      requires pid in tracked
      modifies this
      ensures View() == Stored(old(View()), pid, kind, value)
    {
      if (pid, kind) in pending || |pending| < MAX_PENDING {
        pending := pending[(pid, kind) := value];
      }
    }

    method EmitPending(time: nat, pid: Pid, kind: Kind, ret: int, room: bool)
      modifies this
      ensures View() == Emitted(old(View()), time, pid, kind, ret, room)
    {
      if (pid, kind) !in pending {
        return;
      }
      if ret >= 0 {
        pending := pending - {(pid, kind)};
        return;
      }
      if !room {
        pending := pending - {(pid, kind)};
        return;
      }
      events := events + [Call(time, pid, kind, ret, pending[(pid, kind)])];
      pending := pending - {(pid, kind)};
    }

    method SchedProcessFork(time: nat, parent: Pid, child: Pid, room: bool)
      modifies this
      ensures View() == Forked(old(View()), time, parent, child, room)
    {
      if parent !in tracked {
        return;
      }
      if child in tracked || |tracked| < MAX_TRACKED {
        tracked := tracked + {child};
      }
      if !room {
        return;
      }
      events := events + [Fork(time, child, parent)];
    }
  }

  // ---------- Runs ----------

  /** What happens in the kernel, in order. `room` says whether the ring buffer has space. */
  datatype Action =
    | Enter(pid: Pid, tid: nat, kind: Kind, user: User)
    | Exit(time: nat, pid: Pid, tid: nat, kind: Kind, ret: int, room: bool)
    | Spawn(time: nat, parent: Pid, child: Pid, room: bool)

  function Step(st: State, a: Action): State {
    match a
    case Enter(pid, tid, kind, user) => Stored(st, pid, kind, Capture(kind, user))
    case Exit(time, pid, tid, kind, ret, room) => Emitted(st, time, pid, kind, ret, room)
    case Spawn(time, parent, child, room) => Forked(st, time, parent, child, room)
  }

  function Init(run: seq<Action>): seq<Action>
    requires run != []
  {
    run[..|run| - 1]
  }

  function Last(run: seq<Action>): Action
    requires run != []
  {
    run[|run| - 1]
  }

  /** The state after a run that starts with `root` seeded. */
  function After(root: Pid, run: seq<Action>): State {
    if run == [] then State({root}, map[], []) else Step(After(root, Init(run)), Last(run))
  }

  // ---------- What should be reported ----------

  /** The process was reached from the root by forks, each by a process already reached. */
  predicate Descendant(root: Pid, run: seq<Action>, pid: Pid) {
    pid == root ||
    (run != [] &&
     (Descendant(root, Init(run), pid) ||
      (Last(run).Spawn? && Last(run).child == pid && Descendant(root, Init(run), Last(run).parent))))
  }

  /** Where the thread entered the call of this kind it is still in. */
  function EntryOf(run: seq<Action>, pid: Pid, tid: nat, kind: Kind): (j: Option<nat>)
    ensures j.Some? ==> j.value < |run| && run[j.value].Enter? && run[j.value].pid == pid &&
                        run[j.value].tid == tid && run[j.value].kind == kind
  {
    if run == [] then None
    else
      var a := Last(run);
      if a.Enter? && a.pid == pid && a.tid == tid && a.kind == kind then Some(|run| - 1)
      else if a.Exit? && a.pid == pid && a.tid == tid && a.kind == kind then None
      else EntryOf(Init(run), pid, tid, kind)
  }

  /** The report one action calls for, after the run before it. */
  function Due(root: Pid, before: seq<Action>, a: Action): seq<Event> {
    match a
    case Enter(_, _, _, _) => []
    case Exit(time, pid, tid, kind, ret, _) =>
      var j := EntryOf(before, pid, tid, kind);
      if ret < 0 && j.Some? && Descendant(root, before, pid)
      then [Call(time, pid, kind, ret, Capture(kind, before[j.value].user))]
      else []
    case Spawn(time, parent, child, _) =>
      if Descendant(root, before, parent) then [Fork(time, child, parent)] else []
  }

  /** In order of completion: the failing calls of descendants of the root, and their forks. */
  function Report(root: Pid, run: seq<Action>): seq<Event> {
    if run == [] then [] else Report(root, Init(run)) + Due(root, Init(run), Last(run))
  }

  // ---------- Assumptions on a run ----------

  /** No other thread of the process is inside a call of this kind. */
  ghost predicate OnlyThread(run: seq<Action>, pid: Pid, tid: nat, kind: Kind) {
    forall t: nat | t != tid :: EntryOf(run, pid, t, kind).None?
  }

  predicate Acts(a: Action, pid: Pid) {
    if a.Spawn? then a.parent == pid else a.pid == pid
  }

  /** Process ids are not reused, and nothing overflows. */
  predicate Roomy(root: Pid, run: seq<Action>) {
    run != [] ==>
      var before, a := Init(run), Last(run);
      && Roomy(root, before)
      && |After(root, before).tracked| < MAX_TRACKED && |After(root, before).pending| < MAX_PENDING
      && (a.Exit? ==> a.room)
      && (a.Spawn? ==> a.room && forall i | 0 <= i < |before| :: !Acts(before[i], a.child))
  }

  /** At most one call of a kind is in flight per process. */
  ghost predicate OneAtATime(run: seq<Action>) {
    run != [] ==> OneAtATime(Init(run)) && (Last(run).Spawn? || OnlyThread(Init(run), Last(run).pid, Last(run).tid, Last(run).kind))
  }

  ghost predicate Orderly(root: Pid, run: seq<Action>) {
    Roomy(root, run) && OneAtATime(run)
  }

  // ---------- The collector reports what it should ----------

  /** The thread whose call of this kind is in flight, as the actions alone tell. */
  function Owner(run: seq<Action>, pid: Pid, kind: Kind): Option<nat> {
    if run == [] then None
    else
      var a := Last(run);
      if a.Enter? && a.pid == pid && a.kind == kind then Some(a.tid)
      else if a.Exit? && a.pid == pid && a.kind == kind then None
      else Owner(Init(run), pid, kind)
  }

  /** A thread that ends a call is the one whose call is in flight, or no call is. */
  predicate Own(before: seq<Action>, pid: Pid, tid: nat, kind: Kind) {
    Owner(before, pid, kind) == if EntryOf(before, pid, tid, kind).Some? then Some(tid) else None
  }

  /** ... whenever a process to be reported ends one. */
  predicate OwnExits(root: Pid, run: seq<Action>) {
    run != [] ==> OwnExits(root, Init(run)) && OwnExit(root, Init(run), Last(run))
  }

  predicate OwnExit(root: Pid, before: seq<Action>, a: Action) {
    a.Exit? && Descendant(root, before, a.pid) ==> Own(before, a.pid, a.tid, a.kind)
  }

  lemma {:induction false} OwnerHasEntry(run: seq<Action>, pid: Pid, kind: Kind)
    requires Owner(run, pid, kind).Some?
    ensures EntryOf(run, pid, Owner(run, pid, kind).value, kind).Some?
  {
    if Owner(Init(run), pid, kind).Some? {
      OwnerHasEntry(Init(run), pid, kind);
    }
  }

  lemma {:induction false} OwnerEntered(run: seq<Action>, pid: Pid, tid: nat, kind: Kind)
    requires OneAtATime(run)
    ensures EntryOf(run, pid, tid, kind).Some? <==> Owner(run, pid, kind) == Some(tid)
  {
    if run != [] {
      OwnerEntered(Init(run), pid, tid, kind);
    }
  }

  /** A process with a call in flight has acted. */
  lemma {:induction false} OwnerActed(run: seq<Action>, pid: Pid, kind: Kind)
    requires Owner(run, pid, kind).Some?
    ensures exists i | 0 <= i < |run| :: Acts(run[i], pid)
  {
    var a := Last(run);
    if a.Enter? && a.pid == pid && a.kind == kind {
      assert Acts(run[|run| - 1], pid);
    } else {
      OwnerActed(Init(run), pid, kind);
      var i :| 0 <= i < |Init(run)| && Acts(Init(run)[i], pid);
      assert Acts(run[i], pid);
    }
  }

  ghost predicate TrackedExactly(root: Pid, run: seq<Action>) {
    forall pid: Pid :: pid in After(root, run).tracked <==> Descendant(root, run, pid)
  }

  lemma {:induction false} Tracked(root: Pid, run: seq<Action>)
    requires Roomy(root, run)
    ensures TrackedExactly(root, run)
  {
    if run != [] {
      Tracked(root, Init(run));
    }
  }

  /** One key of the pending map, after a run. */
  ghost predicate PendingAt(root: Pid, run: seq<Action>, pid: Pid, kind: Kind) {
    var st, o := After(root, run), Owner(run, pid, kind);
    && ((pid, kind) in st.pending <==> o.Some? && pid in st.tracked)
    && ((pid, kind) in st.pending && EntryOf(run, pid, o.value, kind).Some? ==>
          st.pending[(pid, kind)] == Capture(kind, run[EntryOf(run, pid, o.value, kind).value].user))
  }

  lemma PendingSpawn(root: Pid, run: seq<Action>, pid: Pid, kind: Kind)
    requires run != [] && Last(run).Spawn? && Roomy(root, run) && PendingAt(root, Init(run), pid, kind)
    ensures PendingAt(root, run, pid, kind)
  {
    if Last(run).child == pid && Owner(Init(run), pid, kind).Some? {
      OwnerActed(Init(run), pid, kind);
    }
  }

  /** The pending map holds one entry per call in flight of a tracked process, with the arguments of the latest one. */
  lemma {:induction false} Pending(root: Pid, run: seq<Action>, pid: Pid, kind: Kind)
    requires Roomy(root, run)
    ensures PendingAt(root, run, pid, kind)
  {
    if run != [] {
      Pending(root, Init(run), pid, kind);
      if Last(run).Spawn? { PendingSpawn(root, run, pid, kind); }
    }
  }

  /** What the end of a call adds to the ring buffer: the arguments of the entry that is in the map. */
  function Added(root: Pid, before: seq<Action>, a: Action): seq<Event>
    requires a.Exit?
  {
    var o := Owner(before, a.pid, a.kind);
    if a.ret < 0 && o.Some? && Descendant(root, before, a.pid) && EntryOf(before, a.pid, o.value, a.kind).Some?
    then [Call(a.time, a.pid, a.kind, a.ret, Capture(a.kind, before[EntryOf(before, a.pid, o.value, a.kind).value].user))]
    else []
  }

  lemma ExitAdds(root: Pid, run: seq<Action>)
    requires run != [] && Roomy(root, run) && Last(run).Exit?
    ensures After(root, run).events == After(root, Init(run)).events + Added(root, Init(run), Last(run))
  {
    var before, a := Init(run), Last(run);
    Tracked(root, before);
    Pending(root, before, a.pid, a.kind);
    if Owner(before, a.pid, a.kind).Some? {
      OwnerHasEntry(before, a.pid, a.kind);
    }
  }

  /** What the other handlers add is what is due. */
  lemma OthersAdd(root: Pid, run: seq<Action>)
    requires run != [] && Roomy(root, run) && !Last(run).Exit?
    ensures After(root, run).events == After(root, Init(run)).events + Due(root, Init(run), Last(run))
  {
    Tracked(root, Init(run));
  }

  lemma {:induction false} OwnReports(root: Pid, run: seq<Action>)
    requires Roomy(root, run) && OwnExits(root, run)
    ensures After(root, run).events == Report(root, run)
  {
    if run != [] {
      OwnReports(root, Init(run));
      if Last(run).Exit? { ExitAdds(root, run); } else { OthersAdd(root, run); }
    }
  }

  lemma {:induction false} OneAtATimeOwn(root: Pid, run: seq<Action>)
    requires OneAtATime(run)
    ensures OwnExits(root, run)
  {
    if run != [] {
      OneAtATimeOwn(root, Init(run));
      var before, a := Init(run), Last(run);
      if a.Exit? {
        OwnerEntered(before, a.pid, a.tid, a.kind);
        if Owner(before, a.pid, a.kind).Some? {
          OwnerEntered(before, a.pid, Owner(before, a.pid, a.kind).value, a.kind);
        }
      }
    }
  }

  /**
   On every orderly run the ring buffer holds exactly the report: the failing calls of the root's descendants in
   order of completion, each with the arguments of its own entry, and the descendants' forks.
   */
  lemma ReportsExactly(root: Pid, run: seq<Action>)
    requires Orderly(root, run)
    ensures After(root, run).events == Report(root, run)
  {
    OneAtATimeOwn(root, run);
    OwnReports(root, run);
  }

  /** On any run at all, pending keys belong to tracked processes. */
  lemma {:induction false} PendingTracked(root: Pid, run: seq<Action>)
    ensures forall key | key in After(root, run).pending :: key.0 in After(root, run).tracked
  {
    if run != [] {
      PendingTracked(root, Init(run));
    }
  }

  // ---------- Descendants, without the order of events ----------

  predicate ForkEdge(run: seq<Action>, parent: Pid, child: Pid) {
    exists i | 0 <= i < |run| :: run[i].Spawn? && run[i].parent == parent && run[i].child == child
  }

  /** A chain of forks from the root, in whatever order they happened. */
  predicate Chain(root: Pid, run: seq<Action>, path: seq<Pid>) {
    path != [] && path[0] == root && forall k | 0 <= k < |path| - 1 :: ForkEdge(run, path[k], path[k + 1])
  }

  lemma {:induction false} DescendantChain(root: Pid, run: seq<Action>, pid: Pid) returns (path: seq<Pid>)
    requires Descendant(root, run, pid)
    ensures Chain(root, run, path) && path[|path| - 1] == pid
  {
    if pid == root {
      path := [root];
    } else {
      var earlier := Descendant(root, Init(run), pid);
      path := DescendantChain(root, Init(run), if earlier then pid else Last(run).parent);
      forall k | 0 <= k < |path| - 1 ensures ForkEdge(run, path[k], path[k + 1]) {
      }
      if !earlier {
        assert ForkEdge(run, Last(run).parent, pid) by { assert run[|run| - 1].Spawn?; }
        path := path + [pid];
      }
    }
  }

  /** A process that acts was reached before it acted, if it is ever reached. */
  lemma {:induction false} ReachedBeforeActing(root: Pid, run: seq<Action>, pid: Pid, i: nat)
    requires Roomy(root, run) && i < |run| && Acts(run[i], pid) && Descendant(root, run, pid)
    ensures Descendant(root, run[..i], pid)
  {
    if i < |run| - 1 {
      assert Init(run)[i] == run[i] && run[..i] == Init(run)[..i];
      ReachedBeforeActing(root, Init(run), pid, i);
    } else {
      assert Init(run) == run[..i];
    }
  }

  lemma {:induction false} StaysDescendant(root: Pid, run: seq<Action>, pid: Pid, i: nat)
    requires i <= |run| && Descendant(root, run[..i], pid)
    ensures Descendant(root, run, pid)
  {
    if i < |run| {
      assert Init(run)[..i] == run[..i];
      StaysDescendant(root, Init(run), pid, i);
    } else {
      assert run[..i] == run;
    }
  }

  lemma {:induction false} ChainDescends(root: Pid, run: seq<Action>, path: seq<Pid>)
    requires Roomy(root, run) && Chain(root, run, path)
    ensures Descendant(root, run, path[|path| - 1])
    decreases |path|
  {
    if |path| > 1 {
      var parent, child := path[|path| - 2], path[|path| - 1];
      ChainDescends(root, run, path[..|path| - 1]);
      assert ForkEdge(run, parent, child);
      var i :| 0 <= i < |run| && run[i].Spawn? && run[i].parent == parent && run[i].child == child;
      ReachedBeforeActing(root, run, parent, i);
      assert Init(run[..i + 1]) == run[..i];
      StaysDescendant(root, run, child, i + 1);
    }
  }

  /** When process ids are not reused the processes whose calls are reported are those a chain of forks leads to from the root. */
  lemma DescendantsAreForkTree(root: Pid, run: seq<Action>, pid: Pid)
    requires Roomy(root, run)
    ensures Descendant(root, run, pid) <==> exists path :: Chain(root, run, path) && path[|path| - 1] == pid
  {
    if Descendant(root, run, pid) {
      var path := DescendantChain(root, run, pid);
    }
    if path :| Chain(root, run, path) && path[|path| - 1] == pid {
      ChainDescends(root, run, path);
    }
  }
}
