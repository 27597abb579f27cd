/** Any number of updaters replacing the same binary, step by step, each of which may fail or crash anywhere. */
module SwapRace {
  import opened Text

  type Bytes = seq<bv8>

  datatype Outcome = Updated | Refused | Failed | RollbackFailed

  /** Where an updater stands. A number counts the bytes copied so far, or the attempts at the lock. */
  datatype Pc =
    | Locking(attempt: nat)
    | Busy(attempt: nat)       // the lock file was there; its age is looked at next
    | Breaking(attempt: nat)   // the lock was found stale; it is removed next
    | Entered
    | BackingUp(n: nat)
    | BackedUp
    | Staging(n: nat)
    | Renaming
    | Syncing
    | Restoring
    | RollingBack(n: nat)
    | Leaving(outcome: Outcome)
    | Finished(outcome: Outcome)

  /** An updater: its own new binary, the content it found installed, and whether it still runs. */
  datatype Updater = Updater(pc: Pc, alive: bool, binary: Bytes, saved: Option<Bytes>)

  /** The installed binary, its `.old` copy and the `.new` copy. */
  datatype Files = Files(target: Option<Bytes>, backup: Option<Bytes>, staged: Option<Bytes>)

  /** The files, who created the lock file, and the updaters. */
  datatype State = State(files: Files, lock: Option<nat>, updaters: seq<Updater>)

  /**
   One step of updater `id`. `ok` says whether its system call succeeds, `kept` whether a failed copy leaves its
   complete file behind, as when only closing it fails, `stale` whether a lock looked at is over an hour old, and
   `removed` whether a file that is to be removed goes: a removal that fails is ignored.
   */
  datatype Action = Step(id: nat, ok: bool, kept: bool, stale: bool, removed: bool) | Crash(id: nat)

  function Content(f: Option<Bytes>): Bytes {
    match f case None => [] case Some(b) => b
  }

  /** Between creating the lock and removing it, whether still running or crashed there. */
  predicate Inside(pc: Pc) {
    !pc.Locking? && !pc.Busy? && !pc.Breaking? && !pc.Finished?
  }

  /** What a removal leaves of a file. */
  function Removed(f: Option<Bytes>, removed: bool): Option<Bytes> {
    if removed then None else f
  }

  /** Where an error after staging leads: the staged file goes, and a backup is restored. */
  function Deferred(f: Files, u: Updater, removed: bool): (Files, Updater) {
    (f.(staged := Removed(f.staged, removed)), u.(pc := if u.saved.Some? then Restoring else Leaving(Failed)))
  }

  /** What an updater does to the files between creating the lock and removing it. */
  function Work(f: Files, u: Updater, ok: bool, kept: bool, removed: bool): (Files, Updater) {
    match u.pc
    case Entered =>
      if f.target.None? then (f, u.(pc := BackedUp))
      else if ok then (f.(backup := Some([])), u.(pc := BackingUp(0), saved := f.target))
      else (f, u.(pc := Leaving(Failed)))
    case BackingUp(n) =>
      var source := Content(f.target);
      if n < |source| then
        if ok then (f.(backup := Some(source[..n + 1])), u.(pc := BackingUp(n + 1)))
        else (f.(backup := Removed(f.backup, removed)), u.(pc := Leaving(Failed)))
      else if ok then (f, u.(pc := BackedUp))
      else (if kept then f else f.(backup := Removed(f.backup, removed)), u.(pc := Leaving(Failed)))
    case BackedUp =>
      if ok then (f.(staged := Some([])), u.(pc := Staging(0))) else (f, u.(pc := Leaving(Failed)))
    case Staging(n) =>
      if n < |u.binary| then
        if ok then (f.(staged := Some(u.binary[..n + 1])), u.(pc := Staging(n + 1)))
        else (f.(staged := Removed(f.staged, removed)), u.(pc := Leaving(Failed)))
      else if ok then (f, u.(pc := Renaming))
      else (if kept then f else f.(staged := Removed(f.staged, removed)), u.(pc := Leaving(Failed)))
    case Renaming =>
      if ok && f.staged.Some? then (f.(target := f.staged, staged := None), u.(pc := Syncing)) else Deferred(f, u, removed)
    case Syncing =>
      if ok then (f, u.(pc := Leaving(Updated))) else Deferred(f, u, removed)
    case Restoring =>
      if ok && f.backup.Some? then (f.(target := Some([])), u.(pc := RollingBack(0)))
      else (f, u.(pc := Leaving(RollbackFailed)))
    case RollingBack(n) =>
      var source := Content(f.backup);
      if n < |source| then
        if ok then (f.(target := Some(source[..n + 1])), u.(pc := RollingBack(n + 1)))
        else (f.(target := Removed(f.target, removed)), u.(pc := Leaving(RollbackFailed)))
      else if ok then (f, u.(pc := Leaving(Failed)))
      else (if kept then f else f.(target := Removed(f.target, removed)), u.(pc := Leaving(RollbackFailed)))
    case _ => (f, u)
  }

  function Put(s: State, id: nat, u: Updater): State
    requires id < |s.updaters|
  {
    s.(updaters := s.updaters[id := u])
  }

  function Next(s: State, a: Action): State {
    if a.id >= |s.updaters| || !s.updaters[a.id].alive then s
    else
      var u, id := s.updaters[a.id], a.id;
      if a.Crash? then Put(s, id, u.(alive := false))
      else
        match u.pc
        case Locking(n) =>
          if s.lock.Some? then Put(s, id, u.(pc := Busy(n)))
          else if a.ok then Put(s.(lock := Some(id)), id, u.(pc := Entered))
          else Put(s, id, u.(pc := Finished(Refused)))
        case Busy(n) =>
          Put(s, id, u.(pc := if s.lock.Some? && a.stale then Breaking(n) else Finished(Refused)))
        case Breaking(n) =>
          Put(s.(lock := if a.removed then None else s.lock), id, u.(pc := if n == 0 then Locking(1) else Finished(Refused)))
        case Leaving(o) => Put(s.(lock := if a.removed then None else s.lock), id, u.(pc := Finished(o)))
        case Finished(_) => s
        case _ =>
          var (f, v) := Work(s.files, u, a.ok, a.kept, a.removed);
          Put(s.(files := f), id, v)
  }

  function After(s: State, actions: seq<Action>): State {
    if actions == [] then s else Next(After(s, actions[..|actions| - 1]), actions[|actions| - 1])
  }

  /** A complete binary is installed, nobody holds the lock, and every updater is about to start. */
  predicate Initial(good: set<Bytes>, s: State) {
    && Complete(good, s.files.target) && s.lock.None?
    && forall i | 0 <= i < |s.updaters| ::
         s.updaters[i].pc == Locking(0) && s.updaters[i].saved.None? && s.updaters[i].binary in good
  }

  /** No lock file is ever found older than an hour. */
  predicate NeverStale(actions: seq<Action>) {
    forall k | 0 <= k < |actions| :: actions[k].Step? ==> !actions[k].stale
  }

  /** A rollback fails in the middle of its copy, and the part copied is not removed: it stays as the target. */
  predicate TornRollback(s: State, a: Action) {
    && a.Step? && a.id < |s.updaters| && s.updaters[a.id].alive
    && s.updaters[a.id].pc.RollingBack? && s.updaters[a.id].pc.n < |Content(s.files.backup)| && !a.ok && !a.removed
  }

  predicate NotTorn(s: State, a: Action) {
    !TornRollback(s, a)
  }

  /** Every step of the run is taken in a state in which `ok` allows it. */
  predicate Throughout(ok: (State, Action) -> bool, s: State, actions: seq<Action>) {
    actions == [] ||
    (Throughout(ok, s, actions[..|actions| - 1]) && ok(After(s, actions[..|actions| - 1]), actions[|actions| - 1]))
  }

  // ---------- Where the files are, by where the lock's creator is ----------

  /** The backup is made if there was something to back up, and the installed binary is still what was found. */
  predicate Prepared(f: Files, u: Updater) {
    u.saved == f.target && Saved(f, u)
  }

  predicate Saved(f: Files, u: Updater) {
    u.saved.Some? ==> f.backup == u.saved
  }

  /** What the files hold while updater `u` is inside, by where it stands. */
  predicate Position(f: Files, u: Updater) {
    match u.pc
    case Entered => u.saved.None?
    case BackingUp(n) =>
      u.saved.Some? && u.saved == f.target && n <= |f.target.value| && f.backup == Some(f.target.value[..n])
    case BackedUp => Prepared(f, u)
    case Staging(n) => Prepared(f, u) && n <= |u.binary| && f.staged == Some(u.binary[..n])
    case Renaming => Prepared(f, u) && f.staged == Some(u.binary)
    case Syncing => f.target == Some(u.binary) && Saved(f, u)
    case Restoring => u.saved.Some? && Saved(f, u) && (f.target == u.saved || f.target == Some(u.binary))
    case RollingBack(n) =>
      u.saved.Some? && Saved(f, u) && n <= |u.saved.value| && f.target == Some(u.saved.value[..n])
    case Leaving(o) => Result(f, u, o)
    case _ => false
  }

  /** What an outcome says about the files when the lock is given up. */
  predicate Result(f: Files, u: Updater, o: Outcome) {
    && (o == Updated ==> f.target == Some(u.binary) && (u.saved.Some? ==> f.backup == u.saved))
    && (o == Failed && u.saved.Some? ==> f.target == u.saved)
    && (o == RollbackFailed ==> u.saved.Some? && f.backup == u.saved)
  }

  /** The files are as the updater's new position demands, and it is still the same updater, inside. */
  predicate Moved(u: Updater, g: Files, v: Updater) {
    Position(g, v) && Inside(v.pc) && v.binary == u.binary && v.alive == u.alive
  }

  lemma WholePrefix(b: Bytes)
    ensures b[..|b|] == b && b[..0] == []
  {
  }

  lemma BackupMoves(f: Files, u: Updater, ok: bool, kept: bool, removed: bool)
    requires Position(f, u) && (u.pc.Entered? || u.pc.BackingUp?)
    ensures var (g, v) := Work(f, u, ok, kept, removed); Moved(u, g, v)
  {
    WholePrefix(Content(f.target));
  }

  lemma StageMoves(f: Files, u: Updater, ok: bool, kept: bool, removed: bool)
    requires Position(f, u) && (u.pc.BackedUp? || u.pc.Staging?)
    ensures var (g, v) := Work(f, u, ok, kept, removed); Moved(u, g, v)
  {
    WholePrefix(u.binary);
  }

  lemma RollbackMoves(f: Files, u: Updater, ok: bool, kept: bool, removed: bool)
    requires Position(f, u) && (u.pc.Restoring? || u.pc.RollingBack?)
    ensures var (g, v) := Work(f, u, ok, kept, removed); Moved(u, g, v)
  {
    WholePrefix(Content(f.backup));
  }

  lemma WorkMoves(f: Files, u: Updater, ok: bool, kept: bool, removed: bool)
    requires Position(f, u) && !u.pc.Leaving?
    ensures var (g, v) := Work(f, u, ok, kept, removed); Moved(u, g, v)
  {
    if u.pc.Entered? || u.pc.BackingUp? {
      BackupMoves(f, u, ok, kept, removed);
    } else if u.pc.BackedUp? || u.pc.Staging? {
      StageMoves(f, u, ok, kept, removed);
    } else if u.pc.Restoring? || u.pc.RollingBack? {
      RollbackMoves(f, u, ok, kept, removed);
    }
  }

  // ---------- Which binaries are complete ----------

  /** One of the complete binaries: the one installed first, and the updaters' new ones. */
  predicate Complete(good: set<Bytes>, b: Option<Bytes>) {
    b.Some? && b.value in good
  }

  predicate Survives(good: set<Bytes>, f: Files) {
    Complete(good, f.target) || Complete(good, f.backup)
  }

  /** Fit for the next updater: the installed binary is complete, or it is gone and its backup is complete. */
  predicate AtRest(good: set<Bytes>, f: Files) {
    Complete(good, f.target) || (f.target.None? && Complete(good, f.backup))
  }

  /** From the rename on what was found installed is complete; until then, and in the end, the files are at rest. */
  predicate Fit(good: set<Bytes>, f: Files, u: Updater) {
    if u.pc.Syncing? || u.pc.Restoring? || u.pc.RollingBack? then u.saved.Some? ==> Complete(good, u.saved)
    else AtRest(good, f)
  }

  lemma WorkFits(good: set<Bytes>, f: Files, u: Updater, ok: bool, kept: bool, removed: bool)
    requires Position(f, u) && Fit(good, f, u) && u.binary in good && !u.pc.Leaving?
    requires u.pc.RollingBack? && u.pc.n < |Content(f.backup)| ==> ok || removed
    ensures var (g, v) := Work(f, u, ok, kept, removed); Fit(good, g, v)
  {
    WholePrefix(Content(f.backup));
  }

  lemma FitSurvives(good: set<Bytes>, f: Files, u: Updater)
    requires Position(f, u) && Fit(good, f, u) && u.binary in good
    ensures Survives(good, f)
  {
  }

  /** Only in the middle of a rollback are the files not fit for the next updater. */
  lemma RestsOutsideRollback(good: set<Bytes>, f: Files, u: Updater)
    requires Position(f, u) && Fit(good, f, u) && u.binary in good && !u.pc.RollingBack?
    ensures AtRest(good, f)
  {
  }

  // ---------- While no lock is found stale ----------

  /** Only the lock's creator is inside, and the files are as its position demands. */
  predicate Invariant(s: State) {
    && (forall i | 0 <= i < |s.updaters| :: Inside(s.updaters[i].pc) ==> s.lock == Some(i) && Position(s.files, s.updaters[i]))
    && (forall i | 0 <= i < |s.updaters| :: !s.updaters[i].pc.Breaking?)
    && (forall i | 0 <= i < |s.updaters| :: s.updaters[i].pc.Locking? || s.updaters[i].pc.Busy? ==> s.updaters[i].saved.None?)
  }

  lemma StepKeeps(s: State, a: Action)
    requires Invariant(s) && (a.Step? ==> !a.stale)
    ensures Invariant(Next(s, a))
  {
    if a.id < |s.updaters| && s.updaters[a.id].alive && a.Step? && Inside(s.updaters[a.id].pc) && !s.updaters[a.id].pc.Leaving? {
      WorkMoves(s.files, s.updaters[a.id], a.ok, a.kept, a.removed);
    }
  }

  lemma {:induction false} RunKeeps(good: set<Bytes>, s: State, actions: seq<Action>)
    requires Initial(good, s) && NeverStale(actions)
    ensures Invariant(After(s, actions))
  {
    if actions != [] {
      RunKeeps(good, s, actions[..|actions| - 1]);
      StepKeeps(After(s, actions[..|actions| - 1]), actions[|actions| - 1]);
    }
  }

  /** Whatever the interleaving, the failures and the crashes, at most one updater is between lock and unlock. */
  lemma AtMostOneInside(good: set<Bytes>, s: State, actions: seq<Action>, i: nat, j: nat)
    requires Initial(good, s) && NeverStale(actions)
    requires i < |After(s, actions).updaters| && j < |After(s, actions).updaters|
    requires Inside(After(s, actions).updaters[i].pc) && Inside(After(s, actions).updaters[j].pc)
    ensures i == j
  {
    RunKeeps(good, s, actions);
  }

  /** The files change only by a step of the updater that created the lock. */
  lemma OnlyHolderWrites(good: set<Bytes>, s: State, actions: seq<Action>, a: Action)
    requires Initial(good, s) && NeverStale(actions)
    requires Next(After(s, actions), a).files != After(s, actions).files
    ensures After(s, actions).lock == Some(a.id) && a.Step? && Inside(After(s, actions).updaters[a.id].pc)
  {
    RunKeeps(good, s, actions);
  }

  /**
   When an updater gives up the lock: after an update the target is its new binary and the backup what it found
   installed; after a failure without rollback failure the target is what it found installed; after a rollback
   failure the backup is.
   */
  lemma OutcomesTell(good: set<Bytes>, s: State, actions: seq<Action>, id: nat)
    requires Initial(good, s) && NeverStale(actions)
    requires id < |After(s, actions).updaters| && After(s, actions).updaters[id].pc.Leaving?
    ensures var t := After(s, actions); Result(t.files, t.updaters[id], t.updaters[id].pc.outcome)
  {
    RunKeeps(good, s, actions);
    LeavingTells(After(s, actions), id);
  }

  lemma LeavingTells(t: State, id: nat)
    requires Invariant(t) && id < |t.updaters| && t.updaters[id].pc.Leaving?
    ensures Result(t.files, t.updaters[id], t.updaters[id].pc.outcome)
  {
    assert Inside(t.updaters[id].pc);
  }
}
