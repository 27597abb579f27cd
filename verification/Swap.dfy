/** Replacing the installed binary: backup, stage, rename, and a rollback when something after staging fails. */
module Swap {
  import opened Text
  import opened SwapRace

  /**
   How a file copy goes wrong, if it does; a write may fail after any number of bytes. `removed` says whether the file
   that was written goes when it is to be removed then.
   */
  datatype CopyFault =
    | NoFault | SourceUnreadable | TargetUnopenable
    | WriteFails(after: nat, removed: bool) | SyncFails(removed: bool) | CloseFails

  /** What the environment does to one run of the updater. */
  datatype Faults = Faults(
    symlink: bool, unwritable: bool, lockFails: bool, firstStale: bool, secondStale: bool,
    firstRemoved: bool, secondRemoved: bool,
    backup: CopyFault, stage: CopyFault, renameFails: bool, dirSyncFails: bool, stagedRemoved: bool, rollback: CopyFault,
    lockRemoved: bool)

  datatype Slot = Target | Backup | Staged

  function Get(f: Files, slot: Slot): Option<Bytes> {
    match slot
    case Target => f.target
    case Backup => f.backup
    case Staged => f.staged
  }

  function Set(f: Files, slot: Slot, content: Option<Bytes>): Files {
    match slot
    case Target => f.(target := content)
    case Backup => f.(backup := content)
    case Staged => f.(staged := content)
  }

  /** What a copy of `source` over `before` leaves behind, and whether it reports success. */
  function Copied(source: Option<Bytes>, before: Option<Bytes>, fault: CopyFault): (Option<Bytes>, bool) {
    if source.None? || fault.SourceUnreadable? || fault.TargetUnopenable? then (before, false)
    else if fault.WriteFails? && fault.after < |source.value| then
      (if fault.removed then None else Some(source.value[..fault.after]), false)
    else if fault.SyncFails? then (if fault.removed then None else source, false)
    else (source, !fault.CloseFails?)
  }

  /** The fault shows when a file of `size` bytes is copied: a write fault beyond the end of the file is none. */
  predicate Strikes(fault: CopyFault, size: nat) {
    match fault
    case NoFault => false
    case WriteFails(after, _) => after < size
    case _ => true
  }

  /** The lock is obtained: it is free, or stale and removed at the first attempt, and can be created. */
  predicate ObtainsLock(locked: bool, faults: Faults) {
    !faults.lockFails && (locked ==> faults.firstStale && faults.firstRemoved)
  }

  /** The run gets to the rename: what is installed is backed up, and the new binary is staged. */
  predicate ReachesRename(before: Files, newBinary: Option<Bytes>, faults: Faults) {
    && (before.target.Some? ==> !Strikes(faults.backup, |before.target.value|))
    && newBinary.Some? && !Strikes(faults.stage, |newBinary.value|)
  }

  /** A state passed through while `slot` is being written: only that file differs, and it holds part of the source. */
  predicate Passing(f: Files, start: Files, slot: Slot, source: Option<Bytes>) {
    && f == Set(start, slot, Get(f, slot))
    && (Get(f, slot) == Get(start, slot) || Get(f, slot).None? ||
        (source.Some? && Get(f, slot).value <= source.value))
  }

  /** What a run over files `before` promises about the files it ends with, by its outcome. */
  predicate Promised(before: Files, after: Files, newBinary: Option<Bytes>, outcome: Outcome) {
    && (outcome == Refused ==> after == before)
    && (outcome == Updated ==> newBinary.Some? && after.target == newBinary)
    && (before.target.Some? ==>
          && (outcome == Updated ==> after.backup == before.target)
          && (outcome == Failed ==> after.target == before.target)
          && (outcome == RollbackFailed ==> after.backup == before.target))
  }

  /** A state that a crash may leave behind: the target is one of the two complete binaries, or the backup is the old one. */
  predicate Recoverable(f: Files, before: Files, newBinary: Option<Bytes>) {
    before.target.Some? ==>
      f.target == before.target || (newBinary.Some? && f.target == newBinary) || f.backup == before.target
  }

  class InstallDir {
    var files: Files
    var locked: bool
    /** Every state the files were in, the current one last: the points at which a crash may strike. */
    ghost var seen: seq<Files>

    ghost predicate Valid()
      reads this
    {
      seen != [] && seen[|seen| - 1] == files
    }

    constructor (target: Option<Bytes>, backup: Option<Bytes>, staged: Option<Bytes>, locked: bool)
      ensures Valid() && files == Files(target, backup, staged) && this.locked == locked && seen == [files]
    {
      files := Files(target, backup, staged);
      this.locked := locked;
      seen := [Files(target, backup, staged)];
    }

    method Write(slot: Slot, content: Option<Bytes>)
      modifies this
      ensures Valid() && locked == old(locked)
      ensures files == Set(old(files), slot, content) && seen == old(seen) + [files]
    {
      files := Set(files, slot, content);
      seen := seen + [files];
    }

    method CopyFileSync(source: Option<Bytes>, slot: Slot, fault: CopyFault) returns (ok: bool)
      requires Valid()
      modifies this
      ensures Valid() && locked == old(locked)
      ensures (Get(files, slot), ok) == Copied(source, Get(old(files), slot), fault)
      ensures ok <==> source.Some? && !Strikes(fault, |source.value|)
      ensures files == Set(old(files), slot, Get(files, slot))
      ensures old(seen) <= seen && forall k | |old(seen)| <= k < |seen| :: Passing(seen[k], old(files), slot, source)
    {
      if source.None? || fault.SourceUnreadable? || fault.TargetUnopenable? {
        return false;
      }
      var bytes := source.value;
      Write(slot, Some([]));
      var n := 0;
      while n < |bytes|
        invariant n <= |bytes| && (fault.WriteFails? ==> n <= fault.after || |bytes| <= fault.after)
        invariant Valid() && locked == old(locked)
        invariant files == Set(old(files), slot, Some(bytes[..n]))
        invariant old(seen) <= seen && forall k | |old(seen)| <= k < |seen| :: Passing(seen[k], old(files), slot, source)
      {
        if fault.WriteFails? && fault.after == n {
          if fault.removed {
            Write(slot, None);
          }
          return false;
        }
        Write(slot, Some(bytes[..n + 1]));
        n := n + 1;
      }
      assert bytes[..n] == bytes;
      if fault.SyncFails? {
        if fault.removed {
          Write(slot, None);
        }
        return false;
      }
      return !fault.CloseFails?;
    }

    /**
     Creates the lock file; one that is over an hour old is removed, and the creation tried once more. A stale lock that
     cannot be removed is met again.
     */
    method AcquireLock(faults: Faults) returns (ok: bool)
      modifies this`locked
      ensures ok <==> ObtainsLock(old(locked), faults)
      ensures ok ==> locked
      ensures !ok ==> locked == (old(locked) && !(faults.firstStale && (faults.firstRemoved || (faults.secondStale && faults.secondRemoved))))
    {
      var attempt := 0;
      while attempt < 2
        invariant attempt <= 2
        invariant attempt == 0 ==> locked == old(locked)
        invariant attempt > 0 ==> old(locked) && faults.firstStale && !faults.firstRemoved == (attempt == 2 || locked)
        invariant attempt == 2 ==> faults.secondStale && locked == !faults.secondRemoved
      {
        if !locked {
          if faults.lockFails {
            return false;
          }
          locked := true;
          return true;
        }
        var stale := if attempt == 0 then faults.firstStale else faults.secondStale;
        if stale {
          var removed := if attempt == 0 then faults.firstRemoved else faults.secondRemoved;
          if removed {
            locked := false;
          }
          attempt := attempt + 1;
          continue;
        }
        return false;
      }
      return false;
    }

    /**
     Replaces the target by `newBinary`. With a binary installed: success means the target is the new binary and the
     backup the old one; an error without rollback failure means the target is the old binary; and at every point in
     between, the target or the backup is complete.
     */
    method SwapBinary(newBinary: Option<Bytes>, faults: Faults) returns (outcome: Outcome)
      requires Valid()
      modifies this
      ensures Valid() && old(seen) <= seen
      ensures Promised(old(files), files, newBinary, outcome)
      ensures forall k | |old(seen)| <= k < |seen| :: Recoverable(seen[k], old(files), newBinary)
      ensures outcome != Refused ==> locked == !faults.lockRemoved
      ensures faults.symlink || faults.unwritable ==> locked == old(locked)
      ensures outcome == Refused <==> faults.symlink || faults.unwritable || !ObtainsLock(old(locked), faults)
      ensures outcome == Updated <==>
                && !faults.symlink && !faults.unwritable && ObtainsLock(old(locked), faults)
                && ReachesRename(old(files), newBinary, faults) && !faults.renameFails && !faults.dirSyncFails
      ensures outcome == RollbackFailed <==>
                && !faults.symlink && !faults.unwritable && ObtainsLock(old(locked), faults)
                && ReachesRename(old(files), newBinary, faults) && (faults.renameFails || faults.dirSyncFails)
                && old(files).target.Some? && Strikes(faults.rollback, |old(files).target.value|)
    {
      if faults.symlink || faults.unwritable {
        return Refused;
      }
      var locking := AcquireLock(faults);
      if !locking {
        return Refused;
      }
      outcome := SwapLocked(newBinary, faults);
      if faults.lockRemoved {
        locked := false;
      }
    }

    method SwapLocked(newBinary: Option<Bytes>, faults: Faults) returns (outcome: Outcome)
      requires Valid()
      modifies this
      ensures Valid() && old(seen) <= seen && outcome != Refused && locked == old(locked)
      ensures Promised(old(files), files, newBinary, outcome)
      ensures outcome == Updated <==> ReachesRename(old(files), newBinary, faults) && !faults.renameFails && !faults.dirSyncFails
      ensures outcome == RollbackFailed <==>
                && ReachesRename(old(files), newBinary, faults) && (faults.renameFails || faults.dirSyncFails)
                && old(files).target.Some? && Strikes(faults.rollback, |old(files).target.value|)
      ensures forall k | |old(seen)| <= k < |seen| :: Recoverable(seen[k], old(files), newBinary)
    {
      var backedUp := false;
      if files.target.Some? {
        var copied := CopyFileSync(files.target, Backup, faults.backup);
        if !copied {
          return Failed;
        }
        backedUp := true;
      }
      var staged := CopyFileSync(newBinary, Staged, faults.stage);
      if !staged {
        return Failed;
      }
      if !faults.renameFails {
        files := files.(target := files.staged, staged := None);
        seen := seen + [files];
        if !faults.dirSyncFails {
          return Updated;
        }
      }
      outcome := Rollback(backedUp, faults);
    }

    /** The deferred part, run when an error follows staging. */
    method Rollback(backedUp: bool, faults: Faults) returns (outcome: Outcome)
      requires Valid()
      modifies this
      ensures Valid() && old(seen) <= seen && locked == old(locked) && files.backup == old(files).backup
      ensures outcome == Failed || outcome == RollbackFailed
      ensures outcome == RollbackFailed <==> backedUp && !(files.backup.Some? && !Strikes(faults.rollback, |files.backup.value|))
      ensures backedUp && outcome == Failed ==> files.target == files.backup
      ensures forall k | |old(seen)| <= k < |seen| :: seen[k].backup == files.backup
    {
      if faults.stagedRemoved {
        Write(Staged, None);
      }
      if !backedUp {
        return Failed;
      }
      var restored := CopyFileSync(files.backup, Target, faults.rollback);
      return if restored then Failed else RollbackFailed;
    }
  }

  // ---------- The step-by-step protocol with a single updater ----------

  predicate BackedUpFrom(before: Files, f: Files, u: Updater) {
    u.saved == before.target && (before.target.Some? ==> f.backup == before.target)
  }

  /** Where the files stand while the only updater is at its position, from files `before` on. */
  predicate Progress(before: Files, f: Files, u: Updater) {
    match u.pc
    case Locking(n) => n == 0 && f == before && u.saved.None?
    case Entered => f == before && u.saved.None?
    case BackingUp(n) =>
      u.saved.Some? && u.saved == f.target == before.target && n <= |f.target.value| && f.backup == Some(f.target.value[..n])
    case BackedUp => BackedUpFrom(before, f, u) && f.target == before.target
    case Staging(n) =>
      BackedUpFrom(before, f, u) && f.target == before.target && n <= |u.binary| && f.staged == Some(u.binary[..n])
    case Renaming => BackedUpFrom(before, f, u) && f.target == before.target && f.staged == Some(u.binary)
    case Syncing => BackedUpFrom(before, f, u) && f.target == Some(u.binary)
    case Restoring => BackedUpFrom(before, f, u) && u.saved.Some?
    case RollingBack(n) =>
      BackedUpFrom(before, f, u) && u.saved.Some? && n <= |u.saved.value| && f.target == Some(u.saved.value[..n])
    case Leaving(o) => Promised(before, f, Some(u.binary), o)
    case Finished(o) => Promised(before, f, Some(u.binary), o)
    case _ => false
  }

  predicate Solo(before: Files, binary: Bytes, s: State) {
    && |s.updaters| == 1 && s.updaters[0].binary == binary && Progress(before, s.files, s.updaters[0])
    && (Inside(s.updaters[0].pc) ==> s.lock == Some(0))
    && (s.updaters[0].pc.Locking? ==> s.lock.None?)
  }

  /** `v` is the updater `u` at its next position, still inside, with the files as they should be there. */
  predicate Progressed(before: Files, f: Files, v: Updater, u: Updater) {
    Progress(before, f, v) && Inside(v.pc) && v.binary == u.binary
  }

  lemma BackupProgress(before: Files, f: Files, u: Updater, ok: bool, kept: bool, removed: bool)
    requires Progress(before, f, u) && (u.pc.Entered? || u.pc.BackingUp?)
    ensures var (g, v) := Work(f, u, ok, kept, removed); Progressed(before, g, v, u)
  {
    WholePrefix(Content(f.target));
  }

  lemma StageProgress(before: Files, f: Files, u: Updater, ok: bool, kept: bool, removed: bool)
    requires Progress(before, f, u) && (u.pc.BackedUp? || u.pc.Staging?)
    ensures var (g, v) := Work(f, u, ok, kept, removed); Progressed(before, g, v, u)
  {
    WholePrefix(u.binary);
  }

  lemma RenameProgress(before: Files, f: Files, u: Updater, ok: bool, kept: bool, removed: bool)
    requires Progress(before, f, u) && (u.pc.Renaming? || u.pc.Syncing?)
    ensures var (g, v) := Work(f, u, ok, kept, removed); Progressed(before, g, v, u)
  {
  }

  lemma RollbackProgress(before: Files, f: Files, u: Updater, ok: bool, kept: bool, removed: bool)
    requires Progress(before, f, u) && (u.pc.Restoring? || u.pc.RollingBack?)
    ensures var (g, v) := Work(f, u, ok, kept, removed); Progressed(before, g, v, u)
  {
    WholePrefix(Content(f.backup));
  }

  lemma ProgressRecoverable(before: Files, f: Files, u: Updater)
    requires Progress(before, f, u)
    ensures Recoverable(f, before, Some(u.binary))
  {
  }

  lemma SoloStep(before: Files, binary: Bytes, s: State, a: Action)
    requires Solo(before, binary, s)
    ensures Solo(before, binary, Next(s, a))
  {
    if a.id == 0 && s.updaters[0].alive && a.Step? {
      var u := s.updaters[0];
      if Inside(u.pc) && !u.pc.Leaving? {
        if u.pc.Entered? || u.pc.BackingUp? {
          BackupProgress(before, s.files, u, a.ok, a.kept, a.removed);
        } else if u.pc.BackedUp? || u.pc.Staging? {
          StageProgress(before, s.files, u, a.ok, a.kept, a.removed);
        } else if u.pc.Renaming? || u.pc.Syncing? {
          RenameProgress(before, s.files, u, a.ok, a.kept, a.removed);
        } else {
          RollbackProgress(before, s.files, u, a.ok, a.kept, a.removed);
        }
      }
    }
  }

  /** Every file that is to be removed goes. */
  predicate RemovesAll(actions: seq<Action>) {
    forall k | 0 <= k < |actions| :: actions[k].Step? ==> actions[k].removed
  }

  /** One updater alone, step by step: it keeps at every point, and ends with, what `SwapBinary` promises. */
  lemma {:induction false} SoloKeepsPromise(s: State, actions: seq<Action>)
    requires |s.updaters| == 1 && s.lock.None? && s.updaters[0].pc == Locking(0) && s.updaters[0].saved.None?
    ensures var t, new_ := After(s, actions), Some(s.updaters[0].binary);
            && |t.updaters| == 1 && Recoverable(t.files, s.files, new_)
            && (t.updaters[0].pc.Finished? ==> Promised(s.files, t.files, new_, t.updaters[0].pc.outcome))
            && (t.updaters[0].pc.Finished? && RemovesAll(actions) ==> t.lock.None?)
    ensures Solo(s.files, s.updaters[0].binary, After(s, actions))
  {
    if actions != [] {
      SoloKeepsPromise(s, actions[..|actions| - 1]);
      SoloStep(s.files, s.updaters[0].binary, After(s, actions[..|actions| - 1]), actions[|actions| - 1]);
    }
    ProgressRecoverable(s.files, After(s, actions).files, After(s, actions).updaters[0]);
  }

  /** A step whose system call decides how the run goes on succeeds. */
  predicate Succeeds(s: State, a: Action) {
    a.Step? && a.id < |s.updaters| && s.updaters[a.id].alive ==>
      var pc := s.updaters[a.id].pc;
      a.ok || pc.Leaving? || pc.Finished? || (pc.Entered? && s.files.target.None?)
  }

  /** On the way to an update, or there. */
  predicate GoesWell(pc: Pc) {
    match pc
    case Restoring => false
    case RollingBack(_) => false
    case Leaving(o) => o == Updated
    case Finished(o) => o == Updated
    case _ => true
  }

  lemma WellStep(before: Files, binary: Bytes, s: State, a: Action)
    requires Solo(before, binary, s)
    ensures GoesWell(Next(s, a).updaters[0].pc) <==> GoesWell(s.updaters[0].pc) && Succeeds(s, a)
  {
    if a.id == 0 && a.Step? && Inside(s.updaters[0].pc) && !s.updaters[0].pc.Leaving? {
      WellWork(before, s.files, s.updaters[0], a.ok, a.kept, a.removed);
    }
  }

  lemma WellWork(before: Files, f: Files, u: Updater, ok: bool, kept: bool, removed: bool)
    requires Progress(before, f, u) && Inside(u.pc) && !u.pc.Leaving?
    ensures GoesWell(Work(f, u, ok, kept, removed).1.pc) <==>
            GoesWell(u.pc) && (ok || (u.pc.Entered? && f.target.None?))
  {
  }

  /** One updater alone ends with an update exactly when every system call that decides its way succeeds. */
  lemma {:induction false} SoloUpdates(s: State, actions: seq<Action>)
    requires |s.updaters| == 1 && s.lock.None? && s.updaters[0].pc == Locking(0) && s.updaters[0].saved.None?
    ensures |After(s, actions).updaters| == 1
    ensures GoesWell(After(s, actions).updaters[0].pc) <==> Throughout(Succeeds, s, actions)
    ensures After(s, actions).updaters[0].pc.Finished? ==>
              (After(s, actions).updaters[0].pc.outcome == Updated <==> Throughout(Succeeds, s, actions))
  {
    SoloKeepsPromise(s, actions);
    if actions != [] {
      var front := actions[..|actions| - 1];
      SoloUpdates(s, front);
      SoloKeepsPromise(s, front);
      WellStep(s.files, s.updaters[0].binary, After(s, front), actions[|actions| - 1]);
    }
  }
}
