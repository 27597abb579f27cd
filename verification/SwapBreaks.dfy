/** What breaking a lock that looks stale costs, and a rollback that leaves part of its copy: the last complete binary. */
module SwapBreaks {
  import opened Text
  import opened SwapRace

  predicate LivingInside(s: State, i: nat) {
    i < |s.updaters| && s.updaters[i].alive && Inside(s.updaters[i].pc)
  }

  /** The updater whose lock the step removes as stale, if it does. */
  function Broken(s: State, a: Action): (h: Option<nat>) {
    if a.Step? && a.id < |s.updaters| && s.updaters[a.id].alive && s.updaters[a.id].pc.Breaking? && a.removed then s.lock
    else None
  }

  /** A lock that is removed as stale was created by an updater that no longer runs inside. */
  predicate BreaksIdle(s: State, a: Action) {
    match Broken(s, a)
    case None => true
    case Some(h) => h < |s.updaters| && !LivingInside(s, h)
  }

  /** ... and that did not crash while it copied the backup over the target. */
  predicate BreaksHarmless(s: State, a: Action) {
    BreaksIdle(s, a) &&
    match Broken(s, a)
    case None => true
    case Some(h) => !s.updaters[h].pc.RollingBack?
  }

  lemma {:induction false} Weaker(ok: (State, Action) -> bool, weak: (State, Action) -> bool, s: State, actions: seq<Action>)
    requires Throughout(ok, s, actions) && forall t, a :: ok(t, a) ==> weak(t, a)
    ensures Throughout(weak, s, actions)
  {
    if actions != [] {
      Weaker(ok, weak, s, actions[..|actions| - 1]);
    }
  }

  // ---------- Breaking the locks of the dead ----------

  /** Whoever runs inside created the lock, and the files are as its position demands. */
  predicate LivingHold(s: State) {
    && (forall i | 0 <= i < |s.updaters| && LivingInside(s, i) :: s.lock == Some(i) && Position(s.files, s.updaters[i]))
    && (forall i | 0 <= i < |s.updaters| :: !Inside(s.updaters[i].pc) && !s.updaters[i].pc.Finished? ==> s.updaters[i].saved.None?)
  }

  lemma LivingWorks(s: State, a: Action)
    requires LivingHold(s) && a.id < |s.updaters| && LivingInside(s, a.id) && a.Step? && !s.updaters[a.id].pc.Leaving?
    ensures var t := Next(s, a);
            && t.lock == s.lock && |t.updaters| == |s.updaters| && Inside(t.updaters[a.id].pc) && Position(t.files, t.updaters[a.id])
            && forall i | 0 <= i < |s.updaters| && i != a.id :: t.updaters[i] == s.updaters[i]
  {
    WorkMoves(s.files, s.updaters[a.id], a.ok, a.kept, a.removed);
  }

  lemma LivingStep(s: State, a: Action)
    requires LivingHold(s) && BreaksIdle(s, a)
    ensures LivingHold(Next(s, a))
  {
    if a.id < |s.updaters| && LivingInside(s, a.id) && a.Step? && !s.updaters[a.id].pc.Leaving? {
      LivingWorks(s, a);
    }
    forall i | 0 <= i < |s.updaters| && LivingInside(Next(s, a), i)
      ensures Next(s, a).lock == Some(i) && Position(Next(s, a).files, Next(s, a).updaters[i])
    {
      if i != a.id { assert LivingInside(s, i); }
    }
  }

  lemma {:induction false} LivingRun(good: set<Bytes>, s: State, actions: seq<Action>)
    requires Initial(good, s) && Throughout(BreaksIdle, s, actions)
    ensures LivingHold(After(s, actions))
  {
    if actions != [] {
      LivingRun(good, s, actions[..|actions| - 1]);
      LivingStep(After(s, actions[..|actions| - 1]), actions[|actions| - 1]);
    }
  }

  /** As long as no lock of an updater that runs inside is broken, at most one runs between lock and unlock. */
  lemma OneLivingInside(good: set<Bytes>, s: State, actions: seq<Action>, i: nat, j: nat)
    requires Initial(good, s) && Throughout(BreaksIdle, s, actions)
    requires LivingInside(After(s, actions), i) && LivingInside(After(s, actions), j)
    ensures i == j
  {
    LivingRun(good, s, actions);
  }

  /** An updater that still runs when it gives up the lock leaves the files as its outcome says. */
  lemma LivingOutcome(good: set<Bytes>, s: State, actions: seq<Action>, id: nat)
    requires Initial(good, s) && Throughout(BreaksIdle, s, actions)
    requires LivingInside(After(s, actions), id) && After(s, actions).updaters[id].pc.Leaving?
    ensures var t := After(s, actions); Result(t.files, t.updaters[id], t.updaters[id].pc.outcome)
  {
    LivingRun(good, s, actions);
    HolderOutcome(After(s, actions), id);
  }

  lemma HolderOutcome(t: State, id: nat)
    requires LivingHold(t) && LivingInside(t, id) && t.updaters[id].pc.Leaving?
    ensures Result(t.files, t.updaters[id], t.updaters[id].pc.outcome)
  {
  }

  // ---------- What stays complete ----------

  /** The files are as the position of the lock's creator demands, whether it still runs or not. */
  predicate HolderHolds(good: set<Bytes>, s: State) {
    && (forall i | 0 <= i < |s.updaters| :: s.updaters[i].binary in good)
    && (match s.lock
        case None => AtRest(good, s.files)
        case Some(h) => h < |s.updaters| && HoldsAt(good, s.files, s.updaters[h]))
  }

  predicate HoldsAt(good: set<Bytes>, f: Files, u: Updater) {
    if Inside(u.pc) then Position(f, u) && Fit(good, f, u) else u.pc.Finished? && AtRest(good, f)
  }

  /** No rollback leaves part of its copy, and only locks are broken whose creators did not crash in a rollback. */
  predicate Harmless(s: State, a: Action) {
    BreaksHarmless(s, a) && NotTorn(s, a)
  }

  lemma HolderWorks(good: set<Bytes>, s: State, a: Action)
    requires HolderHolds(good, s) && NotTorn(s, a) && a.Step? && s.lock == Some(a.id) && s.updaters[a.id].alive
    requires Inside(s.updaters[a.id].pc) && !s.updaters[a.id].pc.Leaving?
    ensures HolderHolds(good, Next(s, a))
  {
    WorkMoves(s.files, s.updaters[a.id], a.ok, a.kept, a.removed);
    WorkFits(good, s.files, s.updaters[a.id], a.ok, a.kept, a.removed);
  }

  lemma HolderStep(good: set<Bytes>, s: State, a: Action)
    requires HolderHolds(good, s) && LivingHold(s) && Harmless(s, a)
    ensures HolderHolds(good, Next(s, a))
  {
    if a.id < |s.updaters| && s.updaters[a.id].alive && a.Step? {
      var u := s.updaters[a.id];
      if Inside(u.pc) {
        assert LivingInside(s, a.id);
        if u.pc.Leaving? { RestsOutsideRollback(good, s.files, u); } else { HolderWorks(good, s, a); }
      } else if u.pc.Breaking? && s.lock.Some? && Inside(s.updaters[s.lock.value].pc) && a.removed {
        RestsOutsideRollback(good, s.files, s.updaters[s.lock.value]);
      }
    }
  }

  lemma {:induction false} HolderRun(good: set<Bytes>, s: State, actions: seq<Action>)
    requires Initial(good, s) && Throughout(Harmless, s, actions)
    ensures HolderHolds(good, After(s, actions)) && LivingHold(After(s, actions))
  {
    if actions != [] {
      HolderRun(good, s, actions[..|actions| - 1]);
      HolderStep(good, After(s, actions[..|actions| - 1]), actions[|actions| - 1]);
      LivingStep(After(s, actions[..|actions| - 1]), actions[|actions| - 1]);
    }
  }

  lemma HolderSurvives(good: set<Bytes>, s: State)
    requires HolderHolds(good, s)
    ensures Survives(good, s.files)
  {
    if s.lock.Some? && Inside(s.updaters[s.lock.value].pc) {
      FitSurvives(good, s.files, s.updaters[s.lock.value]);
    }
  }

  /**
   Wherever updaters fail or crash a complete binary survives, as long as no rollback that fails leaves part of its
   copy, and no lock is broken of an updater that runs inside or that crashed in the middle of a rollback.
   */
  lemma RecoverableAfterBreaks(good: set<Bytes>, s: State, actions: seq<Action>)
    requires Initial(good, s) && Throughout(Harmless, s, actions)
    ensures Survives(good, After(s, actions).files)
  {
    HolderRun(good, s, actions);
    HolderSurvives(good, After(s, actions));
  }

  lemma {:induction false} NeverStaleBreaksNone(good: set<Bytes>, s: State, actions: seq<Action>)
    requires Initial(good, s) && NeverStale(actions)
    ensures Throughout(BreaksHarmless, s, actions) && Throughout(BreaksIdle, s, actions)
    ensures Throughout(NotTorn, s, actions) ==> Throughout(Harmless, s, actions)
  {
    if actions != [] {
      NeverStaleBreaksNone(good, s, actions[..|actions| - 1]);
      RunKeeps(good, s, actions[..|actions| - 1]);
    }
  }

  /** While no lock is found stale only a rollback that leaves part of its copy can cost the last complete binary. */
  lemma AlwaysRecoverable(good: set<Bytes>, s: State, actions: seq<Action>)
    requires Initial(good, s) && NeverStale(actions) && Throughout(NotTorn, s, actions)
    ensures Survives(good, After(s, actions).files)
  {
    NeverStaleBreaksNone(good, s, actions);
    RecoverableAfterBreaks(good, s, actions);
  }

  // ---------- Building runs ----------

  /** The run leads to `t`, and every step on the way is allowed. */
  predicate Reaches(ok: (State, Action) -> bool, s: State, actions: seq<Action>, t: State) {
    After(s, actions) == t && Throughout(ok, s, actions)
  }

  lemma OneMore(ok: (State, Action) -> bool, s: State, actions: seq<Action>, t: State, a: Action) returns (more: seq<Action>)
    requires Reaches(ok, s, actions, t) && ok(t, a)
    ensures more == actions + [a] && Reaches(ok, s, more, Next(t, a))
  {
    more := actions + [a];
    assert more[..|actions|] == actions;
  }

  /** No lock is found stale or broken, and no rollback leaves part of its copy. */
  predicate Smooth(s: State, a: Action) {
    (a.Step? ==> !a.stale) && Broken(s, a).None? && NotTorn(s, a)
  }

  /** The step of an updater that goes well. */
  function Well(id: nat): Action {
    Step(id, true, false, false, true)
  }

  /** As `s`, but for the files, the lock, which `id` has created, and updater `id`. */
  function Held(s: State, id: nat, f: Files, u: Updater): State
    requires id < |s.updaters|
  {
    State(f, Some(id), s.updaters[id := u])
  }

  lemma HeldStep(s: State, id: nat, actions: seq<Action>, f: Files, u: Updater, ok: bool) returns (more: seq<Action>)
    requires id < |s.updaters| && Reaches(Smooth, s, actions, Held(s, id, f, u)) && u.alive && Inside(u.pc) && !u.pc.Leaving?
    ensures var (g, v) := Work(f, u, ok, false, true); Reaches(Smooth, s, more, Held(s, id, g, v))
  {
    more := OneMore(Smooth, s, actions, Held(s, id, f, u), Step(id, ok, false, false, true));
    var (g, v) := Work(f, u, ok, false, true);
    assert s.updaters[id := u][id := v] == s.updaters[id := v];
  }

  lemma {:induction false} BackupDone(s: State, id: nat, actions: seq<Action>, f: Files, u: Updater, n: nat)
    returns (more: seq<Action>)
    requires id < |s.updaters| && u.alive && u.pc == BackingUp(n) && f.target.Some? && n <= |f.target.value|
    requires f.backup == Some(f.target.value[..n]) && Reaches(Smooth, s, actions, Held(s, id, f, u))
    ensures Reaches(Smooth, s, more, Held(s, id, f.(backup := f.target), u.(pc := BackedUp)))
    decreases |f.target.value| - n
  {
    more := HeldStep(s, id, actions, f, u, true);
    if n < |f.target.value| {
      more := BackupDone(s, id, more, f.(backup := Some(f.target.value[..n + 1])), u.(pc := BackingUp(n + 1)), n + 1);
    } else {
      WholePrefix(f.target.value);
    }
  }

  lemma {:induction false} StageDone(s: State, id: nat, actions: seq<Action>, f: Files, u: Updater, n: nat)
    returns (more: seq<Action>)
    requires id < |s.updaters| && u.alive && u.pc == Staging(n) && n <= |u.binary|
    requires f.staged == Some(u.binary[..n]) && Reaches(Smooth, s, actions, Held(s, id, f, u))
    ensures Reaches(Smooth, s, more, Held(s, id, f.(staged := Some(u.binary)), u.(pc := Renaming)))
    decreases |u.binary| - n
  {
    more := HeldStep(s, id, actions, f, u, true);
    if n < |u.binary| {
      more := StageDone(s, id, more, f.(staged := Some(u.binary[..n + 1])), u.(pc := Staging(n + 1)), n + 1);
    } else {
      WholePrefix(u.binary);
    }
  }

  lemma Locked(good: set<Bytes>, s: State, id: nat) returns (actions: seq<Action>)
    requires Initial(good, s) && id < |s.updaters| && s.updaters[id].alive
    ensures Reaches(Smooth, s, actions, Held(s, id, s.files, s.updaters[id].(pc := Entered)))
  {
    actions := OneMore(Smooth, s, [], s, Well(id));
  }

  lemma Backed(good: set<Bytes>, s: State, id: nat) returns (actions: seq<Action>)
    requires Initial(good, s) && id < |s.updaters| && s.updaters[id].alive
    ensures var old_ := s.files.target;
            Reaches(Smooth, s, actions, Held(s, id, s.files.(backup := old_), s.updaters[id].(pc := BackedUp, saved := old_)))
  {
    var f, u := s.files, s.updaters[id].(pc := Entered);
    actions := Locked(good, s, id);
    actions := HeldStep(s, id, actions, f, u, true);
    WholePrefix(f.target.value);
    actions := BackupDone(s, id, actions, f.(backup := Some([])), u.(pc := BackingUp(0), saved := f.target), 0);
  }

  /** Up to the point where the new binary is in place. */
  lemma Renamed(good: set<Bytes>, s: State, id: nat) returns (actions: seq<Action>)
    requires Initial(good, s) && id < |s.updaters| && s.updaters[id].alive
    ensures var old_, u := s.files.target, s.updaters[id];
            Reaches(Smooth, s, actions, Held(s, id, Files(Some(u.binary), old_, None), u.(pc := Syncing, saved := old_)))
  {
    actions := Backed(good, s, id);
    var f, u := s.files.(backup := s.files.target), s.updaters[id].(pc := BackedUp, saved := s.files.target);
    actions := HeldStep(s, id, actions, f, u, true);
    WholePrefix(u.binary);
    actions := StageDone(s, id, actions, f.(staged := Some([])), u.(pc := Staging(0)), 0);
    actions := HeldStep(s, id, actions, f.(staged := Some(u.binary)), u.(pc := Renaming), true);
  }

  /** The directory sync fails, and the rollback has just emptied the target. */
  lemma InRollback(good: set<Bytes>, s: State, id: nat) returns (actions: seq<Action>)
    requires Initial(good, s) && id < |s.updaters| && s.updaters[id].alive
    ensures var old_, u := s.files.target, s.updaters[id];
            Reaches(Smooth, s, actions, Held(s, id, Files(Some([]), old_, None), u.(pc := RollingBack(0), saved := old_)))
  {
    actions := Renamed(good, s, id);
    var old_ := s.files.target;
    var f, u := Files(Some(s.updaters[id].binary), old_, None), s.updaters[id].(pc := Syncing, saved := old_);
    actions := HeldStep(s, id, actions, f, u, false);
    actions := HeldStep(s, id, actions, f, u.(pc := Restoring), true);
  }

  /** Everything goes by the rules but that a lock is found stale, and broken. */
  predicate BreaksOnly(s: State, a: Action) {
    BreaksIdle(s, a) && NotTorn(s, a)
  }

  /** Another updater finds the lock stale, removes it and enters. */
  lemma BrokenInto(s: State, i: nat, j: nat, actions: seq<Action>, f: Files, u: Updater) returns (more: seq<Action>)
    requires i < |s.updaters| && j < |s.updaters| && i != j && s.updaters[j].alive && s.updaters[j].pc == Locking(0)
    requires Reaches(BreaksOnly, s, actions, Held(s, i, f, u)) && !u.alive
    ensures Reaches(BreaksOnly, s, more, State(f, Some(j), s.updaters[i := u][j := s.updaters[j].(pc := Entered)]))
  {
    var t, v := Held(s, i, f, u), s.updaters[j];
    more := OneMore(BreaksOnly, s, actions, t, Well(j));
    t := Put(t, j, v.(pc := Busy(0)));
    more := OneMore(BreaksOnly, s, more, t, Step(j, true, false, true, true));
    t := Put(t, j, v.(pc := Breaking(0)));
    more := OneMore(BreaksOnly, s, more, t, Well(j));
    t := Put(t.(lock := None), j, v.(pc := Locking(1)));
    more := OneMore(BreaksOnly, s, more, t, Well(j));
    assert t.updaters[j := v.(pc := Entered)] == s.updaters[i := u][j := v.(pc := Entered)];
  }

  /**
   The other half: from every start with two running updaters, breaking the lock of one that crashed in its rollback
   can leave neither the target nor the backup with a single byte.
   */
  lemma RollbackBrokenLosesBoth(good: set<Bytes>, s: State, i: nat, j: nat) returns (actions: seq<Action>)
    requires Initial(good, s) && i < |s.updaters| && j < |s.updaters| && i != j
    requires s.updaters[i].alive && s.updaters[j].alive
    ensures Throughout(BreaksIdle, s, actions) && Throughout(NotTorn, s, actions)
    ensures After(s, actions).files.target == Some([]) && After(s, actions).files.backup == Some([])
  {
    actions := InRollback(good, s, i);
    Weaker(Smooth, BreaksOnly, s, actions);
    var f, u := Files(Some([]), s.files.target, None), s.updaters[i].(pc := RollingBack(0), saved := s.files.target);
    actions := OneMore(BreaksOnly, s, actions, Held(s, i, f, u), Crash(i));
    assert s.updaters[i := u][i := u.(alive := false)] == s.updaters[i := u.(alive := false)];
    u := u.(alive := false);
    actions := BrokenInto(s, i, j, actions, f, u);
    var t := State(f, Some(j), s.updaters[i := u][j := s.updaters[j].(pc := Entered)]);
    actions := OneMore(BreaksOnly, s, actions, t, Well(j));
    Weaker(BreaksOnly, BreaksIdle, s, actions);
    Weaker(BreaksOnly, NotTorn, s, actions);
  }

  /** No lock is found stale, and none is broken. */
  predicate NotStale(s: State, a: Action) {
    (a.Step? ==> !a.stale) && Broken(s, a).None?
  }

  lemma {:induction false} NotStaleNever(s: State, actions: seq<Action>)
    requires Throughout(NotStale, s, actions)
    ensures NeverStale(actions)
  {
    if actions != [] {
      NotStaleNever(s, actions[..|actions| - 1]);
    }
  }

  /** A rollback fails at its first byte, the empty target is not removed, and the lock is given up. */
  lemma TornAndLeft(good: set<Bytes>, s: State, id: nat) returns (actions: seq<Action>)
    requires Initial(good, s) && id < |s.updaters| && s.updaters[id].alive && Content(s.files.target) != []
    ensures var old_, u := s.files.target, s.updaters[id];
            Reaches(NotStale, s, actions, State(Files(Some([]), old_, None), None,
              s.updaters[id := u.(pc := Finished(RollbackFailed), saved := old_)]))
  {
    actions := InRollback(good, s, id);
    Weaker(Smooth, NotStale, s, actions);
    var f, u := Files(Some([]), s.files.target, None), s.updaters[id].(pc := RollingBack(0), saved := s.files.target);
    actions := OneMore(NotStale, s, actions, Held(s, id, f, u), Step(id, false, false, false, false));
    var v := u.(pc := Leaving(RollbackFailed));
    PutTwice(s.updaters, id, u, v);
    actions := OneMore(NotStale, s, actions, Held(s, id, f, v), Well(id));
    PutTwice(s.updaters, id, v, u.(pc := Finished(RollbackFailed)));
  }

  lemma PutTwice(us: seq<Updater>, id: nat, u: Updater, v: Updater)
    requires id < |us|
    ensures us[id := u][id := v] == us[id := v]
  {
  }

  /**
   From every start with two running updaters and a binary that is not empty: after a rollback that failed and left
   part of its copy the next updater, which finds no lock, copies that part over the backup.
   */
  lemma TornRollbackLosesBoth(good: set<Bytes>, s: State, i: nat, j: nat) returns (actions: seq<Action>)
    requires Initial(good, s) && i < |s.updaters| && j < |s.updaters| && i != j && Content(s.files.target) != []
    requires s.updaters[i].alive && s.updaters[j].alive
    ensures NeverStale(actions)
    ensures After(s, actions).files.target == Some([]) && After(s, actions).files.backup == Some([])
  {
    actions := TornAndLeft(good, s, i);
    var t := After(s, actions);
    actions := OneMore(NotStale, s, actions, t, Well(j));
    actions := OneMore(NotStale, s, actions, After(s, actions), Well(j));
    NotStaleNever(s, actions);
  }

  /**
   A run that breaks no lock of an updater that runs inside, breaks those of updaters that crashed in a rollback and
   leaves part of a failed rollback's copy only if it may, and ends without a complete binary.
   */
  predicate LosesBoth(good: set<Bytes>, s: State, inRollback: bool, torn: bool, actions: seq<Action>) {
    && Throughout(BreaksIdle, s, actions) && (inRollback || Throughout(BreaksHarmless, s, actions))
    && (torn || Throughout(NotTorn, s, actions)) && !Survives(good, After(s, actions).files)
  }

  lemma {:induction false} BothHarmless(s: State, actions: seq<Action>)
    requires Throughout(BreaksHarmless, s, actions) && Throughout(NotTorn, s, actions)
    ensures Throughout(Harmless, s, actions)
  {
    if actions != [] {
      BothHarmless(s, actions[..|actions| - 1]);
    }
  }

  /**
   With two running updaters a run can end without a complete binary exactly when locks of updaters that crashed in
   their rollback may be broken, or a rollback that fails may leave part of its copy.
   */
  lemma LostIffTornOrBroken(good: set<Bytes>, s: State, i: nat, j: nat, inRollback: bool, torn: bool)
    requires Initial(good, s) && i < |s.updaters| && j < |s.updaters| && i != j && [] !in good
    requires s.updaters[i].alive && s.updaters[j].alive
    ensures (exists actions :: LosesBoth(good, s, inRollback, torn, actions)) <==> inRollback || torn
  {
    if inRollback {
      var actions := RollbackBrokenLosesBoth(good, s, i, j);
      assert LosesBoth(good, s, inRollback, torn, actions);
    } else if torn {
      var actions := TornRollbackLosesBoth(good, s, i, j);
      NeverStaleBreaksNone(good, s, actions);
      assert LosesBoth(good, s, inRollback, torn, actions);
    } else {
      forall actions | Throughout(BreaksHarmless, s, actions) && Throughout(NotTorn, s, actions)
        ensures !LosesBoth(good, s, inRollback, torn, actions)
      {
        BothHarmless(s, actions);
        RecoverableAfterBreaks(good, s, actions);
      }
    }
  }

  /** A run without stale locks that leaves part of a failed rollback's copy only if it may, and loses both binaries. */
  predicate LosesUnbroken(good: set<Bytes>, s: State, torn: bool, actions: seq<Action>) {
    NeverStale(actions) && (torn || Throughout(NotTorn, s, actions)) && !Survives(good, After(s, actions).files)
  }

  /** Where no lock is found stale, exactly the rollbacks that may leave part of their copy are to blame. */
  lemma LostIffTorn(good: set<Bytes>, s: State, i: nat, j: nat, torn: bool)
    requires Initial(good, s) && i < |s.updaters| && j < |s.updaters| && i != j && [] !in good
    requires s.updaters[i].alive && s.updaters[j].alive
    ensures (exists actions :: LosesUnbroken(good, s, torn, actions)) <==> torn
  {
    if torn {
      var actions := TornRollbackLosesBoth(good, s, i, j);
      assert LosesUnbroken(good, s, torn, actions);
    } else {
      forall actions | NeverStale(actions) && Throughout(NotTorn, s, actions) ensures !LosesUnbroken(good, s, torn, actions) {
        AlwaysRecoverable(good, s, actions);
      }
    }
  }

  // ---------- Two running updaters inside ----------

  predicate TwoLivingInside(s: State) {
    exists i, j | 0 <= i < j < |s.updaters| :: LivingInside(s, i) && LivingInside(s, j)
  }

  predicate Anything(s: State, a: Action) {
    true
  }

  /** The lock of a running updater is found stale and broken. */
  lemma LivingBroken(good: set<Bytes>, s: State, i: nat, j: nat) returns (actions: seq<Action>)
    requires Initial(good, s) && i < |s.updaters| && j < |s.updaters| && i != j
    requires s.updaters[i].alive && s.updaters[j].alive
    ensures LivingInside(After(s, actions), i) && LivingInside(After(s, actions), j)
  {
    var t, u := s, s.updaters[j];
    actions := OneMore(Anything, s, [], t, Well(i));
    t := State(s.files, Some(i), s.updaters[i := s.updaters[i].(pc := Entered)]);
    actions := OneMore(Anything, s, actions, t, Well(j));
    t := Put(t, j, u.(pc := Busy(0)));
    actions := OneMore(Anything, s, actions, t, Step(j, true, false, true, true));
    t := Put(t, j, u.(pc := Breaking(0)));
    actions := OneMore(Anything, s, actions, t, Well(j));
    t := Put(t.(lock := None), j, u.(pc := Locking(1)));
    actions := OneMore(Anything, s, actions, t, Well(j));
  }

  /** The run puts two running updaters inside, and finds no lock stale unless it may. */
  predicate PutsTwoInside(s: State, stale: bool, actions: seq<Action>) {
    (stale || NeverStale(actions)) && TwoLivingInside(After(s, actions))
  }

  /** With two running updaters, two can be inside at once exactly when locks may be found stale. */
  lemma TwoInsideIffStale(good: set<Bytes>, s: State, i: nat, j: nat, stale: bool)
    requires Initial(good, s) && i < |s.updaters| && j < |s.updaters| && i != j
    requires s.updaters[i].alive && s.updaters[j].alive
    ensures (exists actions :: PutsTwoInside(s, stale, actions)) <==> stale
  {
    if stale {
      var actions := LivingBroken(good, s, i, j);
      assert PutsTwoInside(s, stale, actions) by {
        var p, q := if i < j then i else j, if i < j then j else i;
        assert LivingInside(After(s, actions), p) && LivingInside(After(s, actions), q);
      }
    } else {
      forall actions | NeverStale(actions) ensures !PutsTwoInside(s, stale, actions) {
        NeverStaleBreaksNone(good, s, actions);
        LivingRun(good, s, actions);
      }
    }
  }

  /** A lock that is found stale was created by an updater that no longer runs inside. */
  predicate FindsIdle(s: State, a: Action) {
    a.Step? && a.stale && s.lock.Some? ==> s.lock.value < |s.updaters| && !LivingInside(s, s.lock.value)
  }

  /** One updater crashes holding the lock; two others find its lock stale. */
  lemma TwoFindStale(good: set<Bytes>, s: State, h: nat, i: nat, j: nat) returns (actions: seq<Action>)
    requires Initial(good, s) && h < |s.updaters| && i < |s.updaters| && j < |s.updaters| && h != i && i != j && h != j
    requires s.updaters[h].alive && s.updaters[i].alive && s.updaters[j].alive
    ensures var t := After(s, actions);
            && Throughout(FindsIdle, s, actions) && t.lock == Some(h)
            && |t.updaters| == |s.updaters| && !t.updaters[h].alive
            && t.updaters[i] == s.updaters[i].(pc := Breaking(0)) && t.updaters[j] == s.updaters[j].(pc := Breaking(0))
  {
    var t, u, v := s, s.updaters[i], s.updaters[j];
    actions := OneMore(FindsIdle, s, [], t, Well(h));
    t := State(s.files, Some(h), s.updaters[h := s.updaters[h].(pc := Entered)]);
    actions := OneMore(FindsIdle, s, actions, t, Crash(h));
    t := Put(t, h, t.updaters[h].(alive := false));
    actions := OneMore(FindsIdle, s, actions, t, Well(i));
    t := Put(t, i, u.(pc := Busy(0)));
    actions := OneMore(FindsIdle, s, actions, t, Well(j));
    t := Put(t, j, v.(pc := Busy(0)));
    actions := OneMore(FindsIdle, s, actions, t, Step(i, true, false, true, true));
    t := Put(t, i, u.(pc := Breaking(0)));
    actions := OneMore(FindsIdle, s, actions, t, Step(j, true, false, true, true));
  }

  /** An updater that found a lock stale removes whatever lock there is, and enters. */
  lemma BreaksIn(s: State, actions: seq<Action>, t: State, i: nat) returns (more: seq<Action>)
    requires Reaches(FindsIdle, s, actions, t)
    requires i < |t.updaters| && t.updaters[i].alive && t.updaters[i].pc == Breaking(0)
    ensures Reaches(FindsIdle, s, more, Put(t.(lock := Some(i)), i, t.updaters[i].(pc := Entered)))
  {
    more := OneMore(FindsIdle, s, actions, t, Well(i));
    var u := t.updaters[i];
    more := OneMore(FindsIdle, s, more, Put(t.(lock := None), i, u.(pc := Locking(1))), Well(i));
    PutTwice(t.updaters, i, u.(pc := Locking(1)), u.(pc := Entered));
  }

  /**
   That no lock found stale belongs to an updater that runs inside is not enough: of two that find a crashed one's
   lock, the second removes the first one's new lock, and both run inside.
   */
  lemma LateBreakAdmitsTwo(good: set<Bytes>, s: State, h: nat, i: nat, j: nat) returns (actions: seq<Action>)
    requires Initial(good, s) && h < |s.updaters| && i < |s.updaters| && j < |s.updaters| && h != i && i != j && h != j
    requires s.updaters[h].alive && s.updaters[i].alive && s.updaters[j].alive
    ensures Throughout(FindsIdle, s, actions)
    ensures LivingInside(After(s, actions), i) && LivingInside(After(s, actions), j)
  {
    actions := TwoFindStale(good, s, h, i, j);
    var t := After(s, actions);
    actions := BreaksIn(s, actions, t, i);
    t := Put(t.(lock := Some(i)), i, t.updaters[i].(pc := Entered));
    actions := BreaksIn(s, actions, t, j);
  }
}
