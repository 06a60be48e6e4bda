/** Group commit: appends that leave syncing to a background task, and the flag that tells
    the task there is something to sync (src/store/wal.rs:73-160, 267-274). Any number of
    threads; taking the file lock, writing under it, syncing, and each access to the flag is
    one step. Bytes are counted over all segments: rotation syncs a segment before leaving it. */
module GroupCommit {

  datatype PC =
    | Idle
    | AppendWait(size: nat)
    | AppendLocked(size: nat)
    | AppendWrote         // unlocked; the flag is not set yet
    | CommitStart
    | CommitWait          // the flag was set and has been cleared
    | CommitLocked
    | FlushWait
    | FlushLocked
    | FlushSynced         // still locked; about to clear the flag
    | RotateWait
    | RotateLocked
    | RotateSynced        // still locked; renames, opens a fresh segment, clears the flag

  datatype State = State(written: nat, synced: nat, dirty: bool, lock: bool, threads: seq<PC>)

  function Start(threads: nat): State {
    State(0, 0, false, false, seq(threads, i => Idle))
  }

  datatype Command = Append(size: nat) | Commit | Flush | Rotate

  /** `ok` is whether a sync made in this step succeeds. */
  datatype Action = Call(t: nat, c: Command) | Step(t: nat, ok: bool)

  predicate HoldsLock(pc: PC) {
    pc.AppendLocked? || pc.CommitLocked? || pc.FlushLocked? || pc.FlushSynced? || pc.RotateLocked? || pc.RotateSynced?
  }

  function At(s: State, t: nat, pc: PC): State
    requires t < |s.threads|
  {
    s.(threads := s.threads[t := pc])
  }

  function Acquire(s: State, t: nat, pc: PC): State
    requires t < |s.threads|
  {
    if s.lock then s else At(s, t, pc).(lock := true)
  }

  /** A failed sync makes the operation return its error, dropping the lock. */
  function Sync(s: State, t: nat, ok: bool, pc: PC): State
    requires t < |s.threads|
  {
    if ok then At(s, t, pc).(synced := s.written) else At(s, t, Idle).(lock := false)
  }

  function Go(s: State, t: nat, ok: bool): State
    requires t < |s.threads|
  {
    match s.threads[t]
    case Idle => s
    case AppendWait(n) => Acquire(s, t, AppendLocked(n))
    case AppendLocked(n) => At(s, t, AppendWrote).(written := s.written + n, lock := false)
    case AppendWrote => At(s, t, Idle).(dirty := true)
    case CommitStart => At(s, t, if s.dirty then CommitWait else Idle).(dirty := false)
    case CommitWait => Acquire(s, t, CommitLocked)
    case CommitLocked => Sync(s, t, ok, Idle).(lock := false)
    case FlushWait => Acquire(s, t, FlushLocked)
    case FlushLocked => Sync(s, t, ok, FlushSynced)
    case FlushSynced => At(s, t, Idle).(dirty := false, lock := false)
    case RotateWait => Acquire(s, t, RotateLocked)
    case RotateLocked => Sync(s, t, ok, RotateSynced)
    case RotateSynced => At(s, t, Idle).(dirty := false, lock := false)
  }

  function Begin(c: Command): PC {
    match c
    case Append(n) => AppendWait(n)
    case Commit => CommitStart
    case Flush => FlushWait
    case Rotate => RotateWait
  }

  function Next(s: State, a: Action): State {
    match a
    case Call(t, c) => if t < |s.threads| && s.threads[t] == Idle then At(s, t, Begin(c)) else s
    case Step(t, ok) => if t < |s.threads| then Go(s, t, ok) else s
  }

  function Run(s: State, schedule: seq<Action>): State {
    if schedule == [] then s else Next(Run(s, schedule[..|schedule| - 1]), schedule[|schedule| - 1])
  }

  /** No sync made by a group commit fails; those of flush and rotate may. */
  predicate CommitSyncsSucceed(threads: nat, schedule: seq<Action>) {
    forall i :: 0 <= i < |schedule| ==> !CommitFails(Run(Start(threads), schedule[..i]), schedule[i])
  }

  predicate CommitFails(s: State, a: Action) {
    a.Step? && a.t < |s.threads| && s.threads[a.t].CommitLocked? && !a.ok
  }

  /** Someone will still see to the unsynced bytes: an append that has yet to set the flag, or
      a commit between clearing the flag and its sync. */
  predicate Pending(pc: PC) {
    pc.AppendWrote? || pc.CommitWait? || pc.CommitLocked?
  }

  ghost predicate SomePending(s: State) {
    exists t :: 0 <= t < |s.threads| && Pending(s.threads[t])
  }

  ghost predicate LockInv(s: State) {
    && s.synced <= s.written
    && (forall t :: 0 <= t < |s.threads| && HoldsLock(s.threads[t]) ==> s.lock)
    && (forall t, u :: 0 <= t < u < |s.threads| ==> !(HoldsLock(s.threads[t]) && HoldsLock(s.threads[u])))
    && (forall t :: 0 <= t < |s.threads| && (s.threads[t].FlushSynced? || s.threads[t].RotateSynced?) ==>
          s.synced == s.written)
  }

  ghost predicate Inv(s: State) {
    LockInv(s) && (s.synced < s.written ==> s.dirty || SomePending(s))
  }

  lemma GoKeepsLockInv(s: State, t: nat, ok: bool)
    requires t < |s.threads| && LockInv(s)
    ensures LockInv(Go(s, t, ok))
  {
    var s' := Go(s, t, ok);
    assert forall u :: 0 <= u < |s.threads| && u != t ==> s'.threads[u] == s.threads[u];
  }

  lemma GoKeepsInv(s: State, t: nat, ok: bool)
    requires t < |s.threads| && Inv(s) && !CommitFails(s, Step(t, ok))
    ensures Inv(Go(s, t, ok))
  {
    hide LockInv;
    var s' := Go(s, t, ok);
    var pc, pc' := s.threads[t], s'.threads[t];
    GoKeepsLockInv(s, t, ok);
    LockFacts(s, t);
    if s'.synced < s'.written && !s'.dirty {
      if Pending(pc') {
        assert SomePending(s');
      } else {
        var u :| 0 <= u < |s.threads| && Pending(s.threads[u]);
        assert s'.threads[u] == s.threads[u];
      }
    }
  }

  lemma LockFacts(s: State, t: nat)
    requires LockInv(s) && t < |s.threads|
    ensures s.synced <= s.written
    ensures s.threads[t].FlushSynced? || s.threads[t].RotateSynced? ==> s.synced == s.written
  {
  }

  /** Another thread than `t` will see to the unsynced bytes. */
  ghost predicate OtherPending(s: State, t: nat) {
    exists u :: 0 <= u < |s.threads| && u != t && Pending(s.threads[u])
  }

  /** The one step that can break this, and exactly when it does: a group commit whose sync fails
      while bytes are unsynced, the flag is clear and no other thread is pending. */
  lemma FailedCommitBreaksInvIff(s: State, t: nat)
    requires t < |s.threads| && Inv(s) && s.threads[t].CommitLocked?
    ensures Inv(Go(s, t, false)) <==> !(s.synced < s.written && !s.dirty && !OtherPending(s, t))
  {
    hide LockInv;
    var s' := Go(s, t, false);
    GoKeepsLockInv(s, t, false);
    if OtherPending(s, t) {
      var u :| 0 <= u < |s.threads| && u != t && Pending(s.threads[u]);
      assert s'.threads[u] == s.threads[u];
    }
    if SomePending(s') {
      var u :| 0 <= u < |s'.threads| && Pending(s'.threads[u]);
      assert u != t && s.threads[u] == s'.threads[u];
    }
  }

  lemma CallKeepsInv(s: State, t: nat, c: Command)
    requires Inv(s)
    ensures Inv(Next(s, Call(t, c)))
  {
    var s' := Next(s, Call(t, c));
    if s'.synced < s'.written && !s'.dirty {
      var u :| 0 <= u < |s.threads| && Pending(s.threads[u]);
      assert s'.threads[u] == s.threads[u];
    }
  }

  /** As long as the syncs of group commits succeed, unsynced bytes are never forgotten: the flag
      is set, or an append has yet to set it, or a commit is between its swap and its sync. */
  lemma {:induction false} UnsyncedIsNeverForgotten(threads: nat, schedule: seq<Action>)
    requires CommitSyncsSucceed(threads, schedule)
    ensures var s := Run(Start(threads), schedule);
            Inv(s) && (s.synced < s.written ==> s.dirty || SomePending(s))
  {
    hide CommitFails;
    if schedule != [] {
      var k := |schedule| - 1;
      var before, a := schedule[..k], schedule[k];
      forall i | 0 <= i < k ensures !CommitFails(Run(Start(threads), before[..i]), before[i]) {
        assert before[..i] == schedule[..i];
      }
      UnsyncedIsNeverForgotten(threads, before);
      var s := Run(Start(threads), before);
      assert !CommitFails(s, a);
      match a {
        case Call(t, c) => CallKeepsInv(s, t, c);
        case Step(t, ok) => if t < |s.threads| { GoKeepsInv(s, t, ok); }
      }
    }
  }

  /** So once everyone is idle, a clear flag means everything written is on disk. */
  lemma CleanMeansDurable(threads: nat, schedule: seq<Action>)
    requires CommitSyncsSucceed(threads, schedule)
    ensures var s := Run(Start(threads), schedule);
            (forall t :: 0 <= t < |s.threads| ==> s.threads[t] == Idle) && !s.dirty ==> s.synced == s.written
  {
    UnsyncedIsNeverForgotten(threads, schedule);
  }

  lemma Extend(s: State, schedule: seq<Action>, a: Action) returns (longer: seq<Action>)
    ensures longer == schedule + [a] && Run(s, longer) == Next(Run(s, schedule), a)
  {
    longer := schedule + [a];
    assert longer[..|schedule|] == schedule;
  }

  lemma Nothing(s: State)
    ensures Run(s, []) == s
  {
  }

  // ---------------------------------------------------------------- progress

  /** The lock is held only by a thread that is about to release it. */
  ghost predicate LockOwned(s: State) {
    s.lock ==> exists t :: 0 <= t < |s.threads| && HoldsLock(s.threads[t])
  }

  lemma GoKeepsOwned(s: State, t: nat, ok: bool)
    requires t < |s.threads| && LockInv(s) && LockOwned(s)
    ensures LockOwned(Go(s, t, ok))
  {
    var s' := Go(s, t, ok);
    if s'.lock {
      if HoldsLock(s'.threads[t]) {
        assert LockOwned(s');
      } else {
        var u :| 0 <= u < |s.threads| && HoldsLock(s.threads[u]);
        assert s'.threads[u] == s.threads[u];
      }
    }
  }

  lemma {:induction false} RunKeepsLocks(threads: nat, schedule: seq<Action>)
    ensures var s := Run(Start(threads), schedule); LockInv(s) && LockOwned(s)
  {
    hide LockInv;
    if schedule == [] {
      StartIsUnlocked(threads);
    } else {
      var before, a := schedule[..|schedule| - 1], schedule[|schedule| - 1];
      RunKeepsLocks(threads, before);
      var s := Run(Start(threads), before);
      match a {
        case Call(t, c) => CallKeepsLocks(s, t, c);
        case Step(t, ok) =>
          if t < |s.threads| {
            GoKeepsLockInv(s, t, ok);
            GoKeepsOwned(s, t, ok);
          }
      }
    }
  }

  lemma StartIsUnlocked(threads: nat)
    ensures LockInv(Start(threads)) && LockOwned(Start(threads))
  {
  }

  lemma CallKeepsLocks(s: State, t: nat, c: Command)
    requires LockInv(s) && LockOwned(s)
    ensures LockInv(Next(s, Call(t, c))) && LockOwned(Next(s, Call(t, c)))
  {
    var s' := Next(s, Call(t, c));
    assert forall u :: 0 <= u < |s.threads| && HoldsLock(s.threads[u]) ==> s'.threads[u] == s.threads[u];
  }

  /** No schedule, failed syncs included, leads to a deadlock: as long as some thread is busy, some
      thread can move. */
  lemma NeverStuck(threads: nat, schedule: seq<Action>, busy: nat, ok: bool) returns (t: nat)
    requires var s := Run(Start(threads), schedule); busy < |s.threads| && s.threads[busy] != Idle
    ensures var s := Run(Start(threads), schedule); t < |s.threads| && Go(s, t, ok) != s
  {
    var s := Run(Start(threads), schedule);
    RunKeepsLocks(threads, schedule);
    if s.lock {
      t :| 0 <= t < |s.threads| && HoldsLock(s.threads[t]);
    } else {
      t := busy;
    }
    MovesOn(s, t, ok);
  }

  lemma MovesOn(s: State, t: nat, ok: bool)
    requires t < |s.threads| && s.threads[t] != Idle && (s.lock ==> HoldsLock(s.threads[t]))
    ensures Go(s, t, ok) != s
  {
    assert Go(s, t, ok).threads[t] != s.threads[t];
  }

  /** What each operation does when nothing is in its way. An append leaves its bytes written and the
      flag set; a commit, if the flag was set, a flush and a rotation leave everything written on disk
      and the flag clear. */
  lemma OperationsAlone(s: State, t: nat, c: Command)
    requires t < |s.threads| && s.threads[t] == Idle && !s.lock
    ensures Run(s, [Call(t, c), Step(t, true), Step(t, true), Step(t, true)]) ==
            match c
            case Append(n) => s.(written := s.written + n, dirty := true)
            case Commit => if s.dirty then s.(synced := s.written, dirty := false) else s
            case Flush => s.(synced := s.written, dirty := false)
            case Rotate => s.(synced := s.written, dirty := false)
  {
    hide Run, Go;
    KeepsThreads();
    FourActions(s, Call(t, c), Step(t, true), Step(t, true), Step(t, true));
    match c {
      case Append(n) => AppendAlone(s, t, n);
      case Commit => CommitAlone(s, t);
      case Flush => FlushAlone(s, t);
      case Rotate => RotateAlone(s, t);
    }
  }

  lemma KeepsThreads()
    ensures forall s: State, t: nat, ok :: t < |s.threads| ==> |Go(s, t, ok).threads| == |s.threads|
  {
  }

  lemma AppendAlone(s: State, t: nat, n: nat)
    requires t < |s.threads| && s.threads[t] == Idle && !s.lock
    ensures Go(Go(Go(At(s, t, AppendWait(n)), t, true), t, true), t, true) ==
            s.(written := s.written + n, dirty := true)
  {
    assert s.threads[t := Idle] == s.threads;
    var s1 := Go(At(s, t, AppendWait(n)), t, true);
    assert s1 == At(s, t, AppendLocked(n)).(lock := true);
    assert Go(s1, t, true) == At(s, t, AppendWrote).(written := s.written + n);
  }

  lemma CommitAlone(s: State, t: nat)
    requires t < |s.threads| && s.threads[t] == Idle && !s.lock
    ensures Go(Go(Go(At(s, t, CommitStart), t, true), t, true), t, true) ==
            if s.dirty then s.(synced := s.written, dirty := false) else s
  {
    assert s.threads[t := Idle] == s.threads;
    var s1 := Go(At(s, t, CommitStart), t, true);
    if s.dirty {
      assert s1 == At(s, t, CommitWait).(dirty := false);
      assert Go(s1, t, true) == At(s, t, CommitLocked).(dirty := false, lock := true);
    } else {
      assert s1 == s;
    }
  }

  lemma FlushAlone(s: State, t: nat)
    requires t < |s.threads| && s.threads[t] == Idle && !s.lock
    ensures Go(Go(Go(At(s, t, FlushWait), t, true), t, true), t, true) == s.(synced := s.written, dirty := false)
  {
    assert s.threads[t := Idle] == s.threads;
    var s1 := Go(At(s, t, FlushWait), t, true);
    assert s1 == At(s, t, FlushLocked).(lock := true);
    assert Go(s1, t, true) == At(s, t, FlushSynced).(lock := true, synced := s.written);
  }

  lemma RotateAlone(s: State, t: nat)
    requires t < |s.threads| && s.threads[t] == Idle && !s.lock
    ensures Go(Go(Go(At(s, t, RotateWait), t, true), t, true), t, true) == s.(synced := s.written, dirty := false)
  {
    assert s.threads[t := Idle] == s.threads;
    var s1 := Go(At(s, t, RotateWait), t, true);
    assert s1 == At(s, t, RotateLocked).(lock := true);
    assert Go(s1, t, true) == At(s, t, RotateSynced).(lock := true, synced := s.written);
  }

  lemma FourActions(s: State, a: Action, b: Action, c: Action, d: Action)
    ensures Run(s, [a, b, c, d]) == Next(Next(Next(Next(s, a), b), c), d)
  {
    hide Run;
    Nothing(s);
    var x := Extend(s, [], a);
    x := Extend(s, x, b);
    x := Extend(s, x, c);
    x := Extend(s, x, d);
    assert x == [a, b, c, d];
  }

  /** A failed sync breaks this: the commit has cleared the flag and does not set it again. */
  lemma FailedCommitForgets() returns (schedule: seq<Action>)
    ensures var s := Run(Start(1), schedule); s.threads == [Idle] && !s.dirty && s.synced < s.written
  {
    hide Run;
    var s := Start(1);
    Nothing(s);
    assert s == State(0, 0, false, false, [Idle]);
    schedule := Extend(s, [], Call(0, Append(1)));
    schedule := Extend(s, schedule, Step(0, true));
    schedule := Extend(s, schedule, Step(0, true));
    schedule := Extend(s, schedule, Step(0, true));
    assert Run(s, schedule) == State(1, 0, true, false, [Idle]);
    schedule := Extend(s, schedule, Call(0, Commit));
    schedule := Extend(s, schedule, Step(0, true));
    schedule := Extend(s, schedule, Step(0, true));
    schedule := Extend(s, schedule, Step(0, false));
    assert Run(s, schedule) == State(1, 0, false, false, [Idle]);
  }
}
