/** The onboarding code of one agent, on the lock file and the marker: every execution is a run of the protocol. */
module OnboardingCode {
  import opened Results
  import opened Onboarding

  datatype IoError = IoError

  /** Whether each file operation of one loop turn succeeds. */
  datatype Io = Io(create: bool, write: bool, stat: bool, recheck: bool, unlink: bool)

  /** What a loop turn leaves on disk, and the outcome if it was the last. */
  datatype Ending = Ending(outcome: Option<Outcome>, lockMtime: Option<int>, done: bool)

  /** One loop turn of an agent that nobody disturbs. */
  function OneTurn(done: bool, lockMtime: Option<int>, now: int, leadOk: bool, io: Io): Ending {
    if done then Ending(Some(Reused), lockMtime, true)
    else if !io.create then Ending(Some(LockError), lockMtime, false)
    else if lockMtime.None? then
      if leadOk then Ending(Some(Led), Some(now), io.write)
      else Ending(Some(LeadFailed), if io.unlink then None else Some(now), false)
    else if !io.stat || now - lockMtime.value <= LOCK_STALE_SECS then Ending(Some(Reused), lockMtime, false)
    else Ending(None, if io.recheck && io.unlink then None else lockMtime, false)
  }

  /** How its loop ends, from turn `turn` on. */
  function Alone(done: bool, lockMtime: Option<int>, now: int, leadOk: bool, io: nat -> Io, turn: nat): Ending
    requires turn <= MAX_ATTEMPTS
    decreases MAX_ATTEMPTS - turn
  {
    if turn == MAX_ATTEMPTS then Ending(Some(Reused), lockMtime, done)
    else
      var t := OneTurn(done, lockMtime, now, leadOk, io(turn));
      if t.outcome.Some? then t else Alone(t.done, t.lockMtime, now, leadOk, io, turn + 1)
  }

  /** Turn `turn` of an undisturbed agent wins: no lock was there, or the turn before took a stale one away. */
  ghost predicate WinsAt(lockMtime: Option<int>, now: int, io: nat -> Io, turn: nat) {
    && turn < MAX_ATTEMPTS && io(turn).create
    && (if lockMtime.None? then turn == 0
        else
          && now - lockMtime.value > LOCK_STALE_SECS && turn > 0
          && io(turn - 1).recheck && io(turn - 1).unlink
          && (forall k: nat :: k < turn ==> io(k).create && io(k).stat)
          && (forall k: nat :: k < turn - 1 ==> !(io(k).recheck && io(k).unlink)))
  }

  /**
   * An undisturbed agent leads exactly when some turn wins; only then can the marker appear, and then only if the
   * lead succeeds; a lock that is not stale is never touched.
   */
  lemma AloneLeadsIff(done: bool, lockMtime: Option<int>, now: int, leadOk: bool, io: nat -> Io)
    ensures var end := Alone(done, lockMtime, now, leadOk, io, 0);
            && (end.outcome in {Some(Led), Some(LeadFailed)} <==>
                    !done && exists turn: nat :: WinsAt(lockMtime, now, io, turn))
            && (end.outcome == Some(Led) ==> leadOk) && (end.outcome == Some(LeadFailed) ==> !leadOk)
            && (end.done != done ==> end.outcome == Some(Led))
            && (lockMtime.Some? && now - lockMtime.value <= LOCK_STALE_SECS ==> end.lockMtime == lockMtime)
  {
    hide WinsAt;
    if !done {
      AloneTurns(lockMtime, now, leadOk, io);
      if !exists turn: nat :: turn < 3 && WinsAt(lockMtime, now, io, turn) {
        forall turn: nat ensures !WinsAt(lockMtime, now, io, turn) {
          NoLateWin(lockMtime, now, io, turn);
        }
      }
    }
  }

  lemma NoLateWin(lockMtime: Option<int>, now: int, io: nat -> Io, turn: nat)
    ensures turn >= 3 ==> !WinsAt(lockMtime, now, io, turn)
  {
  }

  lemma AloneTurns(lockMtime: Option<int>, now: int, leadOk: bool, io: nat -> Io)
    ensures var end := Alone(false, lockMtime, now, leadOk, io, 0);
            && (end.outcome in {Some(Led), Some(LeadFailed)} <==>
                    exists turn: nat :: turn < 3 && WinsAt(lockMtime, now, io, turn))
            && (end.outcome == Some(Led) ==> leadOk) && (end.outcome == Some(LeadFailed) ==> !leadOk)
            && (end.done ==> end.outcome == Some(Led))
            && (lockMtime.Some? && now - lockMtime.value <= LOCK_STALE_SECS ==> end.lockMtime == lockMtime)
  {
    var end := Alone(false, lockMtime, now, leadOk, io, 0);
    var wins := end.outcome in {Some(Led), Some(LeadFailed)};
    var cleared := (k: nat) => io(k).recheck && io(k).unlink;
    if lockMtime.None? {
      assert wins <==> WinsAt(lockMtime, now, io, 0);
    } else if now - lockMtime.value > LOCK_STALE_SECS && io(0).create && io(0).stat {
      var lock1 := if cleared(0) then None else lockMtime;
      assert end == Alone(false, lock1, now, leadOk, io, 1);
      if cleared(0) {
        assert wins <==> WinsAt(lockMtime, now, io, 1);
      } else if io(1).create && io(1).stat {
        assert end == Alone(false, if cleared(1) then None else lockMtime, now, leadOk, io, 2);
        if cleared(1) {
          assert wins <==> WinsAt(lockMtime, now, io, 2);
        } else {
          assert !wins;
        }
      }
    }
  }

  /** What the steps of a losing agent do. */
  lemma LoserDoes(s: State, p: Pid, io: bool)
    requires p in s.procs
    ensures s.procs[p].Inspecting? ==>
              var left := s.procs[p].left;
              Do(s, Inspect(p, io)) == Some(Move(s, p, if io && IsStale(s)
                                                       then Rechecking(left, s.lock.value.gen, s.lock.value.mtime)
                                                       else Waiting))
    ensures s.procs[p].Waiting? ==> Do(s, GiveUpWaiting(p)) == Some(Move(s, p, Finished(Reused)))
    ensures s.procs[p].Rechecking? ==>
              var f := s.procs[p];
              Do(s, Recheck(p, io)) == Some(Move(s, p, if io && s.lock.Some? && s.lock.value.mtime == f.mtime
                                                       then Unlinking(f.left, f.gen) else CheckingDone(f.left)))
    ensures s.procs[p].Unlinking? && s.lock.Some? ==>
              var after := if io then Unlink(s).(takeovers := s.takeovers + 1) else s;
              Do(s, RemoveStale(p, io)) == Some(Move(after, p, CheckingDone(s.procs[p].left)))
  {
  }

  /**
   * The onboarding directory as one agent's code works on it. Its ghost history is a
   * run of the protocol, so every theorem above holds of it.
   */
  class OnboardDir {
    var lockMtime: Option<int>
    var done: bool
    var now: int
    ghost var states: seq<State>
    ghost var actions: seq<Action>

    ghost predicate Valid()
      reads this
    {
      && |states| == |actions| + 1 && IsRun(states, actions)
      && View().now == now && View().done == done
      && lockMtime == (if View().lock.Some? then Some(View().lock.value.mtime) else None)
    }

    /** The protocol state the history has reached. */
    ghost function View(): State
      reads this
      requires |states| > 0
    {
      Last(states)
    }

    constructor (now: int)
      ensures Valid() && View() == Fresh(now)
    {
      this.lockMtime, this.done, this.now := None, false, now;
      this.states, this.actions := [Fresh(now)], [];
    }

    ghost method Record(a: Action)
      requires |states| == |actions| + 1 && IsRun(states, actions) && Do(View(), a).Some?
      modifies this`states, this`actions
      ensures |states| == |actions| + 1 && IsRun(states, actions)
      ensures View() == Do(old(View()), a).value
      ensures actions == old(actions) + [a]
    {
      states, actions := Take(states, actions, a);
    }

    /** `done.exists()` at the top of the loop, and the end of the loop. */
    method LookForDone(p: Pid) returns (found: bool)
      requires Valid() && p in View().procs && View().procs[p].CheckingDone?
      modifies this`states, this`actions
      ensures Valid() && found == done
      ensures View().procs == old(View()).procs[p := if done || old(View()).procs[p].left == 0 then Finished(Reused)
                                                     else Acquiring(old(View()).procs[p].left - 1)]
    {
      Record(CheckDone(p));
      return done;
    }

    /** `create_new` on the lock path: the only election there is. */
    method TryAcquire(p: Pid, io: bool) returns (r: Result<bool, IoError>)
      requires Valid() && p in View().procs && View().procs[p].Acquiring?
      modifies this
      ensures Valid() && now == old(now) && done == old(done)
      ensures r == if !io then Err(IoError) else Ok(old(lockMtime).None?)
      ensures lockMtime == if r == Ok(true) then Some(now) else old(lockMtime)
      ensures View().procs == old(View()).procs[p := match r
                                                     case Err(_) => Finished(LockError)
                                                     case Ok(won) => if won then Leading(old(View()).creates)
                                                                     else Inspecting(old(View()).procs[p].left)]
    {
      Record(Create(p, io));
      if !io {
        return Err(IoError);
      }
      if lockMtime.Some? {
        return Ok(false);
      }
      lockMtime := Some(now);
      return Ok(true);
    }

    /** The modification time of a lock older than `ttl` seconds. */
    method StaleLockMtime(ttl: int, io: bool) returns (r: Option<int>)
      requires Valid()
      ensures r == if io && lockMtime.Some? && now - lockMtime.value > ttl then lockMtime else None
    {
      if !io || lockMtime.None? {
        return None;
      }
      if now - lockMtime.value > ttl {
        return lockMtime;
      }
      return None;
    }

    /** The winner's arm of `run`: publish only after success, release the lock after failure. */
    method LeadAndPublish(p: Pid, leadOk: bool, writeIo: bool, unlinkIo: bool) returns (outcome: Outcome)
      requires Valid() && p in View().procs && View().procs[p].Leading?
      modifies this
      ensures Valid() && now == old(now)
      ensures View().procs == old(View()).procs[p := Finished(outcome)]
      ensures outcome == if leadOk then Led else LeadFailed
      ensures done == (old(done) || (leadOk && writeIo))
      ensures lockMtime == if !leadOk && unlinkIo then None else old(lockMtime)
    {
      hide IsRun, Last;
      if leadOk {
        Record(LeadOk(p));
        Record(Publish(p, writeIo));
        done := done || writeIo;
        return Led;
      }
      Record(LeadErr(p));
      Record(Release(p, unlinkIo));
      if unlinkIo {
        lockMtime := None;
      }
      return LeadFailed;
    }

    /** The loser's arm: take a stale lock away and go round again, or wait for the other agent. */
    method TakeOverOrWait(p: Pid, statIo: bool, recheckIo: bool, unlinkIo: bool) returns (again: bool)
      requires Valid() && p in View().procs && View().procs[p].Inspecting?
      modifies this
      ensures Valid() && now == old(now) && done == old(done)
      ensures again == (statIo && old(lockMtime).Some? && now - old(lockMtime).value > LOCK_STALE_SECS)
      ensures lockMtime == if again && recheckIo && unlinkIo then None else old(lockMtime)
      ensures View().procs ==
              old(View()).procs[p := if again then CheckingDone(old(View()).procs[p].left) else Finished(Reused)]
    {
      LoserDoes(View(), p, statIo);
      hide IsRun, Last, Do;
      var stale := StaleLockMtime(LOCK_STALE_SECS, statIo);
      Record(Inspect(p, statIo));
      if stale.None? {
        LoserDoes(View(), p, true);
        Record(GiveUpWaiting(p));
        return false;
      }
      var same := recheckIo && lockMtime == stale;
      LoserDoes(View(), p, recheckIo);
      Record(Recheck(p, recheckIo));
      if same {
        LoserDoes(View(), p, unlinkIo);
        Record(RemoveStale(p, unlinkIo));
        if unlinkIo {
          lockMtime := None;
        }
      }
      return true;
    }

    /** One turn of the loop of `run`. */
    method Turn(p: Pid, leadOk: bool, io: Io) returns (outcome: Option<Outcome>)
      requires Valid() && p in View().procs && View().procs[p].CheckingDone? && View().procs[p].left > 0
      modifies this
      ensures Valid() && now == old(now)
      ensures View().procs == old(View()).procs[p := if outcome.Some? then Finished(outcome.value)
                                                     else CheckingDone(old(View()).procs[p].left - 1)]
      ensures Ending(outcome, lockMtime, done) == OneTurn(old(done), old(lockMtime), now, leadOk, io)
    {
      hide IsRun, Last, Do;
      var found := LookForDone(p);
      if found {
        return Some(Reused);
      }
      var won := TryAcquire(p, io.create);
      if won.Err? {
        return Some(LockError);
      }
      if won.value {
        var led := LeadAndPublish(p, leadOk, io.write, io.unlink);
        return Some(led);
      }
      var again := TakeOverOrWait(p, io.stat, io.recheck, io.unlink);
      return if again then None else Some(Reused);
    }

    /** A new agent enters `run`. */
    ghost method Enter(p: Pid)
      requires Valid() && p !in View().procs
      modifies this`states, this`actions
      ensures Valid()
      ensures View().procs == old(View()).procs[p := CheckingDone(MAX_ATTEMPTS)]
    {
      Record(Start(p));
    }

    /** `run` by one agent while no other agent steps; `leadOk` says whether `lead` succeeds. */
    method Run(p: Pid, leadOk: bool, io: nat -> Io) returns (outcome: Outcome)
      requires Valid() && p !in View().procs
      modifies this
      ensures Valid() && now == old(now)
      ensures View().procs == old(View()).procs[p := Finished(outcome)]
      ensures Ending(Some(outcome), lockMtime, done) == Alone(old(done), old(lockMtime), now, leadOk, io, 0)
    {
      hide IsRun, Last, Do, OneTurn, Alone;
      Enter(p);
      for turn := 0 to MAX_ATTEMPTS
        invariant Valid() && now == old(now)
        invariant View().procs == old(View()).procs[p := CheckingDone(MAX_ATTEMPTS - turn)]
        invariant Alone(done, lockMtime, now, leadOk, io, turn) == Alone(old(done), old(lockMtime), now, leadOk, io, 0)
      {
        AloneStep(done, lockMtime, now, leadOk, io, turn);
        var last := Turn(p, leadOk, io(turn));
        if last.Some? {
          return last.value;
        }
      }
      AloneStep(done, lockMtime, now, leadOk, io, MAX_ATTEMPTS);
      var _ := LookForDone(p);
      return Reused;
    }
  }

  lemma AloneStep(done: bool, lockMtime: Option<int>, now: int, leadOk: bool, io: nat -> Io, turn: nat)
    requires turn <= MAX_ATTEMPTS
    ensures var t := OneTurn(done, lockMtime, now, leadOk, io(turn));
            Alone(done, lockMtime, now, leadOk, io, turn) ==
            if turn == MAX_ATTEMPTS then Ending(Some(Reused), lockMtime, done)
            else if t.outcome.Some? then t
            else Alone(t.done, t.lockMtime, now, leadOk, io, turn + 1)
  {
  }
}
