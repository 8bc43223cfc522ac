/**
 * Leader election for `crabcc init`: any number of agents share one directory that
 * holds a lock file and a done marker, and interleave single file operations.
 *
 * `Do` is one atomic step. Where the code looks at the disk or calls something that
 * may fail, the action carries the outcome, so a run is a list of actions. A lock
 * file carries the number of the create that made it; the code cannot see that
 * number, it only compares modification times.
 */
module Onboarding {
  import opened Results

  type Pid = nat

  const LOCK_STALE_SECS := 600
  const MAX_ATTEMPTS := 3

  datatype Lock = Lock(gen: nat, mtime: int)

  datatype Outcome = Led | LeadFailed | Reused | LockError

  /** Where an agent is. `left` counts the loop iterations still allowed. */
  datatype Phase =
    | CheckingDone(left: nat)
    | Acquiring(left: nat)
    | Leading(gen: nat)
    | Publishing(gen: nat)
    | Releasing(gen: nat)
    | Inspecting(left: nat)
    | Rechecking(left: nat, gen: nat, mtime: int)
    | Unlinking(left: nat, gen: nat)
    | Waiting
    | Finished(outcome: Outcome)
    | Crashed

  /** The directory, the clock, the agents, and the history the theorems count. */
  datatype State = State(
    lock: Option<Lock>,
    done: bool,
    now: int,
    procs: map<Pid, Phase>,
    creates: nat,
    unlinks: nat,
    takeovers: nat,
    leadOks: nat)

  datatype Action =
    | Start(p: Pid)
    | CheckDone(p: Pid)
    | Create(p: Pid, io: bool)
    | Touch(p: Pid)
    | LeadOk(p: Pid)
    | LeadErr(p: Pid)
    | Publish(p: Pid, io: bool)
    | Release(p: Pid, io: bool)
    | Inspect(p: Pid, io: bool)
    | Recheck(p: Pid, io: bool)
    | RemoveStale(p: Pid, io: bool)
    | GiveUpWaiting(p: Pid)
    | Crash(p: Pid)
    | Tick(delta: int)

  function Fresh(now: int): State {
    State(None, false, now, map[], 0, 0, 0, 0)
  }

  /** `s` with agent `p` moved to phase `f`. */
  function Move(s: State, p: Pid, f: Phase): State { s.(procs := s.procs[p := f]) }

  /** `remove_file` on the lock path: whatever file is there goes, whoever made it. */
  function Unlink(s: State): State {
    if s.lock.Some? then s.(lock := None, unlinks := s.unlinks + 1) else s
  }

  predicate IsStale(s: State) {
    s.lock.Some? && s.now - s.lock.value.mtime > LOCK_STALE_SECS
  }

  function Do(s: State, a: Action): Option<State> {
    if a.Tick? then Some(s.(now := s.now + a.delta))
    else if a.Start? then
      if a.p in s.procs then None else Some(Move(s, a.p, CheckingDone(MAX_ATTEMPTS)))
    else if a.p !in s.procs then None
    else
      match (a, s.procs[a.p]) {
        case (CheckDone(p), CheckingDone(left)) =>
          if left == 0 || s.done then Some(Move(s, p, Finished(Reused)))
          else Some(Move(s, p, Acquiring(left - 1)))
        case (Create(p, io), Acquiring(left)) =>
          if !io then Some(Move(s, p, Finished(LockError)))
          else if s.lock.None? then
            Some(Move(s, p, Leading(s.creates)).(lock := Some(Lock(s.creates, s.now)), creates := s.creates + 1))
          else Some(Move(s, p, Inspecting(left)))
        case (Touch(p), Leading(gen)) =>
          if s.lock.Some? && s.lock.value.gen == gen then Some(s.(lock := Some(Lock(gen, s.now)))) else Some(s)
        case (LeadOk(p), Leading(gen)) => Some(Move(s, p, Publishing(gen)).(leadOks := s.leadOks + 1))
        case (LeadErr(p), Leading(gen)) => Some(Move(s, p, Releasing(gen)))
        case (Publish(p, io), Publishing(gen)) => Some(Move(s, p, Finished(Led)).(done := s.done || io))
        case (Release(p, io), Releasing(gen)) => Some(Move(if io then Unlink(s) else s, p, Finished(LeadFailed)))
        case (Inspect(p, io), Inspecting(left)) =>
          if io && IsStale(s) then Some(Move(s, p, Rechecking(left, s.lock.value.gen, s.lock.value.mtime)))
          else Some(Move(s, p, Waiting))
        case (Recheck(p, io), Rechecking(left, gen, mtime)) =>
          if io && s.lock.Some? && s.lock.value.mtime == mtime then Some(Move(s, p, Unlinking(left, gen)))
          else Some(Move(s, p, CheckingDone(left)))
        case (RemoveStale(p, io), Unlinking(left, gen)) =>
          if io && s.lock.Some? then Some(Move(Unlink(s), p, CheckingDone(left)).(takeovers := s.takeovers + 1))
          else Some(Move(s, p, CheckingDone(left)))
        case (GiveUpWaiting(p), Waiting) => Some(Move(s, p, Finished(Reused)))
        case (Crash(p), f) => if f.Finished? || f.Crashed? then None else Some(Move(s, p, Crashed))
        case _ => None
      }
  }

  /** All states of the run that starts at `s` and takes `actions`, or None if some action is not enabled. */
  function Exec(s: State, actions: seq<Action>): (r: Option<seq<State>>)
    ensures r.Some? ==> |r.value| == |actions| + 1 && r.value[0] == s
    ensures r.Some? ==> forall i :: 0 <= i < |actions| ==> Do(r.value[i], actions[i]) == Some(r.value[i + 1])
    decreases |actions|
  {
    if actions == [] then Some([s])
    else
      match Do(s, actions[0])
      case None => None
      case Some(t) =>
        match Exec(t, actions[1..])
        case None => None
        case Some(rest) => Some([s] + rest)
  }

  ghost predicate Linked(states: seq<State>, actions: seq<Action>) {
    && |states| == |actions| + 1
    && forall i :: 0 <= i < |actions| ==> Do(states[i], actions[i]) == Some(states[i + 1])
  }

  /** `states` is a run from an empty directory. */
  ghost predicate IsRun(states: seq<State>, actions: seq<Action>) {
    Linked(states, actions) && states[0] == Fresh(states[0].now)
  }

  /** A live leader: it won the election and has neither finished nor died. */
  predicate IsLeader(s: State, p: Pid) {
    p in s.procs && (s.procs[p].Leading? || s.procs[p].Publishing? || s.procs[p].Releasing?)
  }

  function Gen(s: State, p: Pid): nat
    requires IsLeader(s, p)
  {
    s.procs[p].gen
  }

  predicate Suspects(s: State, p: Pid) {
    p in s.procs && (s.procs[p].Rechecking? || s.procs[p].Unlinking?)
  }

  ghost predicate AtMostOneLeader(s: State) {
    forall p, q :: IsLeader(s, p) && IsLeader(s, q) ==> p == q
  }

  // ----- what every run keeps -----

  /** Counters and files. */
  ghost predicate Counted(s: State) {
    && s.creates == s.unlinks + (if s.lock.Some? then 1 else 0)
    && (s.lock.Some? ==> s.lock.value.gen < s.creates)
    && (s.done ==> s.leadOks > 0)
    && (forall p :: p in s.procs && s.procs[p].Publishing? ==> s.leadOks > 0)
  }

  /** Every agent refers to a lock that was really made, and no two leaders to the same one. */
  ghost predicate Numbered(s: State) {
    && (forall p :: IsLeader(s, p) ==> Gen(s, p) < s.creates)
    && (forall p, q :: IsLeader(s, p) && IsLeader(s, q) && Gen(s, p) == Gen(s, q) ==> p == q)
    && (forall p :: Suspects(s, p) ==> s.procs[p].gen < s.creates)
  }

  /** Bookkeeping that no interleaving breaks. */
  ghost predicate Ledger(s: State) { Counted(s) && Numbered(s) }

  /** A leader was already leading under the same lock, or it has just won the election. */
  lemma WhereLeadersComeFrom(s: State, a: Action, t: State)
    requires Do(s, a) == Some(t)
    ensures forall p {:trigger IsLeader(t, p)} :: IsLeader(t, p) ==>
              || (IsLeader(s, p) && Gen(t, p) == Gen(s, p))
              || (a == Create(p, true) && s.lock.None? && Gen(t, p) == s.creates &&
                  t.lock == Some(Lock(s.creates, s.now)))
    ensures forall p {:trigger IsLeader(s, p)} :: IsLeader(s, p) && (a.Tick? || p != a.p) ==> IsLeader(t, p)
    ensures t.creates == s.creates + if a.Create? && a.io && t.creates != s.creates then 1 else 0
    ensures a.Create? && IsLeader(t, a.p) ==> t.creates == s.creates + 1
  {
  }

  lemma WhereSuspicionsComeFrom(s: State, a: Action, t: State)
    requires Do(s, a) == Some(t)
    ensures forall p {:trigger Suspects(t, p)} :: Suspects(t, p) ==>
              || (Suspects(s, p) && t.procs[p].gen == s.procs[p].gen)
              || (a == Inspect(p, true) && s.lock.Some? && t.procs[p].gen == s.lock.value.gen)
  {
  }

  lemma StepKeepsCounts(s: State, a: Action, t: State)
    requires Counted(s) && Do(s, a) == Some(t)
    ensures Counted(t)
  {
  }

  lemma StepKeepsLedger(s: State, a: Action, t: State)
    requires Ledger(s) && Do(s, a) == Some(t)
    ensures Ledger(t)
  {
    WhereLeadersComeFrom(s, a, t);
    WhereSuspicionsComeFrom(s, a, t);
    StepKeepsCounts(s, a, t);
    hide Do, Counted;
  }

  lemma {:induction false} RunKeepsLedger(states: seq<State>, actions: seq<Action>, i: nat)
    requires IsRun(states, actions) && i < |states|
    ensures Ledger(states[i])
  {
    if i > 0 {
      RunKeepsLedger(states, actions, i - 1);
      StepKeepsLedger(states[i - 1], actions[i - 1], states[i]);
    }
  }

  /**
   * In every interleaving, with crashes and takeovers: successful creates minus
   * successful unlinks is one if the lock file exists and zero otherwise, and the
   * done marker exists only after some lead returned Ok.
   */
  lemma LockFileIsCounted(states: seq<State>, actions: seq<Action>)
    requires IsRun(states, actions)
    ensures forall i :: 0 <= i < |states| ==>
              && states[i].creates - states[i].unlinks == (if states[i].lock.Some? then 1 else 0)
              && (states[i].done ==> states[i].leadOks > 0)
  {
    forall i | 0 <= i < |states| ensures Ledger(states[i]) {
      RunKeepsLedger(states, actions, i);
    }
  }

  // ----- no takeover: one leader, one success -----

  ghost predicate LockOwned(s: State) {
    && (forall p :: IsLeader(s, p) ==> s.lock.Some? && s.lock.value.gen == Gen(s, p))
  }

  ghost predicate Decided(s: State) {
    && s.leadOks <= 1
    && (s.leadOks == 1 ==> s.lock.Some? && forall p :: IsLeader(s, p) ==> s.procs[p].Publishing?)
  }

  lemma StepKeepsElection(s: State, a: Action, t: State)
    requires Ledger(s) && LockOwned(s) && Decided(s)
    requires Do(s, a) == Some(t) && t.takeovers == s.takeovers
    ensures LockOwned(t) && Decided(t)
  {
    WhereLeadersComeFrom(s, a, t);
    if !a.Tick? {
      assert IsLeader(s, a.p) ==> s.lock.Some?;
    }
  }

  lemma {:induction false} TakeoversGrow(states: seq<State>, actions: seq<Action>, i: nat, j: nat)
    requires IsRun(states, actions) && i <= j < |states|
    ensures states[i].takeovers <= states[j].takeovers
  {
    if i < j {
      TakeoversGrow(states, actions, i, j - 1);
      assert Do(states[j - 1], actions[j - 1]) == Some(states[j]);
    }
  }

  lemma {:induction false} RunKeepsElection(states: seq<State>, actions: seq<Action>, i: nat)
    requires IsRun(states, actions) && i < |states|
    requires states[i].takeovers == 0
    ensures LockOwned(states[i]) && Decided(states[i])
  {
    if i > 0 {
      TakeoversGrow(states, actions, i - 1, i);
      RunKeepsElection(states, actions, i - 1);
      RunKeepsLedger(states, actions, i - 1);
      StepKeepsElection(states[i - 1], actions[i - 1], states[i]);
    }
  }

  /** The action takes a lock file away as stale. */
  predicate TakesOver(s: State, a: Action) { a.RemoveStale? && a.io && s.lock.Some? }

  lemma {:induction false} TakeoversAreCounted(states: seq<State>, actions: seq<Action>, i: nat)
    requires IsRun(states, actions) && i < |states|
    requires forall j :: 0 <= j < i ==> !TakesOver(states[j], actions[j])
    ensures states[i].takeovers == 0
  {
    if i > 0 {
      TakeoversAreCounted(states, actions, i - 1);
      assert Do(states[i - 1], actions[i - 1]) == Some(states[i]);
    }
  }

  /** Until the first stale takeover, at most one agent is ever leading and at most one lead ever succeeds. */
  lemma OneLeaderWithoutTakeover(states: seq<State>, actions: seq<Action>, i: nat)
    requires IsRun(states, actions) && i < |states|
    requires forall j :: 0 <= j < i ==> !TakesOver(states[j], actions[j])
    ensures forall p, q :: IsLeader(states[i], p) && IsLeader(states[i], q) ==> p == q
    ensures states[i].leadOks <= 1
  {
    TakeoversAreCounted(states, actions, i);
    RunKeepsElection(states, actions, i);
    RunKeepsLedger(states, actions, i);
  }

  // ----- with takeovers: exactly which step breaks the election -----

  /** The action unlinks the lock file that another agent, `q`, is leading under. */
  ghost predicate Robs(s: State, a: Action, q: Pid) {
    && (a.Release? || a.RemoveStale?) && a.io
    && s.lock.Some?
    && q != a.p && IsLeader(s, q) && Gen(s, q) == s.lock.value.gen
  }

  ghost predicate RobsLeader(s: State, a: Action) { exists q :: Robs(s, a, q) }

  /** From a state where every live leader owns the lock file, one step keeps that exactly when it robs nobody. */
  lemma StepKeepsOwnershipIff(s: State, a: Action, t: State)
    requires Ledger(s) && LockOwned(s) && Do(s, a) == Some(t)
    ensures LockOwned(t) <==> !RobsLeader(s, a)
  {
    WhereLeadersComeFrom(s, a, t);
    if RobsLeader(s, a) {
      var q :| Robs(s, a, q);
      assert IsLeader(t, q);
    } else {
      forall q | IsLeader(t, q) ensures t.lock.Some? && t.lock.value.gen == Gen(t, q) {
        assert !Robs(s, a, q);
      }
    }
  }

  /** Owning the lock file is what makes the leader unique. */
  lemma OwnershipMeansOneLeader(s: State)
    requires Ledger(s) && LockOwned(s)
    ensures AtMostOneLeader(s)
  {
  }

  /**
   * Robbery is what splits leadership: once a live leader has lost its lock file and
   * nothing is published yet, any new agent becomes a second live leader in three steps.
   */
  lemma RobbedLeaderCanBeDoubled(s: State, p: Pid, q: Pid)
    requires IsLeader(s, p) && s.lock.None? && !s.done && q !in s.procs
    ensures var r := Exec(s, [Start(q), CheckDone(q), Create(q, true)]);
            r.Some? && IsLeader(r.value[3], p) && IsLeader(r.value[3], q) && p != q
  {
    var actions := [Start(q), CheckDone(q), Create(q, true)];
    var s1 := Do(s, actions[0]).value;
    var s2 := Do(s1, actions[1]).value;
    var s3 := Do(s2, actions[2]).value;
    assert actions[1..] == [actions[1], actions[2]];
    assert actions[1..][1..] == [actions[2]];
    assert actions[1..][1..][1..] == [];
    assert Exec(s3, []) == Some([s3]);
    assert Exec(s2, [actions[2]]) == Some([s2] + [s3]);
    assert Exec(s1, actions[1..]) == Some([s1] + ([s2] + [s3]));
  }

  // ----- the conditions an operator can rely on -----

  /** An unlink hits the lock file it was aimed at, or none. */
  ghost predicate AimsTrue(s: State, a: Action) {
    (a.Release? || a.RemoveStale?) && a.p in s.procs && (s.procs[a.p].Releasing? || s.procs[a.p].Unlinking?) &&
        s.lock.Some?
    ==> s.lock.value.gen == s.procs[a.p].gen
  }

  /** A lock judged stale has no live leader behind it. */
  ghost predicate JudgesTrue(s: State, a: Action) {
    a.Inspect? && IsStale(s) ==> forall q :: IsLeader(s, q) ==> Gen(s, q) != s.lock.value.gen
  }

  ghost predicate Disciplined(s: State, a: Action) { AimsTrue(s, a) && JudgesTrue(s, a) }

  ghost predicate SuspectsAreDead(s: State) {
    forall p, q :: Suspects(s, p) && IsLeader(s, q) ==> s.procs[p].gen != Gen(s, q)
  }

  lemma DisciplinedStep(s: State, a: Action, t: State)
    requires Ledger(s) && LockOwned(s) && SuspectsAreDead(s) && Disciplined(s, a) && Do(s, a) == Some(t)
    ensures LockOwned(t) && SuspectsAreDead(t)
  {
    WhereLeadersComeFrom(s, a, t);
    WhereSuspicionsComeFrom(s, a, t);
    if a.RemoveStale? {
      assert Suspects(s, a.p);
    } else if a.Release? {
      assert IsLeader(s, a.p);
    }
    StepKeepsOwnershipIff(s, a, t);
  }

  lemma {:induction false} DisciplinedRun(states: seq<State>, actions: seq<Action>, n: nat)
    requires IsRun(states, actions) && n < |states|
    requires forall i :: 0 <= i < n ==> Disciplined(states[i], actions[i])
    ensures LockOwned(states[n]) && SuspectsAreDead(states[n])
  {
    if n > 0 {
      DisciplinedRun(states, actions, n - 1);
      RunKeepsLedger(states, actions, n - 1);
      DisciplinedStep(states[n - 1], actions[n - 1], states[n]);
    }
  }

  /** Under that discipline takeovers are safe: still at most one live leader, whatever crashes. */
  lemma OneLeaderUnderDiscipline(states: seq<State>, actions: seq<Action>, n: nat)
    requires IsRun(states, actions) && n < |states|
    requires forall i :: 0 <= i < n ==> Disciplined(states[i], actions[i])
    ensures AtMostOneLeader(states[n])
  {
    DisciplinedRun(states, actions, n);
    RunKeepsLedger(states, actions, n);
  }

  // ----- neither condition alone is enough -----

  ghost function Last(states: seq<State>): State
    requires |states| > 0
  {
    states[|states| - 1]
  }

  ghost predicate AllAimTrue(states: seq<State>, actions: seq<Action>)
    requires |states| > |actions|
  {
    forall i :: 0 <= i < |actions| ==> AimsTrue(states[i], actions[i])
  }

  ghost predicate AllJudgeTrue(states: seq<State>, actions: seq<Action>)
    requires |states| > |actions|
  {
    forall i :: 0 <= i < |actions| ==> JudgesTrue(states[i], actions[i])
  }

  /** One more action at the end of a run. */
  lemma Take(states: seq<State>, actions: seq<Action>, a: Action) returns (states': seq<State>, actions': seq<Action>)
    requires |states| == |actions| + 1 && IsRun(states, actions)
    requires Do(Last(states), a).Some?
    ensures actions' == actions + [a] && |states'| == |actions'| + 1
    ensures IsRun(states', actions')
    ensures Last(states') == Do(Last(states), a).value
    ensures AllAimTrue(states', actions') <==> AllAimTrue(states, actions) && AimsTrue(Last(states), a)
    ensures AllJudgeTrue(states', actions') <==> AllJudgeTrue(states, actions) && JudgesTrue(Last(states), a)
  {
    actions', states' := actions + [a], states + [Do(Last(states), a).value];
    assert forall i :: 0 <= i < |actions| ==> states'[i] == states[i] && actions'[i] == actions[i];
    assert actions'[|actions|] == a && states'[|actions|] == Last(states);
  }

  /** A new agent finds an empty directory and wins. */
  lemma AgentWins(states: seq<State>, actions: seq<Action>, p: Pid) returns (states': seq<State>, actions': seq<Action>)
    requires |states| == |actions| + 1 && IsRun(states, actions)
    requires AllAimTrue(states, actions) && AllJudgeTrue(states, actions)
    requires p !in Last(states).procs && !Last(states).done && Last(states).lock.None?
    ensures |states'| == |actions'| + 1 && IsRun(states', actions')
    ensures AllAimTrue(states', actions') && AllJudgeTrue(states', actions')
    ensures var s := Last(states);
            Last(states') ==
              Move(s, p, Leading(s.creates)).(lock := Some(Lock(s.creates, s.now)), creates := s.creates + 1)
  {
    hide IsRun, AllJudgeTrue, AllAimTrue, Last;
    states', actions' := Take(states, actions, Start(p));
    states', actions' := Take(states', actions', CheckDone(p));
    states', actions' := Take(states', actions', Create(p, true));
  }

  /** A new agent finds a stale lock and gets as far as deciding to unlink it. */
  lemma AgentSuspects(states: seq<State>, actions: seq<Action>, p: Pid)
    returns (states': seq<State>, actions': seq<Action>)
    requires |states| == |actions| + 1 && IsRun(states, actions)
    requires AllAimTrue(states, actions)
    requires p !in Last(states).procs && !Last(states).done && IsStale(Last(states))
    ensures |states'| == |actions'| + 1 && IsRun(states', actions')
    ensures AllAimTrue(states', actions')
    ensures Last(states') == Move(Last(states), p, Unlinking(MAX_ATTEMPTS - 1, Last(states).lock.value.gen))
    ensures AllJudgeTrue(states, actions) && (forall q :: !IsLeader(Last(states), q)) ==>
            AllJudgeTrue(states', actions')
  {
    hide IsRun, AllJudgeTrue, AllAimTrue, Last;
    states', actions' := Take(states, actions, Start(p));
    states', actions' := Take(states', actions', CheckDone(p));
    states', actions' := Take(states', actions', Create(p, true));
    assert forall q :: IsLeader(Last(states'), q) ==> IsLeader(Last(states), q);
    states', actions' := Take(states', actions', Inspect(p, true));
    states', actions' := Take(states', actions', Recheck(p, true));
  }

  /** It unlinks whatever lock file is there now, and wins the election it has reopened. */
  lemma AgentUnlinksAndWins(states: seq<State>, actions: seq<Action>, p: Pid)
    returns (states': seq<State>, actions': seq<Action>)
    requires |states| == |actions| + 1 && IsRun(states, actions)
    requires p in Last(states).procs && Last(states).procs[p].Unlinking? && Last(states).procs[p].left > 0
    requires !Last(states).done && Last(states).lock.Some?
    ensures |states'| == |actions'| + 1 && IsRun(states', actions')
    ensures AllJudgeTrue(states, actions) ==> AllJudgeTrue(states', actions')
    ensures AllAimTrue(states, actions) && Last(states).procs[p].gen == Last(states).lock.value.gen ==>
            AllAimTrue(states', actions')
    ensures var s := Last(states);
            Last(states') ==
              Move(s, p, Leading(s.creates)).(lock := Some(Lock(s.creates, s.now)), creates := s.creates + 1,
                                              unlinks := s.unlinks + 1, takeovers := s.takeovers + 1)
  {
    hide IsRun, AllJudgeTrue, AllAimTrue, Last;
    states', actions' := Take(states, actions, RemoveStale(p, true));
    states', actions' := Take(states', actions', CheckDone(p));
    states', actions' := Take(states', actions', Create(p, true));
  }

  /**
   * A run in which every staleness verdict is right - the first leader really crashed -
   * and still two agents lead at once: the modification time is compared before the
   * unlink, not with it, so the late unlink hits the new leader's lock.
   */
  lemma RaceSplitsLeadership() returns (states: seq<State>, actions: seq<Action>)
    ensures |states| == |actions| + 1 && IsRun(states, actions) && AllJudgeTrue(states, actions)
    ensures IsLeader(Last(states), 1) && IsLeader(Last(states), 2)
  {
    states, actions := [Fresh(0)], [];
    assert IsRun(states, actions) && Last(states) == Fresh(0);
    assert AllAimTrue(states, actions) && AllJudgeTrue(states, actions);
    hide IsRun, AllJudgeTrue, AllAimTrue, Last;
    states, actions := AgentWins(states, actions, 0);
    states, actions := Take(states, actions, Crash(0));
    states, actions := Take(states, actions, Tick(601));
    states, actions := AgentSuspects(states, actions, 1);
    states, actions := AgentSuspects(states, actions, 2);
    states, actions := AgentUnlinksAndWins(states, actions, 2);
    states, actions := AgentUnlinksAndWins(states, actions, 1);
  }

  /** A run in which every unlink hits its own target and still two agents lead: the first one is merely slow. */
  lemma SlowLeaderSplitsLeadership() returns (states: seq<State>, actions: seq<Action>)
    ensures |states| == |actions| + 1 && IsRun(states, actions) && AllAimTrue(states, actions)
    ensures IsLeader(Last(states), 0) && IsLeader(Last(states), 1)
  {
    states, actions := [Fresh(0)], [];
    assert IsRun(states, actions) && Last(states) == Fresh(0);
    assert AllAimTrue(states, actions) && AllJudgeTrue(states, actions);
    hide IsRun, AllJudgeTrue, AllAimTrue, Last;
    states, actions := AgentWins(states, actions, 0);
    states, actions := Take(states, actions, Tick(601));
    states, actions := AgentSuspects(states, actions, 1);
    states, actions := AgentUnlinksAndWins(states, actions, 1);
  }

  // ----- the bounded loop -----

  /** How many more steps an agent can take; only touching its own lock is free. */
  function StepsLeft(f: Phase): nat {
    match f
    case CheckingDone(left) => 6 * left + 1
    case Acquiring(left) => 6 * left + 6
    case Inspecting(left) => 6 * left + 5
    case Rechecking(left, _, _) => 6 * left + 4
    case Unlinking(left, _) => 6 * left + 3
    case Leading(_) => 3
    case Publishing(_) => 2
    case Releasing(_) => 2
    case Waiting => 1
    case Finished(_) => 0
    case Crashed => 0
  }

  /** Takeovers are retried without spinning: whatever the others do, an agent takes at most 19 steps. */
  lemma EveryStepIsProgress(s: State, a: Action, t: State)
    requires Do(s, a) == Some(t) && !a.Tick? && !a.Touch?
    ensures a.p in t.procs
    ensures if a.Start? then StepsLeft(t.procs[a.p]) == 6 * MAX_ATTEMPTS + 1
            else a.p in s.procs && StepsLeft(t.procs[a.p]) < StepsLeft(s.procs[a.p])
    ensures forall q :: q in s.procs && q != a.p ==> q in t.procs && t.procs[q] == s.procs[q]
  {
  }
}
