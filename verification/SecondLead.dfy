/** Takeovers and the research itself: when it is done twice although no two agents ever lead at once. */
module SecondLead {
  import opened Results
  import opened Onboarding

  // ----- a disciplined run with two successes -----

  /** A new agent gets past the marker before it is published, and no further. */
  lemma AgentChecks(states: seq<State>, actions: seq<Action>, p: Pid)
    returns (states': seq<State>, actions': seq<Action>)
    requires |states| == |actions| + 1 && IsRun(states, actions)
    requires AllAimTrue(states, actions) && AllJudgeTrue(states, actions)
    requires p !in Last(states).procs && !Last(states).done
    ensures |states'| == |actions'| + 1 && IsRun(states', actions')
    ensures AllAimTrue(states', actions') && AllJudgeTrue(states', actions')
    ensures Last(states') == Move(Last(states), p, Acquiring(MAX_ATTEMPTS - 1))
  {
    hide IsRun, AllJudgeTrue, AllAimTrue, Last;
    states', actions' := Take(states, actions, Start(p));
    states', actions' := Take(states', actions', CheckDone(p));
  }

  /** The leader succeeds and publishes while agents 1 and 2 are already past the marker. */
  lemma PublishedTooLate() returns (states: seq<State>, actions: seq<Action>)
    ensures |states| == |actions| + 1 && IsRun(states, actions)
    ensures AllAimTrue(states, actions) && AllJudgeTrue(states, actions)
    ensures var s := Last(states);
            && s.lock == Some(Lock(0, 0)) && s.done && s.now == 0 && s.leadOks == 1
            && 1 in s.procs && s.procs[1] == Acquiring(MAX_ATTEMPTS - 1)
            && 2 in s.procs && s.procs[2] == Inspecting(MAX_ATTEMPTS - 1)
            && forall p :: !IsLeader(s, p)
  {
    states, actions := [Fresh(0)], [];
    assert IsRun(states, actions) && Last(states) == Fresh(0);
    assert AllAimTrue(states, actions) && AllJudgeTrue(states, actions);
    hide IsRun, AllJudgeTrue, AllAimTrue, Last;
    states, actions := AgentWins(states, actions, 0);
    states, actions := AgentChecks(states, actions, 1);
    states, actions := AgentChecks(states, actions, 2);
    states, actions := Take(states, actions, Create(2, true));
    states, actions := Take(states, actions, LeadOk(0));
    states, actions := Take(states, actions, Publish(0, true));
  }

  /** Much later agent 2 takes the leftover lock away; agent 1 has still not moved. */
  lemma LeftoverIsRemoved() returns (states: seq<State>, actions: seq<Action>)
    ensures |states| == |actions| + 1 && IsRun(states, actions)
    ensures AllAimTrue(states, actions) && AllJudgeTrue(states, actions)
    ensures var s := Last(states);
            && s.lock.None? && s.done && s.leadOks == 1
            && 1 in s.procs && s.procs[1] == Acquiring(MAX_ATTEMPTS - 1)
  {
    states, actions := PublishedTooLate();
    hide IsRun, AllJudgeTrue, AllAimTrue, Last;
    var published := Last(states);
    states, actions := Take(states, actions, Tick(601));
    assert forall q :: IsLeader(Last(states), q) ==> IsLeader(published, q);
    states, actions := Take(states, actions, Inspect(2, true));
    states, actions := Take(states, actions, Recheck(2, true));
    states, actions := Take(states, actions, RemoveStale(2, true));
  }

  /**
   * A run in which every unlink hits its own target and every staleness verdict is
   * right, and the research is still done twice: the marker is not looked at again after
   * the election is won.
   */
  lemma ResearchIsDoneTwice() returns (states: seq<State>, actions: seq<Action>)
    ensures |states| == |actions| + 1 && IsRun(states, actions)
    ensures AllAimTrue(states, actions) && AllJudgeTrue(states, actions)
    ensures Last(states).leadOks == 2
  {
    states, actions := LeftoverIsRemoved();
    hide IsRun, AllJudgeTrue, AllAimTrue, Last;
    states, actions := Take(states, actions, Create(1, true));
    states, actions := Take(states, actions, LeadOk(1));
  }

  // ----- every disciplined run with two successes has that shape -----

  /** Where the lock, the leaders and the loop of one agent can come from, in one step. */
  lemma StepBack(s: State, a: Action, t: State, q: Pid)
    requires Do(s, a) == Some(t) && q in t.procs
    ensures t.procs[q].Acquiring? ==>
              || (q in s.procs && s.procs[q] == t.procs[q])
              || (a == CheckDone(q) && !s.done)
    ensures t.procs[q].Leading? ==>
              || (q in s.procs && s.procs[q] == t.procs[q])
              || (a == Create(q, true) && s.lock.None? && q in s.procs && s.procs[q].Acquiring?)
  {
  }

  /** An agent that may create the lock file saw no marker and has not looked since. */
  ghost predicate PassedCheck(states: seq<State>, actions: seq<Action>, c: nat, k: nat, q: Pid)
    requires Linked(states, actions) && k < |states|
  {
    && c < k && actions[c] == CheckDone(q) && !states[c].done
    && forall x :: c < x <= k ==> q in states[x].procs && states[x].procs[q].Acquiring?
  }

  lemma {:induction false} FindCheck(states: seq<State>, actions: seq<Action>, k: nat, q: Pid) returns (c: nat)
    requires IsRun(states, actions) && k < |states|
    requires q in states[k].procs && states[k].procs[q].Acquiring?
    ensures PassedCheck(states, actions, c, k, q)
  {
    StepBack(states[k - 1], actions[k - 1], states[k], q);
    hide Do;
    if actions[k - 1] == CheckDone(q) && !states[k - 1].done {
      c := k - 1;
    } else {
      c := FindCheck(states, actions, k - 1, q);
    }
  }

  /** `k` is the create that made `q` the leader it is at `m`. */
  ghost predicate WonAt(states: seq<State>, actions: seq<Action>, k: nat, m: nat, q: Pid)
    requires Linked(states, actions) && m < |states|
  {
    && k < m && actions[k] == Create(q, true) && states[k].lock.None?
    && q in states[k].procs && states[k].procs[q].Acquiring?
    && forall x :: k < x <= m ==> q in states[x].procs && states[x].procs[q].Leading?
  }

  lemma {:induction false} FindWin(states: seq<State>, actions: seq<Action>, m: nat, q: Pid) returns (k: nat)
    requires IsRun(states, actions) && m < |states|
    requires q in states[m].procs && states[m].procs[q].Leading?
    ensures WonAt(states, actions, k, m, q)
  {
    StepBack(states[m - 1], actions[m - 1], states[m], q);
    hide Do;
    if q in states[m - 1].procs && states[m - 1].procs[q] == states[m].procs[q] {
      k := FindWin(states, actions, m - 1, q);
    } else {
      k := m - 1;
    }
  }

  /** The lead of `p` under lock `gen` has succeeded; nobody will ever release that lock. */
  ghost predicate LeadIsOver(s: State, p: Pid, gen: nat) {
    && gen < s.creates
    && p in s.procs && (s.procs[p] == Publishing(gen) || s.procs[p].Finished? || s.procs[p].Crashed?)
    && forall r :: IsLeader(s, r) && Gen(s, r) == gen ==> r == p
  }

  lemma StepKeepsOver(s: State, a: Action, t: State, p: Pid, gen: nat)
    requires LeadIsOver(s, p, gen) && Do(s, a) == Some(t)
    ensures LeadIsOver(t, p, gen)
  {
    WhereLeadersComeFrom(s, a, t);
    PhaseOfOver(s, a, t, p, gen);
    hide Do;
  }

  lemma PhaseOfOver(s: State, a: Action, t: State, p: Pid, gen: nat)
    requires p in s.procs && (s.procs[p] == Publishing(gen) || s.procs[p].Finished? || s.procs[p].Crashed?)
    requires Do(s, a) == Some(t)
    ensures p in t.procs && (t.procs[p] == Publishing(gen) || t.procs[p].Finished? || t.procs[p].Crashed?)
    ensures t.creates >= s.creates
  {
  }

  predicate Holds(s: State, gen: nat) { s.lock.Some? && s.lock.value.gen == gen }

  /** The lock of a finished leader goes away only in a takeover, and only when that leader leads no more. */
  lemma LockIsTakenAway(s: State, a: Action, t: State, p: Pid, gen: nat)
    requires LeadIsOver(s, p, gen) && SuspectsAreDead(s) && AimsTrue(s, a) && Do(s, a) == Some(t)
    requires Holds(s, gen) && !Holds(t, gen)
    ensures a.RemoveStale? && a.io && !IsLeader(s, p)
  {
    if a.RemoveStale? {
      assert Suspects(s, a.p);
    } else if a.Release? && a.p in s.procs {
      assert IsLeader(s, a.p);
    }
  }

  /** Takeover `j` removes the lock file that the finished leader `p` left behind. */
  ghost predicate RemovesLeftover(states: seq<State>, actions: seq<Action>, i: nat, j: nat, p: Pid)
    requires Linked(states, actions) && i < |actions|
    requires p in states[i].procs && states[i].procs[p].Leading?
  {
    && i < j < |actions| && actions[j].RemoveStale? && actions[j].io
    && Holds(states[j], states[i].procs[p].gen) && !IsLeader(states[j], p)
  }

  lemma {:induction false} FindTakeover(states: seq<State>, actions: seq<Action>, i: nat, k: nat, p: Pid, gen: nat)
    returns (j: nat)
    requires IsRun(states, actions) && i < k < |states|
    requires forall x :: 0 <= x < k ==> Disciplined(states[x], actions[x])
    requires LeadIsOver(states[i], p, gen) && Holds(states[i], gen) && !Holds(states[k], gen)
    ensures i <= j < k && actions[j].RemoveStale? && actions[j].io
    ensures Holds(states[j], gen) && !IsLeader(states[j], p)
    decreases k - i
  {
    DisciplinedRun(states, actions, i);
    StepKeepsOver(states[i], actions[i], states[i + 1], p, gen);
    if Holds(states[i + 1], gen) {
      hide Do, Disciplined, IsRun;
      j := FindTakeover(states, actions, i + 1, k, p, gen);
    } else {
      LockIsTakenAway(states[i], actions[i], states[i + 1], p, gen);
      j := i;
    }
  }

  lemma {:induction false} RunKeepsOver(states: seq<State>, actions: seq<Action>, i: nat, k: nat, p: Pid, gen: nat)
    requires Linked(states, actions) && i <= k < |states| && LeadIsOver(states[i], p, gen)
    ensures LeadIsOver(states[k], p, gen)
    decreases k - i
  {
    if i < k {
      StepKeepsOver(states[i], actions[i], states[i + 1], p, gen);
      RunKeepsOver(states, actions, i + 1, k, p, gen);
    }
  }

  lemma LeadSucceeds(s: State, a: Action, t: State)
    requires Ledger(s) && LockOwned(s) && Do(s, a) == Some(t) && a.LeadOk?
    ensures a.p in s.procs && s.procs[a.p].Leading?
    ensures Holds(s, s.procs[a.p].gen) && Holds(t, s.procs[a.p].gen) && LeadIsOver(t, a.p, s.procs[a.p].gen)
  {
    assert IsLeader(s, a.p);
    WhereLeadersComeFrom(s, a, t);
  }

  /** A lead succeeds, its leftover lock is removed, and another agent that had passed the check leads. */
  ghost predicate LeadsAgain(states: seq<State>, actions: seq<Action>, i: nat, j: nat, c: nat, k: nat, m: nat)
    requires Linked(states, actions)
  {
    && i < j < k < m < |actions| && actions[i].LeadOk? && actions[m].LeadOk? && actions[i].p != actions[m].p
    && actions[i].p in states[i].procs && states[i].procs[actions[i].p].Leading?
    && RemovesLeftover(states, actions, i, j, actions[i].p)
    && PassedCheck(states, actions, c, k, actions[m].p)
    && WonAt(states, actions, k, m, actions[m].p)
  }

  /** The create that elects the second leader comes after the first success. */
  lemma WinIsLater(states: seq<State>, actions: seq<Action>, i: nat, k: nat, m: nat)
    requires IsRun(states, actions) && i < m < |actions| && actions[i].LeadOk? && actions[m].LeadOk?
    requires Ledger(states[i]) && LockOwned(states[i])
    requires WonAt(states, actions, k, m, actions[m].p)
    ensures i < k
  {
    var q := actions[m].p;
    LeadSucceeds(states[i], actions[i], states[i + 1]);
    OwnershipMeansOneLeader(states[i]);
    hide Do;
    assert IsLeader(states[i], actions[i].p);
    assert k < i ==> IsLeader(states[i], q);
  }

  /** What lies between any two successes of a disciplined run. */
  lemma BetweenSuccesses(states: seq<State>, actions: seq<Action>, i: nat, m: nat) returns (j: nat, c: nat, k: nat)
    requires IsRun(states, actions) && i < m < |actions| && actions[i].LeadOk? && actions[m].LeadOk?
    requires forall x :: 0 <= x < m ==> Disciplined(states[x], actions[x])
    ensures LeadsAgain(states, actions, i, j, c, k, m)
  {
    RunKeepsLedger(states, actions, i);
    DisciplinedRun(states, actions, i);
    RunKeepsLedger(states, actions, m);
    DisciplinedRun(states, actions, m);
    LeadSucceeds(states[i], actions[i], states[i + 1]);
    LeadSucceeds(states[m], actions[m], states[m + 1]);
    hide Do, Ledger, LockOwned, SuspectsAreDead, Disciplined, IsLeader;
    var p, q := actions[i].p, actions[m].p;
    var gen := states[i].procs[p].gen;
    k := FindWin(states, actions, m, q);
    WinIsLater(states, actions, i, k, m);
    c := FindCheck(states, actions, k, q);
    RunKeepsOver(states, actions, i + 1, k, p, gen);
    j := FindTakeover(states, actions, i + 1, k, p, gen);
  }

  // ----- counting successes -----

  lemma SuccessesAreCounted(s: State, a: Action, t: State)
    requires Do(s, a) == Some(t)
    ensures t.leadOks == s.leadOks + if a.LeadOk? then 1 else 0
  {
  }

  lemma {:induction false} OneSuccess(states: seq<State>, actions: seq<Action>, n: nat)
    requires IsRun(states, actions) && n < |states|
    ensures states[n].leadOks >= 1 <==> exists i: nat :: i < n && actions[i].LeadOk?
  {
    if n > 0 {
      SuccessesAreCounted(states[n - 1], actions[n - 1], states[n]);
      OneSuccess(states, actions, n - 1);
    }
  }

  lemma {:induction false} TwoSuccesses(states: seq<State>, actions: seq<Action>, n: nat)
    requires IsRun(states, actions) && n < |states|
    ensures states[n].leadOks >= 2 <==>
            exists i: nat, m: nat :: i < m < n && actions[i].LeadOk? && actions[m].LeadOk?
  {
    if n > 0 {
      SuccessesAreCounted(states[n - 1], actions[n - 1], states[n]);
      OneSuccess(states, actions, n - 1);
      TwoSuccesses(states, actions, n - 1);
    }
  }

  /**
   * Along a disciplined run the research succeeds twice exactly when a takeover removes
   * the lock that a finished leader left behind and an agent that had found no marker
   * before then creates its own lock without looking again, and leads.
   */
  lemma SecondLeadIff(states: seq<State>, actions: seq<Action>, n: nat)
    requires IsRun(states, actions) && n < |states|
    requires forall x :: 0 <= x < n ==> Disciplined(states[x], actions[x])
    ensures states[n].leadOks >= 2 <==>
            exists i: nat, j: nat, c: nat, k: nat, m: nat :: m < n && LeadsAgain(states, actions, i, j, c, k, m)
  {
    TwoSuccesses(states, actions, n);
    if states[n].leadOks >= 2 {
      var i: nat, m: nat :| i < m < n && actions[i].LeadOk? && actions[m].LeadOk?;
      var j, c, k := BetweenSuccesses(states, actions, i, m);
    }
  }
}
