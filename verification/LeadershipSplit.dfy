/** Which runs of the onboarding protocol have two live leaders: exactly those that rob one and let another in. */
module LeadershipSplit {
  import opened Results
  import opened Onboarding

  /** From state `i` to state `j` agent `q` leads under the lock numbered `gen`. */
  ghost predicate LedUnder(states: seq<State>, q: Pid, gen: nat, i: nat, j: nat)
    requires j < |states|
  {
    forall k :: i <= k <= j ==> IsLeader(states[k], q) && Gen(states[k], q) == gen
  }

  /** Action `i` takes the lock file from `q`, who goes on leading under it at least until state `n`. */
  ghost predicate WasRobbed(states: seq<State>, actions: seq<Action>, i: nat, n: nat, q: Pid)
    requires |states| == |actions| + 1
  {
    i < n < |states| && Robs(states[i], actions[i], q) && LedUnder(states, q, Gen(states[i], q), i, n)
  }

  /** A live leader either owns the lock file, or was robbed of it while leading under it ever since. */
  lemma {:induction false} OwnsOrWasRobbed(states: seq<State>, actions: seq<Action>, n: nat, q: Pid)
    requires |states| == |actions| + 1 && IsRun(states, actions) && n < |states| && IsLeader(states[n], q)
    ensures || (states[n].lock.Some? && states[n].lock.value.gen == Gen(states[n], q))
            || exists i: nat :: WasRobbed(states, actions, i, n, q)
  {
    if n > 0 {
      var s, a, t := states[n - 1], actions[n - 1], states[n];
      WhereLeadersComeFrom(s, a, t);
      if IsLeader(s, q) && Gen(s, q) == Gen(t, q) {
        OwnsOrWasRobbed(states, actions, n - 1, q);
        if s.lock.Some? && s.lock.value.gen == Gen(t, q) {
          if !(t.lock.Some? && t.lock.value.gen == Gen(t, q)) {
            assert WasRobbed(states, actions, n - 1, n, q);
          }
        } else {
          var i: nat :| WasRobbed(states, actions, i, n - 1, q);
          assert WasRobbed(states, actions, i, n, q);
        }
      }
    }
  }

  /**
   * Action `i` robs a leader, action `j` is another agent's successful create, and the robbed agent still leads,
   * under the same lock number, when that create is done.
   */
  ghost predicate RobbedAndReplaced(states: seq<State>, actions: seq<Action>, i: nat, j: nat, q: Pid)
    requires |states| == |actions| + 1
  {
    && i < j < |actions|
    && WasRobbed(states, actions, i, j + 1, q)
    && actions[j].Create? && actions[j].io && states[j].lock.None? && actions[j].p != q
  }

  lemma {:induction false} SplitComesFromRobbery(states: seq<State>, actions: seq<Action>, n: nat)
    requires |states| == |actions| + 1 && IsRun(states, actions) && n < |states| && !AtMostOneLeader(states[n])
    ensures exists i: nat, j: nat, q :: RobbedAndReplaced(states, actions, i, j, q)
  {
    if n == 0 {
    } else if !AtMostOneLeader(states[n - 1]) {
      SplitComesFromRobbery(states, actions, n - 1);
    } else {
      var s, a, t := states[n - 1], actions[n - 1], states[n];
      WhereLeadersComeFrom(s, a, t);
      var x: Pid, y: Pid :| IsLeader(t, x) && IsLeader(t, y) && x != y;
      var q := if IsLeader(s, x) && Gen(t, x) == Gen(s, x) then x else y;
      assert IsLeader(s, q) && Gen(s, q) == Gen(t, q);
      assert s.lock.None? && a.Create?;
      OwnsOrWasRobbed(states, actions, n - 1, q);
      var i: nat :| WasRobbed(states, actions, i, n - 1, q);
      assert WasRobbed(states, actions, i, n, q);
      assert RobbedAndReplaced(states, actions, i, n - 1, q);
    }
  }

  /**
   * The exact condition for split leadership: some state of a run has two live leaders if and only if some leader
   * is robbed of its lock file and still leads when another agent's create succeeds.
   */
  lemma LeadershipSplitsIff(states: seq<State>, actions: seq<Action>)
    requires |states| == |actions| + 1 && IsRun(states, actions)
    ensures (exists n :: 0 <= n < |states| && !AtMostOneLeader(states[n]))
       <==> (exists i: nat, j: nat, q :: RobbedAndReplaced(states, actions, i, j, q))
  {
    if n: nat :| n < |states| && !AtMostOneLeader(states[n]) {
      SplitComesFromRobbery(states, actions, n);
    }
    if i: nat, j: nat, q :| RobbedAndReplaced(states, actions, i, j, q) {
      var p := actions[j].p;
      assert Do(states[j], actions[j]) == Some(states[j + 1]);
      assert IsLeader(states[j + 1], p) && IsLeader(states[j + 1], q);
      assert !AtMostOneLeader(states[j + 1]);
    }
  }
}
