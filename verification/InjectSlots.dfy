/**
 * Injection slots: each SessionStart hook tries `.injected.0`, `.injected.1`, ... with
 * an exclusive create and prints the overview only if one create succeeds. Hooks run
 * concurrently; `Do` is one attempt at one slot file.
 */
module InjectSlots {
  import opened Results
  import opened Sets

  type Pid = nat

  datatype Phase =
    | Trying(slot: nat)
    | Claimed(slot: nat)
    | Exhausted
    | Failed
    | Crashed

  datatype State = State(slots: set<nat>, procs: map<Pid, Phase>)

  datatype Action =
    | Start(p: Pid)
    | Attempt(p: Pid, io: bool)
    | Crash(p: Pid)

  const EMPTY := State({}, map[])

  function Do(limit: nat, s: State, a: Action): Option<State> {
    if a.Start? then
      if a.p in s.procs then None else Some(s.(procs := s.procs[a.p := Trying(0)]))
    else if a.p !in s.procs || !s.procs[a.p].Trying? then None
    else
      var i := s.procs[a.p].slot;
      match a
      case Crash(p) => Some(s.(procs := s.procs[p := Crashed]))
      case Attempt(p, io) =>
        if i >= limit then Some(s.(procs := s.procs[p := Exhausted]))
        else if !io then Some(s.(procs := s.procs[p := Failed]))
        else if i in s.slots then Some(s.(procs := s.procs[p := Trying(i + 1)]))
        else Some(State(s.slots + {i}, s.procs[p := Claimed(i)]))
  }

  ghost predicate IsRun(limit: nat, states: seq<State>, actions: seq<Action>) {
    && |states| == |actions| + 1
    && states[0] == EMPTY
    && forall i :: 0 <= i < |actions| ==> Do(limit, states[i], actions[i]) == Some(states[i + 1])
  }

  /** The numbers in use are 0, 1, ... without a gap. */
  ghost predicate Gapless(slots: set<nat>) {
    forall n: nat :: n in slots <==> n < |slots|
  }

  function Winners(s: State): set<Pid> { set p | p in s.procs && s.procs[p].Claimed? }

  function Losers(s: State): set<Pid> { set p | p in s.procs && (s.procs[p].Failed? || s.procs[p].Crashed?) }

  /** What each hook knows when `n` slots are in use. */
  ghost predicate Located(limit: nat, n: nat, procs: map<Pid, Phase>) {
    && (forall p :: p in procs && procs[p].Trying? ==> procs[p].slot <= n)
    && (forall p :: p in procs && procs[p].Claimed? ==> procs[p].slot < n)
    && (forall p, q :: p in procs && q in procs && procs[p].Claimed? && procs[p] == procs[q] ==> p == q)
    && (forall p :: p in procs && procs[p].Exhausted? ==> n == limit)
  }

  ghost predicate Inv(limit: nat, s: State) {
    && Gapless(s.slots)
    && |s.slots| <= limit
    && |Winners(s)| == |s.slots|
    && Located(limit, |s.slots|, s.procs)
  }

  lemma GrowsWithoutGap(slots: set<nat>, i: nat)
    requires Gapless(slots) && i !in slots && i <= |slots|
    ensures i == |slots| && Gapless(slots + {i}) && |slots + {i}| == |slots| + 1
  {
    assert |slots + {i}| == |slots| + 1;
  }

  lemma StepWithoutClaim(limit: nat, s: State, a: Action, t: State)
    requires Inv(limit, s) && Do(limit, s, a) == Some(t) && t.slots == s.slots
    ensures Located(limit, |t.slots|, t.procs) && Winners(t) == Winners(s)
  {
    var n := |s.slots|;
    if a.Attempt? {
      assert s.procs[a.p].slot in s.slots ==> s.procs[a.p].slot < n;
    }
    hide Gapless;
  }

  lemma StepWithClaim(limit: nat, s: State, a: Action, t: State)
    requires Inv(limit, s) && Do(limit, s, a) == Some(t) && t.slots != s.slots
    ensures a.Attempt? && s.procs[a.p] == Trying(|s.slots|) && |s.slots| < limit
    ensures t == State(s.slots + {|s.slots|}, s.procs[a.p := Claimed(|s.slots|)])
    ensures Gapless(t.slots) && |t.slots| == |s.slots| + 1
  {
    GrowsWithoutGap(s.slots, s.procs[a.p].slot);
  }

  lemma ClaimKeepsLocated(limit: nat, n: nat, procs: map<Pid, Phase>, p: Pid)
    requires Located(limit, n, procs) && n < limit && p in procs && procs[p] == Trying(n)
    ensures Located(limit, n + 1, procs[p := Claimed(n)])
  {
  }

  lemma StepKeepsInv(limit: nat, s: State, a: Action, t: State)
    requires Inv(limit, s) && Do(limit, s, a) == Some(t)
    ensures Inv(limit, t)
  {
    if t.slots == s.slots {
      StepWithoutClaim(limit, s, a, t);
    } else {
      StepWithClaim(limit, s, a, t);
      ClaimKeepsLocated(limit, |s.slots|, s.procs, a.p);
      hide Gapless, Do, Located;
      assert Winners(t) == Winners(s) + {a.p};
    }
  }

  lemma {:induction false} RunKeepsInv(limit: nat, states: seq<State>, actions: seq<Action>, i: nat)
    requires IsRun(limit, states, actions) && i < |states|
    ensures Inv(limit, states[i])
  {
    if i == 0 {
      assert Winners(EMPTY) == {};
    } else {
      RunKeepsInv(limit, states, actions, i - 1);
      StepKeepsInv(limit, states[i - 1], actions[i - 1], states[i]);
    }
  }

  /**
   * In every interleaving the slot files are `.injected.0` up to some number without a
   * gap, there is one successful hook per slot file and no two share a file, and there
   * are never more than `limit`.
   */
  lemma SlotsAreCapped(limit: nat, states: seq<State>, actions: seq<Action>, i: nat)
    requires IsRun(limit, states, actions) && i < |states|
    ensures |Winners(states[i])| == |states[i].slots| <= limit
    ensures forall n: nat :: n in states[i].slots <==> n < |states[i].slots|
    ensures forall p, q :: p in Winners(states[i]) && q in Winners(states[i]) ==>
              (states[i].procs[p].slot == states[i].procs[q].slot ==> p == q)
  {
    RunKeepsInv(limit, states, actions, i);
  }

  /**
   * Once every hook has finished, the successes are the smaller of `limit` and the
   * number of hooks, but for those that met an error or died; with no such hook it is
   * exactly the smaller.
   */
  lemma SlotsAreUsedUp(limit: nat, states: seq<State>, actions: seq<Action>, i: nat)
    requires IsRun(limit, states, actions) && i < |states|
    requires forall p :: p in states[i].procs ==> !states[i].procs[p].Trying?
    ensures var s := states[i];
            && (limit <= |Winners(s)| || |Winners(s)| + |Losers(s)| == |s.procs|)
            && (Losers(s) == {} ==> |Winners(s)| == if limit <= |s.procs| then limit else |s.procs|)
  {
    RunKeepsInv(limit, states, actions, i);
    var s := states[i];
    SubsetSize(Winners(s), s.procs.Keys);
    if forall p :: p in s.procs ==> !s.procs[p].Exhausted? {
      assert Winners(s) + Losers(s) == s.procs.Keys;
      assert Winners(s) !! Losers(s);
    }
  }

  /** The slot files as the code of one hook works on them; the ghost history is a run of the protocol. */
  class SlotDir {
    const limit: nat
    var slots: set<nat>
    ghost var states: seq<State>
    ghost var actions: seq<Action>

    ghost predicate Valid()
      reads this
    {
      |states| == |actions| + 1 && IsRun(limit, states, actions) && View().slots == slots
    }

    /** The protocol state the history has reached. */
    ghost function View(): State
      reads this
      requires |states| > 0
    {
      states[|states| - 1]
    }

    constructor (limit: nat)
      ensures Valid() && slots == {} && this.limit == limit && View() == EMPTY
    {
      this.limit, slots := limit, {};
      states, actions := [EMPTY], [];
    }

    ghost method Record(a: Action)
      requires |states| == |actions| + 1 && IsRun(limit, states, actions) && Do(limit, View(), a).Some?
      modifies this`states, this`actions
      ensures |states| == |actions| + 1 && IsRun(limit, states, actions)
      ensures View() == Do(limit, old(View()), a).value
    {
      states, actions := states + [Do(limit, View(), a).value], actions + [a];
    }

    /** `claim_inject_slot` by one hook while no other hook runs; `broken` is a slot whose create fails. */
    method ClaimInjectSlot(p: Pid, broken: Option<nat>) returns (claimed: bool)
      requires Valid() && p !in View().procs
      modifies this
      ensures Valid() && p in View().procs
      ensures claimed <==> exists i: nat :: i < limit && FirstFree(old(slots), broken, i)
      ensures slots == old(slots) + set i: nat | i < limit && FirstFree(old(slots), broken, i)
      ensures claimed <==> View().procs[p].Claimed?
      ensures View().procs[p].Exhausted? <==> forall i: nat :: i < limit ==> i in old(slots) && broken != Some(i)
    {
      hide IsRun;
      Record(Start(p));
      for i := 0 to limit
        invariant |states| == |actions| + 1 && IsRun(limit, states, actions) && View().slots == slots
        invariant slots == old(slots) && p in View().procs && View().procs[p] == Trying(i)
        invariant forall j: nat :: j < i ==> j in slots && broken != Some(j)
      {
        Record(Attempt(p, broken != Some(i)));
        if broken == Some(i) {
          return false;
        }
        if i !in slots {
          slots := slots + {i};
          assert FirstFree(old(slots), broken, i);
          return true;
        }
      }
      Record(Attempt(p, true));
      return false;
    }
  }

  /** Every slot below `i` is taken and can be tried; `i` is free. */
  ghost predicate FirstFree(slots: set<nat>, broken: Option<nat>, i: nat) {
    i !in slots && broken != Some(i) && forall j: nat :: j < i ==> j in slots && broken != Some(j)
  }
}
