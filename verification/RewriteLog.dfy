/**
 * The measure-and-suppress loop: every emitted rewrite is logged, its output is
 * measured afterwards, and a symbol upgrade that was over budget is suppressed for a week.
 */
module RewriteLog {
  import opened Results
  import opened Sets
  import opened Text

  const SYMBOL_UPGRADE_BUDGET_TOKENS: int := 4000
  const MAX_ROWS: nat := 12_000
  const PRUNE_EVERY: nat := 64
  const SUPPRESS_WINDOW_SECS: int := 7 * 24 * 60 * 60

  datatype Verdict = Helped | MetaError

  datatype LogRow = LogRow(ts: int, rule: string, sig: string, rewritten: string, outTokens: Option<int>,
      verdict: Option<Verdict>)

  datatype Suppression = Suppression(rule: string, since: int)

  /** The two tables, and the last id handed out. */
  datatype Tables = Tables(log: map<nat, LogRow>, lastId: nat, suppress: map<string, Suppression>)

  const EMPTY := Tables(map[], 0, map[])

  function Signature(rule: string, key: string): string { rule + ":" + key }

  predicate IsSymbolUpgrade(rule: string) { EndsWith(rule, "crabcc-refs") }

  predicate OverBudget(rule: string, outTokens: int) {
    IsSymbolUpgrade(rule) && outTokens > SYMBOL_UPGRADE_BUDGET_TOKENS
  }

  // ----- the statements, each atomic -----

  function Insert(t: Tables, row: LogRow): Tables { t.(log := t.log[t.lastId + 1 := row], lastId := t.lastId + 1) }

  /** `DELETE ... WHERE id <= (SELECT MAX(id)) - 12000`, on every 64th insert; the newest id is the greatest. */
  function Prune(t: Tables): Tables {
    if t.lastId % PRUNE_EVERY != 0 then t
    else t.(log := map id | id in t.log && !(id as int <= t.lastId as int - MAX_ROWS as int) :: t.log[id])
  }

  function Logged(t: Tables, now: int, rule: string, sig: string, rewritten: string): Tables {
    Prune(Insert(t, LogRow(now, rule, sig, rewritten, None, None)))
  }

  /** The rows the measurement query may pick: unmeasured, with this command text, and no newer one like it. */
  predicate Picks(t: Tables, command: string, id: nat) {
    && id in t.log && t.log[id].rewritten == command && t.log[id].verdict.None?
    && forall other :: other in t.log && t.log[other].rewritten == command && t.log[other].verdict.None? ==>
         t.log[other].ts <= t.log[id].ts
  }

  predicate HasPick(t: Tables, command: string) {
    exists id :: id in t.log && t.log[id].rewritten == command && t.log[id].verdict.None?
  }

  function Measured(t: Tables, now: int, id: nat, outTokens: int): Tables
    requires id in t.log
  {
    var row := t.log[id];
    var over := OverBudget(row.rule, outTokens);
    t.(log := t.log[id := row.(outTokens := Some(outTokens), verdict := Some(if over then MetaError else Helped))],
       suppress := if over then t.suppress[row.sig := Suppression(row.rule, now)] else t.suppress)
  }

  predicate IsSuppressed(t: Tables, now: int, sig: string) {
    sig in t.suppress && t.suppress[sig].since >= now - SUPPRESS_WINDOW_SECS
  }

  // ----- runs -----

  /** What happens to the database; a measurement names the row that the query picked. */
  datatype Event =
    | Log(now: int, rule: string, key: string, rewritten: string)
    | Measure(now: int, command: string, outTokens: int, id: nat)

  predicate Enabled(t: Tables, e: Event) { e.Log? || Picks(t, e.command, e.id) }

  function Apply(t: Tables, e: Event): Tables
    requires Enabled(t, e)
  {
    match e
    case Log(now, rule, key, rewritten) => Logged(t, now, rule, Signature(rule, key), rewritten)
    case Measure(now, _, outTokens, id) => Measured(t, now, id, outTokens)
  }

  /** `states[i]` is the database after the first `i` events. */
  ghost predicate IsRun(states: seq<Tables>, events: seq<Event>) {
    && |states| == |events| + 1 && states[0] == EMPTY
    && forall i :: 0 <= i < |events| ==> Enabled(states[i], events[i]) && states[i + 1] == Apply(states[i], events[i])
  }

  /** Event `i` measured a rewrite with signature `sig` and found it over budget. */
  ghost predicate IsOffence(states: seq<Tables>, events: seq<Event>, i: nat, sig: string)
    requires IsRun(states, events) && i < |events|
  {
    && events[i].Measure?
    && states[i].log[events[i].id].sig == sig
    && EndsWith(states[i].log[events[i].id].rule, "crabcc-refs") && events[i].outTokens > 4000
  }

  ghost predicate MonotoneClock(events: seq<Event>, now: int) {
    && (forall i, j :: 0 <= i < j < |events| ==> events[i].now <= events[j].now)
    && (forall i :: 0 <= i < |events| ==> events[i].now <= now)
  }

  /** Event `i` is the last of the first `n` that was an offence by `sig`. */
  ghost predicate IsLatestOffence(states: seq<Tables>, events: seq<Event>, n: nat, i: nat, sig: string)
    requires IsRun(states, events) && n <= |events|
  {
    && i < n && IsOffence(states, events, i, sig)
    && forall j :: i < j < n ==> !IsOffence(states, events, j, sig)
  }

  lemma SuppressionStep(states: seq<Tables>, events: seq<Event>, n: nat, sig: string)
    requires IsRun(states, events) && n < |events|
    ensures IsOffence(states, events, n, sig) ==>
              sig in states[n + 1].suppress && states[n + 1].suppress[sig].since == events[n].now
    ensures !IsOffence(states, events, n, sig) ==>
              && (sig in states[n + 1].suppress <==> sig in states[n].suppress)
              && (sig in states[n].suppress ==> states[n + 1].suppress[sig] == states[n].suppress[sig])
  {
    hide Signature, Picks, EndsWith;
    assert states[n + 1] == Apply(states[n], events[n]);
  }

  /** The suppression table remembers, for each signature, exactly its latest offence. */
  lemma {:induction false} SuppressedByLatestOffence(states: seq<Tables>, events: seq<Event>, n: nat, sig: string)
    requires IsRun(states, events) && n <= |events|
    ensures sig in states[n].suppress <==> exists i: nat :: IsLatestOffence(states, events, n, i, sig)
    ensures forall i: nat :: IsLatestOffence(states, events, n, i, sig) ==>
            states[n].suppress[sig].since == events[i].now
  {
    if n > 0 {
      SuppressedByLatestOffence(states, events, n - 1, sig);
      SuppressionStep(states, events, n - 1, sig);
      forall i: nat ensures IsLatestOffence(states, events, n, i, sig) <==>
                            if IsOffence(states, events, n - 1, sig) then i == n - 1
                            else IsLatestOffence(states, events, n - 1, i, sig)
      {
        LatestStep(states, events, n, i, sig);
      }
      hide IsRun, IsOffence, IsLatestOffence;
      if IsOffence(states, events, n - 1, sig) {
        assert IsLatestOffence(states, events, n, n - 1, sig);
      } else if sig in states[n].suppress {
        var i: nat :| IsLatestOffence(states, events, n - 1, i, sig);
        assert IsLatestOffence(states, events, n, i, sig);
      }
    }
  }

  lemma LatestStep(states: seq<Tables>, events: seq<Event>, n: nat, i: nat, sig: string)
    requires IsRun(states, events) && 0 < n <= |events|
    ensures IsLatestOffence(states, events, n, i, sig) <==>
            if IsOffence(states, events, n - 1, sig) then i == n - 1
            else IsLatestOffence(states, events, n - 1, i, sig)
  {
    hide IsRun, IsOffence;
  }

  lemma {:induction false} SomeOffenceIsLatest(states: seq<Tables>, events: seq<Event>, n: nat, i: nat, sig: string)
    returns (latest: nat)
    requires IsRun(states, events) && i < n <= |events| && IsOffence(states, events, i, sig)
    ensures i <= latest && IsLatestOffence(states, events, n, latest, sig)
    decreases n - i
  {
    hide IsRun, IsOffence;
    if j :| i < j < n && IsOffence(states, events, j, sig) {
      latest := SomeOffenceIsLatest(states, events, n, j, sig);
    } else {
      latest := i;
    }
  }

  /** How many of the first `n` events logged a rewrite. */
  function LogsIn(events: seq<Event>, n: nat): nat
    requires n <= |events|
  {
    if n == 0 then 0 else LogsIn(events, n - 1) + (if events[n - 1].Log? then 1 else 0)
  }

  /** Event `i` logged the row with this id. */
  ghost predicate Logs(events: seq<Event>, i: nat, id: nat, row: LogRow) {
    && i < |events| && events[i].Log? && id == LogsIn(events, i + 1)
    && row.ts == events[i].now && row.rule == events[i].rule && row.rewritten == events[i].rewritten
    && row.sig == events[i].rule + ":" + events[i].key
  }

  lemma StepKeepsOrigin(t: Tables, e: Event, id: nat)
    requires Enabled(t, e) && id in Apply(t, e).log
    ensures Apply(t, e).lastId == t.lastId + (if e.Log? then 1 else 0)
    ensures var row := Apply(t, e).log[id];
            if id in t.log && (e.Measure? || id != t.lastId + 1) then
              && row.ts == t.log[id].ts && row.rule == t.log[id].rule && row.sig == t.log[id].sig
              && row.rewritten == t.log[id].rewritten
            else
              && e.Log? && id == t.lastId + 1 && row.ts == e.now && row.rule == e.rule
              && row.sig == e.rule + ":" + e.key && row.rewritten == e.rewritten
  {
    hide OverBudget;
  }

  /** Every row was logged by exactly the event that its id counts. */
  lemma {:induction false} RowsAreLogged(states: seq<Tables>, events: seq<Event>, n: nat)
    requires IsRun(states, events) && n <= |events|
    ensures states[n].lastId == LogsIn(events, n)
    ensures forall id :: id in states[n].log ==> exists i: nat :: i < n && Logs(events, i, id, states[n].log[id])
  {
    if n > 0 {
      RowsAreLogged(states, events, n - 1);
      var before, e := states[n - 1], events[n - 1];
      assert Enabled(before, e) && states[n] == Apply(before, e);
      hide IsRun, Apply, Enabled;
      forall id | id in states[n].log ensures exists i: nat :: i < n && Logs(events, i, id, states[n].log[id]) {
        StepKeepsOrigin(before, e, id);
        if id in before.log && (e.Measure? || id != before.lastId + 1) {
          var i: nat :| i < n - 1 && Logs(events, i, id, before.log[id]);
          assert Logs(events, i, id, states[n].log[id]);
        } else {
          assert Logs(events, n - 1, id, states[n].log[id]);
        }
      }
      CountsTheLogs(before, e);
    }
  }

  lemma CountsTheLogs(t: Tables, e: Event)
    requires Enabled(t, e)
    ensures Apply(t, e).lastId == t.lastId + (if e.Log? then 1 else 0)
  {
    hide Picks, OverBudget, Signature;
  }

  lemma {:induction false} LaterLogsHaveLaterIds(events: seq<Event>, i: nat, j: nat)
    requires i < j < |events| && events[j].Log?
    ensures LogsIn(events, i + 1) < LogsIn(events, j + 1)
    decreases j - i
  {
    LogsGrow(events, i + 1, j);
  }

  lemma {:induction false} LogsGrow(events: seq<Event>, i: nat, j: nat)
    requires i <= j <= |events|
    ensures LogsIn(events, i) <= LogsIn(events, j)
    decreases j - i
  {
    if i < j {
      LogsGrow(events, i, j - 1);
    }
  }

  /** Event `i` logged a symbol upgrade with signature `sig`, and event `j` measured that row at over 4000 tokens. */
  ghost predicate FoundTooLong(events: seq<Event>, i: nat, j: nat, sig: string) {
    && i < j < |events| && events[i].Log? && events[j].Measure? && events[j].id == LogsIn(events, i + 1)
    && events[i].rule + ":" + events[i].key == sig
    && EndsWith(events[i].rule, "crabcc-refs") && events[j].outTokens > 4000
  }

  lemma OffenceIff(states: seq<Tables>, events: seq<Event>, j: nat, sig: string)
    requires IsRun(states, events) && j < |events|
    ensures IsOffence(states, events, j, sig) <==> exists i: nat :: FoundTooLong(events, i, j, sig)
  {
    if events[j].Measure? {
      var id := events[j].id;
      RowsAreLogged(states, events, j);
      assert Enabled(states[j], events[j]);
      var i: nat :| i < j && Logs(events, i, id, states[j].log[id]);
      forall i': nat | FoundTooLong(events, i', j, sig) ensures i' == i {
        if i' < i {
          LaterLogsHaveLaterIds(events, i', i);
        } else if i < i' {
          LaterLogsHaveLaterIds(events, i, i');
        }
      }
      hide IsRun, EndsWith;
      assert IsOffence(states, events, j, sig) <==> FoundTooLong(events, i, j, sig);
    }
  }

  /**
   * Under a clock that does not go back, a signature is suppressed at a time exactly when some row that was logged
   * with it by a symbol upgrade was measured, in the last seven days, at more than 4000 tokens.
   */
  lemma SuppressedIffRecentOffence(states: seq<Tables>, events: seq<Event>, now: int, sig: string)
    requires IsRun(states, events) && MonotoneClock(events, now)
    ensures IsSuppressed(states[|events|], now, sig) <==>
            exists i: nat, j: nat :: FoundTooLong(events, i, j, sig) && events[j].now >= now - 604_800
  {
    var n := |events|;
    SuppressedByLatestOffence(states, events, n, sig);
    forall j | 0 <= j < n
      ensures IsOffence(states, events, j, sig) <==> exists i: nat :: FoundTooLong(events, i, j, sig)
    {
      OffenceIff(states, events, j, sig);
    }
    hide IsRun, IsOffence, FoundTooLong;
    forall i: nat, j: nat | FoundTooLong(events, i, j, sig) && j < n && events[j].now >= now - SUPPRESS_WINDOW_SECS
      ensures IsSuppressed(states[n], now, sig)
    {
      var latest := SomeOffenceIsLatest(states, events, n, j, sig);
      assert events[j].now <= events[latest].now;
    }
    MeasuredEvents(events, sig);
  }

  lemma MeasuredEvents(events: seq<Event>, sig: string)
    ensures forall i: nat, j: nat :: FoundTooLong(events, i, j, sig) ==> j < |events|
  {
  }

  // ----- one verdict per row -----

  lemma IdsOnlyGrow(t: Tables, e: Event, id: nat)
    requires Enabled(t, e) && id <= t.lastId
    ensures id <= Apply(t, e).lastId
    ensures id in Apply(t, e).log ==> id in t.log
    ensures id in Apply(t, e).log && t.log[id].verdict.Some? ==> Apply(t, e).log[id] == t.log[id]
  {
    hide OverBudget, Signature;
  }

  lemma MeasureGivesVerdict(t: Tables, e: Event)
    requires Enabled(t, e) && e.Measure?
    ensures e.id in Apply(t, e).log && Apply(t, e).log[e.id].verdict.Some?
    ensures var row := Apply(t, e).log[e.id];
            && row.outTokens == Some(e.outTokens) && row.rule == t.log[e.id].rule
            && (row.verdict == Some(MetaError) <==> EndsWith(row.rule, "crabcc-refs") && e.outTokens > 4000)
    ensures Apply(t, e).lastId == t.lastId
  {
    hide Signature, EndsWith;
  }

  ghost predicate IdsInRange(t: Tables) {
    forall id :: id in t.log ==> id <= t.lastId
  }

  lemma {:induction false} RunKeepsIdsInRange(states: seq<Tables>, events: seq<Event>, n: nat)
    requires IsRun(states, events) && n <= |events|
    ensures IdsInRange(states[n])
  {
    if n > 0 {
      RunKeepsIdsInRange(states, events, n - 1);
      hide OverBudget, Signature;
      assert states[n] == Apply(states[n - 1], events[n - 1]);
    }
  }

  /** Once measured, a row keeps that measurement for as long as it is kept at all. */
  lemma {:induction false} MeasurementIsFinal(states: seq<Tables>, events: seq<Event>, i: nat, n: nat)
    requires IsRun(states, events) && i < n <= |events| && events[i].Measure?
    ensures var id := events[i].id;
            && id <= states[n].lastId
            && (id in states[n].log ==>
                    var row := states[n].log[id];
                    && row.verdict.Some? && row.outTokens == Some(events[i].outTokens)
                    && (row.verdict == Some(MetaError) <==>
                            EndsWith(row.rule, "crabcc-refs") && events[i].outTokens > 4000))
  {
    var id := events[i].id;
    if n == i + 1 {
      MeasureGivesVerdict(states[i], events[i]);
      RunKeepsIdsInRange(states, events, i);
      assert states[n] == Apply(states[i], events[i]);
    } else {
      MeasurementIsFinal(states, events, i, n - 1);
      IdsOnlyGrow(states[n - 1], events[n - 1], id);
      assert states[n] == Apply(states[n - 1], events[n - 1]);
    }
  }

  /** No two measurements of a run hit the same log row. */
  lemma EachRowMeasuredOnce(states: seq<Tables>, events: seq<Event>, i: nat, j: nat)
    requires IsRun(states, events) && i < j < |events| && events[i].Measure? && events[j].Measure?
    ensures events[i].id != events[j].id
  {
    MeasurementIsFinal(states, events, i, j);
    assert Enabled(states[j], events[j]);
  }

  // ----- only symbol upgrades are ever suppressed -----

  /** Rule names contain no colon, so a signature can be taken apart again. */
  lemma SignatureIsInjective(rule: string, key: string, rule': string, key': string)
    requires ':' !in rule && ':' !in rule' && Signature(rule, key) == Signature(rule', key')
    ensures rule == rule' && key == key'
  {
    var s, s' := Signature(rule, key), Signature(rule', key');
    assert s[|rule|] == ':' && s'[|rule'|] == ':';
    assert rule == s[..|rule|] && rule' == s'[..|rule'|];
    assert key == s[|rule| + 1..] && key' == s'[|rule'| + 1..];
  }

  ghost predicate RuleNames(events: seq<Event>) {
    forall i :: 0 <= i < |events| && events[i].Log? ==> ':' !in events[i].rule
  }

  ghost predicate WellSigned(rule: string, sig: string) { ':' !in rule && exists key :: sig == Signature(rule, key) }

  ghost predicate Signed(t: Tables) {
    && (forall id :: id in t.log ==> WellSigned(t.log[id].rule, t.log[id].sig))
    && (forall sig :: sig in t.suppress ==>
            WellSigned(t.suppress[sig].rule, sig) && IsSymbolUpgrade(t.suppress[sig].rule))
  }

  lemma {:induction false} RunKeepsSigned(states: seq<Tables>, events: seq<Event>, n: nat)
    requires IsRun(states, events) && RuleNames(events) && n <= |events|
    ensures Signed(states[n])
  {
    if n > 0 {
      RunKeepsSigned(states, events, n - 1);
      var e := events[n - 1];
      hide Signature, IsSymbolUpgrade;
      assert states[n] == Apply(states[n - 1], e);
      if e.Log? {
        assert WellSigned(e.rule, Signature(e.rule, e.key));
      }
      hide WellSigned;
    }
  }

  /** Whatever is measured, a rewrite by any other rule is never suppressed. */
  lemma OtherRulesAreNeverSuppressed(states: seq<Tables>, events: seq<Event>, now: int, rule: string, key: string)
    requires IsRun(states, events) && RuleNames(events)
    requires ':' !in rule && !EndsWith(rule, "crabcc-refs")
    ensures !IsSuppressed(states[|events|], now, Signature(rule, key))
  {
    RunKeepsSigned(states, events, |events|);
    var t, sig := states[|events|], Signature(rule, key);
    hide IsRun, Signature, EndsWith;
    if sig in t.suppress {
      var key' :| sig == Signature(t.suppress[sig].rule, key');
      SignatureIsInjective(rule, key, t.suppress[sig].rule, key');
    }
  }

  // ----- the size of the log -----

  /** The ids up to this one have been pruned once `lastId` ids were handed out. */
  function PrunedTo(lastId: nat): nat {
    var mark := lastId / PRUNE_EVERY * PRUNE_EVERY;
    if mark <= MAX_ROWS then 0 else mark - MAX_ROWS
  }

  /** The log holds exactly the ids after the last pruning point. */
  ghost predicate Consecutive(t: Tables) {
    forall id: nat :: id in t.log <==> PrunedTo(t.lastId) < id <= t.lastId
  }

  lemma PrunedToStep(lastId: nat)
    ensures lastId % PRUNE_EVERY != 0 && lastId > 0 ==> PrunedTo(lastId) == PrunedTo(lastId - 1)
    ensures lastId % PRUNE_EVERY == 0 ==> PrunedTo(lastId) == if lastId <= MAX_ROWS then 0 else lastId - MAX_ROWS
    ensures lastId > 0 ==> PrunedTo(lastId - 1) <= PrunedTo(lastId) < lastId
  {
  }

  lemma StepKeepsConsecutive(t: Tables, e: Event)
    requires Consecutive(t) && Enabled(t, e)
    ensures Consecutive(Apply(t, e))
  {
    hide OverBudget, Signature, PrunedTo;
    if e.Log? {
      PrunedToStep(t.lastId + 1);
    }
  }

  lemma {:induction false} RunKeepsConsecutive(states: seq<Tables>, events: seq<Event>, n: nat)
    requires IsRun(states, events) && n <= |events|
    ensures Consecutive(states[n])
  {
    if n > 0 {
      RunKeepsConsecutive(states, events, n - 1);
      StepKeepsConsecutive(states[n - 1], events[n - 1]);
    }
  }

  lemma {:induction false} CountInterval(s: set<nat>, lo: nat, hi: nat)
    requires lo <= hi && forall id: nat :: id in s <==> lo < id <= hi
    ensures |s| == hi - lo
    decreases hi - lo
  {
    if lo == hi {
      assert s == {};
    } else {
      CountInterval(s - {hi}, lo, hi - 1);
      assert |s| == |s - {hi}| + 1;
    }
  }

  /**
   * After every statement the log holds exactly the ids past the 12000 up to the last multiple of 64, which are at
   * most 12063.
   */
  lemma LogIsBounded(states: seq<Tables>, events: seq<Event>, n: nat)
    requires IsRun(states, events) && n <= |events|
    ensures var last := states[n].lastId;
            forall id: nat :: id in states[n].log <==> 0 < id <= last && id > last / 64 * 64 - 12_000
    ensures |states[n].log| <= 12_063
  {
    RunKeepsConsecutive(states, events, n);
    var t := states[n];
    CountInterval(t.log.Keys, PrunedTo(t.lastId), t.lastId);
    assert |t.log| == |t.log.Keys|;
  }

  // ----- the code -----

  /** The internal database, as the rewrite hook works on it; its ghost history is a run. */
  class Ledger {
    var log: map<nat, LogRow>
    var lastId: nat
    var suppress: map<string, Suppression>
    ghost var states: seq<Tables>
    ghost var events: seq<Event>

    ghost function View(): Tables
      reads this
    {
      Tables(log, lastId, suppress)
    }

    ghost predicate Valid()
      reads this
    {
      IsRun(states, events) && states[|events|] == View()
    }

    constructor ()
      ensures Valid() && View() == EMPTY && events == []
    {
      log, lastId, suppress := map[], 0, map[];
      states, events := [EMPTY], [];
    }

    ghost method Record(e: Event)
      requires IsRun(states, events) && Enabled(states[|events|], e)
      modifies this`states, this`events
      ensures IsRun(states, events) && events == old(events) + [e]
      ensures states[|events|] == Apply(old(states[|events|]), e)
    {
      states, events := states + [Apply(states[|events|], e)], events + [e];
    }

    /** `log_event` and `maybe_prune` */
    method LogEvent(now: int, rule: string, key: string, rewritten: string)
      requires Valid()
      modifies this
      ensures Valid() && events == old(events) + [Log(now, rule, key, rewritten)]
    {
      hide IsRun, Signature;
      Record(Log(now, rule, key, rewritten));
      lastId := lastId + 1;
      log := log[lastId := LogRow(now, rule, Signature(rule, key), rewritten, None, None)];
      if lastId % PRUNE_EVERY == 0 {
        log := map id | id in log && !(id as int <= lastId as int - MAX_ROWS as int) :: log[id];
      }
    }

    /** `ORDER BY ts DESC LIMIT 1` over the unmeasured rows with this text. */
    method NewestUnmeasured(command: string) returns (id: Option<nat>)
      ensures id.Some? ==> Picks(View(), command, id.value)
      ensures id.None? ==> !HasPick(View(), command)
    {
      id := None;
      var left := log.Keys;
      while left != {}
        invariant left <= log.Keys
        invariant id.None? ==> forall k :: k in log && k !in left ==>
                !(log[k].rewritten == command && log[k].verdict.None?)
        invariant id.Some? ==> id.value in log && log[id.value].rewritten == command && log[id.value].verdict.None?
        invariant id.Some? ==>
                forall k :: k in log && k !in left && log[k].rewritten == command && log[k].verdict.None? ==>
                                 log[k].ts <= log[id.value].ts
        decreases |left|
      {
        ghost var some := HasMember(left);
        var k :| k in left;
        if log[k].rewritten == command && log[k].verdict.None? && (id.None? || log[k].ts > log[id.value].ts) {
          id := Some(k);
        }
        left := left - {k};
      }
    }

    /** `measure_by_command` */
    method MeasureByCommand(now: int, command: string, outTokens: int) returns (verdict: Option<Verdict>)
      requires Valid()
      modifies this
      ensures Valid()
      ensures verdict.None? <==> !HasPick(old(View()), command)
      ensures verdict.None? ==> View() == old(View()) && events == old(events)
      ensures verdict.Some? ==>
                exists id :: Picks(old(View()), command, id)
                          && events == old(events) + [Measure(now, command, outTokens, id)]
                          && verdict == Some(if EndsWith(old(log)[id].rule, "crabcc-refs") && outTokens > 4000
                                             then MetaError else Helped)
    {
      hide IsRun, EndsWith;
      var picked := NewestUnmeasured(command);
      if picked.None? {
        return None;
      }
      var id := picked.value;
      Record(Measure(now, command, outTokens, id));
      var row := log[id];
      var over := OverBudget(row.rule, outTokens);
      verdict := Some(if over then MetaError else Helped);
      log := log[id := row.(outTokens := Some(outTokens), verdict := verdict)];
      if over {
        suppress := suppress[row.sig := Suppression(row.rule, now)];
      }
    }

    /** `is_suppressed`: what it answers is a fact about the ledger's history. */
    method CheckSuppressed(now: int, sig: string) returns (yes: bool)
      requires Valid()
      ensures yes == IsSuppressed(View(), now, sig)
      ensures MonotoneClock(events, now) ==>
                (yes <==> exists i: nat, j: nat :: FoundTooLong(events, i, j, sig) && events[j].now >= now - 604_800)
    {
      yes := sig in suppress && suppress[sig].since >= now - SUPPRESS_WINDOW_SECS;
      if MonotoneClock(events, now) {
        SuppressedIffRecentOffence(states, events, now, sig);
      }
    }
  }
}
