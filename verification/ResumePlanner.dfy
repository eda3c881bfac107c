/**
 Planning a resume over stored step statuses, at a fixed clock reading
 (durable/resume_planner.py).
 */
module ResumePlanning {
  import opened Wrappers
  import opened Counting
  import opened DurableSteps
  import opened DurableHistories

  /** A stored state is any text; unknown texts are kept as they are. */
  datatype StoredState = Known(name: StepState) | Unknown(text: string)

  /** None for `updatedAt` is a timestamp that does not parse. */
  datatype StepRecord = StepRecord(state: StoredState, attempt: nat, updatedAt: Option<real>, error: string)

  datatype Verb = Skip | Retry | MarkRetryableFailed | Wait | Stop | RunNow

  datatype ResumeAction = ResumeAction(verb: Verb, dir: string)

  datatype PlanStatus = PlanTerminalFailed | ResumeAvailable | AllCommitted | Empty

  datatype ResumePlan = ResumePlan(
    status: PlanStatus, actions: seq<ResumeAction>,
    committed: nat, retryable: nat, terminalFailed: nat, staleInflight: nat)

  predicate IsStale(r: StepRecord, now: real, timeout: real) {
    r.state == Known(Inflight) && (r.updatedAt == None || now - r.updatedAt.value > timeout)
  }

  /** How one stored step is treated; None for a state the planner does not know. */
  function VerbFor(r: StepRecord, now: real, timeout: real): Option<Verb> {
    match r.state
    case Unknown(_) => None
    case Known(Committed) => Some(Skip)
    case Known(RetryableFailed) => Some(Retry)
    case Known(Inflight) => Some(if IsStale(r, now, timeout) then MarkRetryableFailed else Wait)
    case Known(TerminalFailed) => Some(Stop)
    case Known(Cancelled) => Some(Stop)
    case Known(_) => Some(RunNow)
  }

  /**
   What the verbs mean to the runner, on a disk that holds the planned state:
   a skipped step answers from the store, a stopped one refuses every call, a
   step to be retried or run accepts one, and what is waited for is inflight.
   */
  lemma VerbsMatchTheRunner(w: World, r: StepRecord, now: real, timeout: real, input: Json, output: Json)
    requires Inv(w) && w.status.Some? && r.state == Known(w.status.value.state)
    ensures var verb, run := VerbFor(r, now, timeout), RunOf(w, input, Returns(output));
            && (verb == Some(Stop) <==> run.reply == Refused)
            && (verb == Some(Skip) && w.status.value.inputHash == HashOf(input) ==>
                  run.events == [] && run.reply == Returned(w.output.value))
            && (verb in {Some(Retry), Some(RunNow)} ==>
                  && run.reply == Returned(output)
                  && ApplyAll(w, run.events).log == w.log + [Execution(input, Returns(output))])
            && (verb in {Some(Wait), Some(MarkRetryableFailed)} <==> w.status.value.state == Inflight)
            && (verb == Some(Skip) <==> w.status.value.state == Committed)
            && (verb == Some(Retry) <==> w.status.value.state == RetryableFailed)
  {
    if w.status.value.state in {Created, Ready, Resumed, RetryableFailed} {
      CallRunsOnce(w, input, Returns(output));
    }
  }

  /** Only an inflight step is ever marked, and exactly when its last update is out of time or unreadable. */
  lemma MarkedIff(r: StepRecord, now: real, timeout: real)
    ensures VerbFor(r, now, timeout) == Some(MarkRetryableFailed) <==>
              && r.state == Known(Inflight)
              && !(r.updatedAt.Some? && now <= r.updatedAt.value + timeout)
    ensures VerbFor(r, now, timeout) == None <==> r.state.Unknown?
  {
  }

  /** Number of steps treated in one of the given ways. */
  function CountOf(rs: seq<StepRecord>, verbs: set<Option<Verb>>, now: real, timeout: real): nat {
    if rs == [] then 0
    else
      var last := rs[|rs| - 1];
      CountOf(rs[..|rs| - 1], verbs, now, timeout) + if VerbFor(last, now, timeout) in verbs then 1 else 0
  }

  /** The planner's four counters. */
  datatype Tally = Tally(committed: nat, retryable: nat, terminalFailed: nat, stale: nat)

  function TallyOf(rs: seq<StepRecord>, now: real, timeout: real): Tally {
    if rs == [] then Tally(0, 0, 0, 0)
    else
      Bump(TallyOf(rs[..|rs| - 1], now, timeout), VerbFor(rs[|rs| - 1], now, timeout))
  }

  function Bump(t: Tally, v: Option<Verb>): Tally {
    match v
    case Some(Skip) => t.(committed := t.committed + 1)
    case Some(Retry) => t.(retryable := t.retryable + 1)
    case Some(RunNow) => t.(retryable := t.retryable + 1)
    case Some(Stop) => t.(terminalFailed := t.terminalFailed + 1)
    case Some(MarkRetryableFailed) => t.(stale := t.stale + 1)
    case _ => t
  }

  lemma PlanOneMore(dirs: seq<string>, rs: seq<StepRecord>, k: nat, now: real, timeout: real)
    requires k < |rs| == |dirs|
    ensures TallyOf(rs[..k + 1], now, timeout) == Bump(TallyOf(rs[..k], now, timeout), VerbFor(rs[k], now, timeout))
    ensures ActionsOf(dirs[..k + 1], rs[..k + 1], now, timeout) ==
            ActionsOf(dirs[..k], rs[..k], now, timeout) + ActionFor(VerbFor(rs[k], now, timeout), dirs[k])
  {
    assert dirs[..k + 1][..k] == dirs[..k] && rs[..k + 1][..k] == rs[..k];
  }

  function ActionFor(v: Option<Verb>, dir: string): seq<ResumeAction> {
    if v.Some? then [ResumeAction(v.value, dir)] else []
  }

  lemma {:induction false} TallyCounts(rs: seq<StepRecord>, now: real, timeout: real)
    ensures var t := TallyOf(rs, now, timeout);
            && t.committed == CountOf(rs, {Some(Skip)}, now, timeout)
            && t.retryable == CountOf(rs, {Some(Retry), Some(RunNow)}, now, timeout)
            && t.terminalFailed == CountOf(rs, {Some(Stop)}, now, timeout)
            && t.stale == CountOf(rs, {Some(MarkRetryableFailed)}, now, timeout)
  {
    if rs != [] {
      TallyCounts(rs[..|rs| - 1], now, timeout);
    }
  }

  function ActionsOf(dirs: seq<string>, rs: seq<StepRecord>, now: real, timeout: real): seq<ResumeAction>
    requires |dirs| == |rs|
  {
    if rs == [] then []
    else
      var n := |rs| - 1;
      ActionsOf(dirs[..n], rs[..n], now, timeout) + ActionFor(VerbFor(rs[n], now, timeout), dirs[n])
  }

  class Planner {
    const dirs: seq<string>                  // step directories, in listing order
    var steps: map<string, StepRecord>
    const timeout: real

    constructor (dirs: seq<string>, steps: map<string, StepRecord>, timeoutSeconds: real)
      requires Distinct(dirs) && forall d :: d in dirs <==> d in steps
      ensures Valid() && this.dirs == dirs && this.steps == steps
      ensures timeout == if timeoutSeconds >= 1.0 then timeoutSeconds else 1.0
    {
      this.dirs, this.steps := dirs, steps;
      this.timeout := if timeoutSeconds < 1.0 then 1.0 else timeoutSeconds;
    }

    ghost predicate Valid()
      reads this
    {
      Distinct(dirs) && forall d :: d in dirs <==> d in steps
    }

    ghost function Listing(n: nat): (rs: seq<StepRecord>)
      reads this
      requires Valid() && n <= |dirs|
      ensures |rs| == n && forall i :: 0 <= i < n ==> rs[i] == steps[dirs[i]]
    {
      seq(n, i requires 0 <= i < n && dirs[i] in steps reads this => steps[dirs[i]])
    }

    method Plan(now: real) returns (plan: ResumePlan)
      requires Valid()
      ensures var rs := Listing(|dirs|);
              && plan.actions == ActionsOf(dirs, rs, now, timeout)
              && plan.committed == CountOf(rs, {Some(Skip)}, now, timeout)
              && plan.retryable == CountOf(rs, {Some(Retry), Some(RunNow)}, now, timeout)
              && plan.terminalFailed == CountOf(rs, {Some(Stop)}, now, timeout)
              && plan.staleInflight == CountOf(rs, {Some(MarkRetryableFailed)}, now, timeout)
      ensures plan.status ==
              if plan.terminalFailed > 0 then PlanTerminalFailed
              else if plan.staleInflight > 0 || plan.retryable > 0 then ResumeAvailable
              else if plan.committed > 0 then AllCommitted
              else Empty
    {
      ghost var rs := Listing(|dirs|);
      var actions: seq<ResumeAction> := [];
      var committed, retryable, terminalFailed, stale := 0, 0, 0, 0;
      for k := 0 to |dirs|
        invariant actions == ActionsOf(dirs[..k], rs[..k], now, timeout)
        invariant Tally(committed, retryable, terminalFailed, stale) == TallyOf(rs[..k], now, timeout)
      {
        PlanOneMore(dirs, rs, k, now, timeout);
        var verb := VerbFor(steps[dirs[k]], now, timeout);
        match verb {
          case Some(Skip) => committed := committed + 1;
          case Some(Retry) => retryable := retryable + 1;
          case Some(RunNow) => retryable := retryable + 1;
          case Some(MarkRetryableFailed) => stale := stale + 1;
          case Some(Stop) => terminalFailed := terminalFailed + 1;
          case _ =>
        }
        actions := actions + ActionFor(verb, dirs[k]);
      }
      assert dirs[..|dirs|] == dirs && rs[..|dirs|] == rs;
      TallyCounts(rs, now, timeout);
      var status :=
        if terminalFailed > 0 then PlanTerminalFailed
        else if stale > 0 || retryable > 0 then ResumeAvailable
        else if committed > 0 then AllCommitted
        else Empty;
      plan := ResumePlan(status, actions, committed, retryable, terminalFailed, stale);
    }

    /** The loop over the plan's actions: read the status back and mark it if still inflight. */
    method MarkListedSteps(actions: seq<ResumeAction>, now: real)
      requires Valid() && forall a :: a in actions ==> a.dir in steps
      modifies this`steps
      ensures Valid() && steps == MarkListed(old(steps), actions, now)
    {
      assert MarkListed(steps, actions[..0], now) == steps;
      for k := 0 to |actions|
        invariant Valid() && steps == MarkListed(old(steps), actions[..k], now)
      {
        var action := actions[k];
        assert action in actions && actions[..k + 1] == actions[..k] + [action];
        if action.verb == MarkRetryableFailed {
          var r := steps[action.dir];
          if r.state == Known(Inflight) {
            steps := steps[action.dir := Marked(r, now)];
          }
        }
      }
      assert actions[..|actions|] == actions;
    }

    /**
     Exactly the stale inflight steps become retryable_failed; the new plan has
     none left, counts them as retryable, and counts the others as before.
     */
    method ApplyStaleInflight(now: real) returns (plan: ResumePlan)
      requires Valid()
      modifies this`steps
      ensures Valid() && steps == MarkStale(old(steps), now, timeout)
      ensures plan.actions == ActionsOf(dirs, Listing(|dirs|), now, timeout)
      ensures var rs := old(Listing(|dirs|));
              && plan.staleInflight == 0
              && plan.retryable == CountOf(rs, {Some(Retry), Some(RunNow)}, now, timeout)
                                   + CountOf(rs, {Some(MarkRetryableFailed)}, now, timeout)
              && plan.committed == CountOf(rs, {Some(Skip)}, now, timeout)
              && plan.terminalFailed == CountOf(rs, {Some(Stop)}, now, timeout)
    {
      ghost var before := Listing(|dirs|);
      plan := Plan(now);
      PlannedAreTheStale(dirs, Listing(|dirs|), steps, now, timeout);
      MarkListedSteps(plan.actions, now);
      plan := Plan(now);
      MarkingMovesCounts(before, Listing(|dirs|), now, timeout);
    }
  }

  function MarkListed(steps: map<string, StepRecord>, actions: seq<ResumeAction>, now: real): map<string, StepRecord> {
    map d | d in steps ::
      if ResumeAction(MarkRetryableFailed, d) in actions && steps[d].state == Known(Inflight)
      then Marked(steps[d], now) else steps[d]
  }

  lemma ListedAreTheStale(dirs: seq<string>, rs: seq<StepRecord>, steps: map<string, StepRecord>,
                          actions: seq<ResumeAction>, now: real, timeout: real)
    requires |dirs| == |rs| && (forall d :: d in dirs <==> d in steps)
    requires forall i :: 0 <= i < |dirs| ==> rs[i] == steps[dirs[i]]
    requires forall a: ResumeAction :: a in actions <==>
               exists i :: 0 <= i < |dirs| && dirs[i] == a.dir && VerbFor(rs[i], now, timeout) == Some(a.verb)
    ensures forall a :: a in actions ==> a.dir in steps
    ensures MarkListed(steps, actions, now) == MarkStale(steps, now, timeout)
  {
    forall d | d in steps
      ensures ResumeAction(MarkRetryableFailed, d) in actions <==> IsStale(steps[d], now, timeout)
    {
      var i :| 0 <= i < |dirs| && dirs[i] == d;
      assert VerbFor(rs[i], now, timeout) == Some(MarkRetryableFailed) <==> IsStale(steps[d], now, timeout);
    }
  }

  lemma PlannedAreTheStale(
    dirs: seq<string>, rs: seq<StepRecord>, steps: map<string, StepRecord>, now: real, timeout: real)
    requires |dirs| == |rs| && (forall d :: d in dirs <==> d in steps)
    requires forall i :: 0 <= i < |dirs| ==> rs[i] == steps[dirs[i]]
    ensures forall a :: a in ActionsOf(dirs, rs, now, timeout) ==> a.dir in steps
    ensures MarkListed(steps, ActionsOf(dirs, rs, now, timeout), now) == MarkStale(steps, now, timeout)
  {
    ActionsAreTheVerbs(dirs, rs, now, timeout);
    ListedAreTheStale(dirs, rs, steps, ActionsOf(dirs, rs, now, timeout), now, timeout);
  }

  /** `mark_failed` with `retryable=True`: the update time moves to the clock reading. */
  function Marked(r: StepRecord, now: real): StepRecord {
    r.(state := Known(RetryableFailed), updatedAt := Some(now), error := "StaleInflight")
  }

  function MarkStale(steps: map<string, StepRecord>, now: real, timeout: real): map<string, StepRecord> {
    map d | d in steps :: if IsStale(steps[d], now, timeout) then Marked(steps[d], now) else steps[d]
  }

  lemma {:induction false} ActionsAreTheVerbs(dirs: seq<string>, rs: seq<StepRecord>, now: real, timeout: real)
    requires |dirs| == |rs|
    ensures forall a: ResumeAction :: a in ActionsOf(dirs, rs, now, timeout) <==>
              exists i :: 0 <= i < |dirs| && dirs[i] == a.dir && VerbFor(rs[i], now, timeout) == Some(a.verb)
  {
    if rs != [] {
      var n := |rs| - 1;
      ActionsAreTheVerbs(dirs[..n], rs[..n], now, timeout);
      var front := ActionsOf(dirs[..n], rs[..n], now, timeout);
      forall a | a in front
        ensures exists i :: 0 <= i < |dirs| && dirs[i] == a.dir && VerbFor(rs[i], now, timeout) == Some(a.verb)
      {
        var i :| 0 <= i < n && dirs[..n][i] == a.dir && VerbFor(rs[..n][i], now, timeout) == Some(a.verb);
        assert dirs[i] == a.dir;
      }
      forall a: ResumeAction, i: int | 0 <= i < |dirs| && dirs[i] == a.dir
          && VerbFor(rs[i], now, timeout) == Some(a.verb)
        ensures a in ActionsOf(dirs, rs, now, timeout)
      {
        if i < n {
          assert dirs[..n][i] == a.dir && rs[..n][i] == rs[i];
          assert a in front;
        }
      }
    }
  }

  /**
   A marked step is retried next time; every other step is treated as before,
   and whatever changes follows the transition table.
   */
  lemma OthersUntouched(steps: map<string, StepRecord>, now: real, timeout: real, d: string)
    requires d in steps
    ensures var before, after := VerbFor(steps[d], now, timeout),
              VerbFor(MarkStale(steps, now, timeout)[d], now, timeout);
            after == if before == Some(MarkRetryableFailed) then Some(Retry) else before
    ensures MarkStale(steps, now, timeout)[d] != steps[d] ==>
              VerbFor(steps[d], now, timeout) == Some(MarkRetryableFailed)
    ensures steps[d].state != MarkStale(steps, now, timeout)[d].state ==>
              ValidTransition(steps[d].state.name, MarkStale(steps, now, timeout)[d].state.name)
  {
  }

  ghost predicate MarkedFrom(rs: seq<StepRecord>, marked: seq<StepRecord>, now: real, timeout: real) {
    |marked| == |rs| &&
    forall i :: 0 <= i < |rs| ==> marked[i] == if IsStale(rs[i], now, timeout) then Marked(rs[i], now) else rs[i]
  }

  /** In the plan after marking, the stale steps count as retryable and every other count is as before. */
  lemma {:induction false} MarkingMovesCounts(rs: seq<StepRecord>, marked: seq<StepRecord>, now: real, timeout: real)
    requires MarkedFrom(rs, marked, now, timeout)
    ensures CountOf(marked, {Some(MarkRetryableFailed)}, now, timeout) == 0
    ensures CountOf(marked, {Some(Retry), Some(RunNow)}, now, timeout) ==
            CountOf(rs, {Some(Retry), Some(RunNow)}, now, timeout)
            + CountOf(rs, {Some(MarkRetryableFailed)}, now, timeout)
    ensures CountOf(marked, {Some(Skip)}, now, timeout) == CountOf(rs, {Some(Skip)}, now, timeout)
    ensures CountOf(marked, {Some(Stop)}, now, timeout) == CountOf(rs, {Some(Stop)}, now, timeout)
    ensures CountOf(marked, {Some(Wait)}, now, timeout) == CountOf(rs, {Some(Wait)}, now, timeout)
  {
    if rs != [] {
      MarkingMovesCounts(rs[..|rs| - 1], marked[..|rs| - 1], now, timeout);
    }
  }

  lemma MarkStaleIsIdempotent(steps: map<string, StepRecord>, now: real, timeout: real)
    ensures MarkStale(MarkStale(steps, now, timeout), now, timeout) == MarkStale(steps, now, timeout)
  {
    var once := MarkStale(steps, now, timeout);
    assert MarkStale(once, now, timeout).Keys == once.Keys;
  }

  /** The counters, the waiting steps and the unknown ones add up to all steps, one action each. */
  lemma {:induction false} PlanCoversEveryStep(dirs: seq<string>, rs: seq<StepRecord>, now: real, timeout: real)
    requires |dirs| == |rs|
    ensures CountOf(rs, {Some(Skip)}, now, timeout) + CountOf(rs, {Some(Retry), Some(RunNow)}, now, timeout)
            + CountOf(rs, {Some(Stop)}, now, timeout) + CountOf(rs, {Some(MarkRetryableFailed)}, now, timeout)
            + CountOf(rs, {Some(Wait)}, now, timeout) + CountOf(rs, {None}, now, timeout) == |rs|
    ensures |ActionsOf(dirs, rs, now, timeout)| + CountOf(rs, {None}, now, timeout) == |rs|
  {
    if rs != [] {
      var n := |rs| - 1;
      PlanCoversEveryStep(dirs[..n], rs[..n], now, timeout);
    }
  }

  lemma {:induction false} CountedIff(rs: seq<StepRecord>, verbs: set<Option<Verb>>, now: real, timeout: real)
    ensures CountOf(rs, verbs, now, timeout) == 0 <==>
              forall i :: 0 <= i < |rs| ==> VerbFor(rs[i], now, timeout) !in verbs
    ensures CountOf(rs, verbs, now, timeout) == |rs| <==>
              forall i :: 0 <= i < |rs| ==> VerbFor(rs[i], now, timeout) in verbs
    ensures CountOf(rs, verbs, now, timeout) <= |rs|
  {
    if rs != [] {
      var n := |rs| - 1;
      CountedIff(rs[..n], verbs, now, timeout);
      assert forall i :: 0 <= i < n ==> rs[..n][i] == rs[i];
    }
  }

  /** There is one action per step exactly when every stored state is a known one. */
  lemma OneActionPerStepIff(dirs: seq<string>, rs: seq<StepRecord>, now: real, timeout: real)
    requires |dirs| == |rs|
    ensures |ActionsOf(dirs, rs, now, timeout)| == |rs| <==> forall i :: 0 <= i < |rs| ==> rs[i].state.Known?
  {
    PlanCoversEveryStep(dirs, rs, now, timeout);
    CountedIff(rs, {None}, now, timeout);
  }

  /** A step of unknown state is in no action and no counter: beside a committed one the report is all committed. */
  lemma UnknownStateIsPassedOver(text: string, now: real, timeout: real)
    ensures var done, odd := StepRecord(Known(Committed), 1, Some(now), ""),
              StepRecord(Unknown(text), 1, Some(now), "");
            ActionsOf(["a", "b"], [done, odd], now, timeout) == [ResumeAction(Skip, "a")] &&
            ReportsAllCommitted([done, odd], now, timeout)
  {
    var done, odd := StepRecord(Known(Committed), 1, Some(now), ""), StepRecord(Unknown(text), 1, Some(now), "");
    var rs := [done, odd];
    assert rs[..1] == [done] && rs[..1][..0] == [] && ["a", "b"][..1] == ["a"];
    assert CountOf([done], {Some(Skip)}, now, timeout) == 1 by { assert [done][..0] == []; }
    CountedIff(rs, {Some(Stop)}, now, timeout);
    CountedIff(rs, {Some(MarkRetryableFailed)}, now, timeout);
    CountedIff(rs, {Some(Retry), Some(RunNow)}, now, timeout);
    assert ActionsOf(["a"], [done], now, timeout) == [ResumeAction(Skip, "a")] by {
      assert [done][..0] == [] && ["a"][..0] == [];
    }
  }

  ghost predicate ReportsAllCommitted(rs: seq<StepRecord>, now: real, timeout: real) {
    && CountOf(rs, {Some(Stop)}, now, timeout) == 0
    && CountOf(rs, {Some(MarkRetryableFailed)}, now, timeout) == 0
    && CountOf(rs, {Some(Retry), Some(RunNow)}, now, timeout) == 0
    && CountOf(rs, {Some(Skip)}, now, timeout) > 0
  }

  /**
   The report `all_committed` is true of the steps exactly when none is waiting
   inflight and none has an unknown state: neither of these is counted.
   */
  lemma AllCommittedReportIff(rs: seq<StepRecord>, now: real, timeout: real)
    requires ReportsAllCommitted(rs, now, timeout)
    ensures (forall i :: 0 <= i < |rs| ==> rs[i].state == Known(Committed)) <==>
            (forall i :: 0 <= i < |rs| ==> VerbFor(rs[i], now, timeout) !in {Some(Wait), None})
  {
    CountedIff(rs, {Some(Stop)}, now, timeout);
    CountedIff(rs, {Some(MarkRetryableFailed)}, now, timeout);
    CountedIff(rs, {Some(Retry), Some(RunNow)}, now, timeout);
    forall i | 0 <= i < |rs| && VerbFor(rs[i], now, timeout) !in {Some(Wait), None}
      ensures rs[i].state == Known(Committed)
    {
      assert VerbFor(rs[i], now, timeout) == Some(Skip);
    }
  }

  lemma AllCommittedReportCanMislead()
    ensures exists rs: seq<StepRecord>, now, timeout ::
              && timeout >= 1.0 && ReportsAllCommitted(rs, now, timeout)
              && exists i :: 0 <= i < |rs| && rs[i].state == Known(Inflight)
  {
    var done := StepRecord(Known(Committed), 1, Some(0.0), "");
    var running := StepRecord(Known(Inflight), 1, Some(0.0), "");
    var rs := [done, running];
    assert rs[..1] == [done] && rs[..1][..0] == [];
    assert CountOf([done], {Some(Skip)}, 0.0, 900.0) == 1 by { assert [done][..0] == []; }
    CountedIff(rs, {Some(Stop)}, 0.0, 900.0);
    CountedIff(rs, {Some(MarkRetryableFailed)}, 0.0, 900.0);
    CountedIff(rs, {Some(Retry), Some(RunNow)}, 0.0, 900.0);
    CountedIff(rs, {Some(Skip)}, 0.0, 900.0);
    assert rs[0] == done && rs[1].state == Known(Inflight);
    assert VerbFor(rs[0], 0.0, 900.0) == Some(Skip);
    assert ReportsAllCommitted(rs, 0.0, 900.0);
  }
}
