/**
 What every history of calls, crashes and outside status changes keeps
 (durable/step_runner.py, durable/checkpoint_store.py).
 */
module DurableHistories {
  import opened DurableSteps
  import opened Numbers
  import opened Wrappers

  // ---------------------------------------------------------------------------
  // The crash invariant
  // ---------------------------------------------------------------------------

  ghost predicate CommittedIsBacked(w: World) {
    w.status.Some? && w.status.value.state == Committed ==>
      && w.output.Some? && w.status.value.outputHash == HashOf(w.output.value)
      && w.status.value.inputHash.HashOf?
      && Execution(w.status.value.inputHash.document, Returns(w.output.value)) in w.log
  }

  ghost predicate Inv(w: World) {
    && CommittedIsBacked(w)
    && w.sinceReset <= (if w.status.Some? then w.status.value.attempt else 0)
  }

  /** What must hold when an event happens for the invariant to survive it. */
  ghost predicate Safe(w: World, e: Event) {
    match e
    case WroteInput(_) => true
    case WroteReset(s) =>
      s.state == Created && w.status.Some? && w.status.value.state == Committed
    case WroteStatus(s) =>
      && CommittedIsBacked(w.(status := Some(s))) && w.sinceReset <= s.attempt
      && (w.status.Some? ==> ValidTransition(w.status.value.state, s.state) && w.status.value.attempt <= s.attempt)
    case WroteOutput(_) => w.status.Some? && w.status.value.state == Inflight
    case Ran(_) =>
      w.status.Some? && w.status.value.state == Inflight && w.sinceReset < w.status.value.attempt
  }

  ghost predicate AllSafe(w: World, es: seq<Event>)
    decreases |es|
  {
    es != [] ==> Safe(w, es[0]) && AllSafe(Apply(w, es[0]), es[1..])
  }

  lemma {:induction false} SafeConcat(w: World, a: seq<Event>, b: seq<Event>)
    requires AllSafe(w, a) && AllSafe(ApplyAll(w, a), b)
    ensures AllSafe(w, a + b) && ApplyAll(w, a + b) == ApplyAll(ApplyAll(w, a), b)
    decreases |a|
  {
    if a == [] {
      assert a + b == b;
    } else {
      assert (a + b)[1..] == a[1..] + b;
      SafeConcat(Apply(w, a[0]), a[1..], b);
    }
  }

  lemma {:induction false} SafePrefix(w: World, es: seq<Event>, k: nat)
    requires Inv(w) && AllSafe(w, es) && k <= |es|
    ensures Inv(ApplyAll(w, es[..k]))
    ensures k < |es| ==> Safe(ApplyAll(w, es[..k]), es[k])
    decreases k
  {
    if k == 0 {
      assert es[..0] == [];
    } else {
      assert es[..k][1..] == es[1..][..k - 1];
      SafePrefix(Apply(w, es[0]), es[1..], k - 1);
    }
  }

  lemma Unfold1(w: World, a: Event)
    ensures AllSafe(w, [a]) <==> Safe(w, a)
    ensures ApplyAll(w, [a]) == Apply(w, a)
  {
    assert [a][1..] == [];
  }

  lemma Unfold2(w: World, a: Event, b: Event)
    ensures AllSafe(w, [a, b]) <==> Safe(w, a) && Safe(Apply(w, a), b)
    ensures ApplyAll(w, [a, b]) == Apply(Apply(w, a), b)
  {
    assert [a, b][1..] == [b];
    Unfold1(Apply(w, a), b);
  }

  lemma OpeningIsSafe(w: World, input: Json)
    requires Inv(w) && !Hit(w, input)
    ensures AllSafe(w, OpeningEvents(w, input))
    ensures var v := ApplyAll(w, OpeningEvents(w, input));
            Inv(v) && v.status == Some(Opened(w, input)) && v.log == w.log && v.output == w.output
    ensures Opened(w, input).state != Committed
  {
    var es := OpeningEvents(w, input);
    if NeedsReset(w, input) {
      Unfold1(w, es[0]);
    } else {
      assert es == [es[0]] + [es[1], es[2]];
      Unfold1(w, es[0]);
      Unfold2(Apply(w, es[0]), es[1], es[2]);
      SafeConcat(w, [es[0]], [es[1], es[2]]);
    }
  }

  lemma FinishIsSafe(w: World, s: Status, input: Json, outcome: Outcome)
    requires Inv(w) && w.status == Some(s) && s.inputHash == HashOf(input)
    requires s.state != Committed && ValidTransition(s.state, Inflight)
    ensures AllSafe(w, RunEvents(s, input, outcome))
    ensures var v := ApplyAll(w, RunEvents(s, input, outcome));
            outcome.Returns? ==>
              v.output == Some(outcome.output) &&
              v.status == Some(Launched(s).(state := Committed, outputHash := HashOf(outcome.output)))
  {
    var x := Execution(input, outcome);
    var a := WroteStatus(Launched(s));
    Unfold2(w, a, Ran(x));
    var v := Apply(Apply(w, a), Ran(x));
    assert v.log[|w.log|] == x;
    var fin := FinalEvents(Launched(s), outcome);
    if outcome.Returns? {
      Unfold2(v, fin[0], fin[1]);
    } else {
      Unfold1(v, fin[0]);
    }
    SafeConcat(w, [a, Ran(x)], fin);
  }

  lemma ReadyingIsSafe(w: World, s: Status)
    requires Inv(w) && w.status == Some(s) && s.state != Committed
    ensures AllSafe(w, ReadyEvents(s))
    ensures var v := ApplyAll(w, ReadyEvents(s));
            Inv(v) && v == w.(status := Some(Readied(s))) && Readied(s).state != Committed
  {
    if GoesReady(s.state) {
      Unfold1(w, WroteStatus(Readied(s)));
    }
  }

  /** Every event of a run is safe where it happens; an accepted `Returns` ends committed. */
  lemma RunIsSafe(w: World, input: Json, outcome: Outcome)
    requires Inv(w)
    ensures AllSafe(w, RunOf(w, input, outcome).events)
    ensures var run := RunOf(w, input, outcome);
            var v := ApplyAll(w, run.events);
            run.reply.Returned? ==>
              && v.output == Some(run.reply.output)
              && v.status.Some? && v.status.value.state == Committed && v.status.value.inputHash == HashOf(input)
  {
    if !Hit(w, input) {
      var s, opening := Opened(w, input), OpeningEvents(w, input);
      OpeningIsSafe(w, input);
      var v := ApplyAll(w, opening);
      ReadyingIsSafe(v, s);
      if ValidTransition(Readied(s).state, Inflight) {
        FinishIsSafe(ApplyAll(v, ReadyEvents(s)), Readied(s), input, outcome);
        SafeConcat(v, ReadyEvents(s), RunEvents(Readied(s), input, outcome));
      } else {
        assert ReadyEvents(s) + [] == ReadyEvents(s);
      }
      SafeConcat(w, opening, ReadyAndRun(s, input, outcome));
    }
  }

  // ---------------------------------------------------------------------------
  // All histories of a step
  // ---------------------------------------------------------------------------

  /**
   A call that dies after `fuse` events, or a status change made through the
   store by someone else (the reaper, a cancellation, a resume).
   */
  datatype Action = Call(input: Json, outcome: Outcome, fuse: nat) | Operator(to: StepState)

  function Step(w: World, a: Action): World {
    match a
    case Call(input, outcome, fuse) =>
      var es := RunOf(w, input, outcome).events;
      ApplyAll(w, es[..Min(fuse, |es|)])
    case Operator(to) =>
      if w.status.Some? && to != Committed && ValidTransition(w.status.value.state, to)
      then w.(status := Some(w.status.value.(state := to))) else w
  }

  function Steps(w: World, actions: seq<Action>): World
    decreases |actions|
  {
    if actions == [] then w else Steps(Step(w, actions[0]), actions[1..])
  }

  function ReplyTo(w: World, a: Action): Reply
    requires a.Call?
  {
    var run := RunOf(w, a.input, a.outcome);
    if a.fuse < |run.events| then Died else run.reply
  }

  lemma StepKeepsInv(w: World, a: Action)
    requires Inv(w)
    ensures Inv(Step(w, a))
  {
    if a.Call? {
      RunIsSafe(w, a.input, a.outcome);
      var es := RunOf(w, a.input, a.outcome).events;
      SafePrefix(w, es, Min(a.fuse, |es|));
    }
  }

  /** Crash safety: the invariant holds after every history, wherever the crashes fall. */
  lemma {:induction false} EveryHistoryKeepsInv(w: World, actions: seq<Action>)
    requires Inv(w)
    ensures Inv(Steps(w, actions))
    decreases |actions|
  {
    if actions != [] {
      StepKeepsInv(w, actions[0]);
      EveryHistoryKeepsInv(Step(w, actions[0]), actions[1..]);
    }
  }

  /** Every status ever stored follows the transition table, or resets a committed step. */
  lemma StoredStatusesFollowTheTable(w: World, input: Json, outcome: Outcome, k: nat)
    requires Inv(w) && k < |RunOf(w, input, outcome).events|
    ensures var es := RunOf(w, input, outcome).events;
            var v := ApplyAll(w, es[..k]);
            && (es[k].WroteStatus? && v.status.Some? ==> ValidTransition(v.status.value.state, es[k].status.state))
            && (es[k].WroteReset? ==> v.status.Some? && v.status.value.state == Committed)
            && (es[k].Ran? ==> v.status.Some? && v.status.value.state == Inflight)
  {
    RunIsSafe(w, input, outcome);
    SafePrefix(w, RunOf(w, input, outcome).events, k);
  }

  ghost predicate OnlyInput(actions: seq<Action>, input: Json) {
    forall k :: 0 <= k < |actions| && actions[k].Call? ==> actions[k].input == input
  }

  /**
   Exactly-once answers: once an input is committed, nothing changes and `fn` is
   not called again until a call with another input, and every call returns the
   stored output.
   */
  lemma {:induction false} CommittedAnswersAreStable(w: World, input: Json, actions: seq<Action>, n: nat)
    requires Inv(w) && w.status.Some?
    requires w.status.value.state == Committed && w.status.value.inputHash == HashOf(input)
    requires OnlyInput(actions, input) && n <= |actions|
    ensures Steps(w, actions[..n]) == w
    ensures n < |actions| && actions[n].Call? ==> ReplyTo(w, actions[n]) == Returned(w.output.value)
    decreases n
  {
    if n > 0 {
      assert actions[..n][1..] == actions[1..][..n - 1];
      var es := if actions[0].Call? then RunOf(w, input, actions[0].outcome).events else [];
      assert es == [] && es[..0] == [];
      assert Step(w, actions[0]) == w;
      forall k | 0 <= k < |actions[1..]| && actions[1..][k].Call? ensures actions[1..][k].input == input {
        assert actions[1..][k] == actions[k + 1];
      }
      CommittedAnswersAreStable(w, input, actions[1..], n - 1);
    }
  }

  /** Events that store the same state and never call `fn` keep both. */
  lemma {:induction false} NoCallNoChange(w: World, es: seq<Event>, k: nat)
    requires w.status.Some? && k <= |es|
    requires forall m :: 0 <= m < |es| ==>
               es[m].WroteInput? || (es[m].WroteStatus? && es[m].status.state == w.status.value.state)
    ensures var v := ApplyAll(w, es[..k]);
            v.log == w.log && v.status.Some? && v.status.value.state == w.status.value.state
    decreases k
  {
    if k > 0 {
      assert es[..k][1..] == es[1..][..k - 1];
      NoCallNoChange(Apply(w, es[0]), es[1..], k - 1);
    }
  }

  lemma DeadStepRun(w: World, input: Json, outcome: Outcome, k: nat)
    requires w.status.Some? && w.status.value.state in {TerminalFailed, Cancelled}
    requires k <= |RunOf(w, input, outcome).events|
    ensures RunOf(w, input, outcome).reply == Refused
    ensures var v := ApplyAll(w, RunOf(w, input, outcome).events[..k]);
            v.log == w.log && v.status.Some? && v.status.value.state == w.status.value.state
  {
    var es := RunOf(w, input, outcome).events;
    assert es == OpeningEvents(w, input) && |es| == 3;
    assert es[..0] == [];
    NoCallNoChange(w, es, k);
  }

  /** A terminally failed or cancelled step stays so, and `fn` is never called on it again. */
  lemma {:induction false} DeadStepsStayDead(w: World, actions: seq<Action>)
    requires w.status.Some? && w.status.value.state in {TerminalFailed, Cancelled}
    ensures Steps(w, actions).log == w.log
    ensures Steps(w, actions).status.Some? && Steps(w, actions).status.value.state == w.status.value.state
    decreases |actions|
  {
    if actions != [] {
      if actions[0].Call? {
        var es := RunOf(w, actions[0].input, actions[0].outcome).events;
        DeadStepRun(w, actions[0].input, actions[0].outcome, Min(actions[0].fuse, |es|));
      }
      DeadStepsStayDead(Step(w, actions[0]), actions[1..]);
    }
  }

  /** After any crash a step that is not dead can be driven to a committed answer. */
  lemma EveryCrashIsRecoverable(w: World, input: Json, output: Json)
    requires Inv(w)
    ensures var run := RunOf(w, input, Returns(output));
            var v := ApplyAll(w, run.events);
            if w.status.Some? && w.status.value.state in {TerminalFailed, Cancelled} then run.reply == Refused
            else
              && run.reply == Returned(if Hit(w, input) then w.output.value else output)
              && v.output == Some(run.reply.output)
              && v.status.Some? && v.status.value.state == Committed && v.status.value.inputHash == HashOf(input)
  {
    RunIsSafe(w, input, Returns(output));
  }

  predicate Dead(w: World) {
    w.status.Some? && w.status.value.state in {TerminalFailed, Cancelled}
  }

  function AttemptsOf(w: World): nat {
    if w.status.Some? then w.status.value.attempt else 0
  }

  /**
   A call that is neither answered from the store nor refused runs `fn` once,
   counts the attempt, and stores what came of it.
   */
  lemma CallRunsOnce(w: World, input: Json, outcome: Outcome)
    requires Inv(w) && !Hit(w, input) && !Dead(w)
    ensures var v := ApplyAll(w, RunOf(w, input, outcome).events);
            && v.log == w.log + [Execution(input, outcome)] && (!outcome.Returns? ==> v.output == w.output)
            && v.status.Some? && v.status.value.inputHash == HashOf(input)
            && v.status.value.attempt == 1 + (if NeedsReset(w, input) then 0 else AttemptsOf(w))
            && v.status.value.state == EndState(outcome)
  {
    var s := Opened(w, input);
    var begun := ApplyAll(w, OpeningEvents(w, input));
    OpeningIsSafe(w, input);
    ReadyingIsSafe(begun, s);
    LaunchedOnce(ApplyAll(begun, ReadyEvents(s)), Readied(s), input, outcome);
    ApplyConcat(begun, ReadyEvents(s), RunEvents(Readied(s), input, outcome));
    ApplyConcat(w, OpeningEvents(w, input), ReadyAndRun(s, input, outcome));
  }

  /** The function is called right after a status that says so, and that one follows a ready status. */
  lemma ReadyBeforeLaunch(w: World, input: Json, outcome: Outcome) returns (k: nat)
    requires !Hit(w, input) && !Dead(w)
    requires w.status.Some? && w.status.value.state == Committed ==> NeedsReset(w, input)
    ensures var es := RunOf(w, input, outcome).events;
            && 0 < k < |es| - 1 && es[k + 1] == Ran(Execution(input, outcome))
            && es[k].WroteStatus? && es[k].status.state == Inflight
            && es[k - 1].WroteStatus?
            && es[k - 1].status == es[k].status.(attempt := es[k].status.attempt - 1, state := es[k - 1].status.state)
            && es[k - 1].status.state ==
               (if w.status.Some? && w.status.value.state == Inflight then Inflight else Ready)
  {
    var s := Opened(w, input);
    k := |OpeningEvents(w, input)| + |ReadyEvents(s)|;
  }

  function EndState(outcome: Outcome): StepState {
    match outcome
    case Returns(_) => Committed
    case RaisesRetryable => RetryableFailed
    case RaisesOther => TerminalFailed
  }

  lemma LaunchedOnce(w: World, s: Status, input: Json, outcome: Outcome)
    ensures var v := ApplyAll(w, RunEvents(s, input, outcome));
            && v.log == w.log + [Execution(input, outcome)] && (!outcome.Returns? ==> v.output == w.output)
            && v.status.Some? && v.status.value.inputHash == s.inputHash && v.status.value.attempt == s.attempt + 1
            && v.status.value.state == EndState(outcome)
  {
    var a, b, fin := WroteStatus(Launched(s)), Ran(Execution(input, outcome)), FinalEvents(Launched(s), outcome);
    Unfold2(w, a, b);
    ApplyConcat(w, [a, b], fin);
    var v := Apply(Apply(w, a), b);
    if outcome.Returns? {
      Unfold2(v, fin[0], fin[1]);
    } else {
      Unfold1(v, fin[0]);
    }
  }

  /**
   A retryable error leaves the step open to the next call; any other error is
   final, and the next call with that input is refused.
   */
  lemma FailedCallLeaves(w: World, input: Json, outcome: Outcome, next: Json)
    requires Inv(w) && !Hit(w, input) && !Dead(w) && !outcome.Returns?
    ensures RunOf(w, input, outcome).reply == Raised
    ensures var v := ApplyAll(w, RunOf(w, input, outcome).events);
            && v.status.Some?
            && v.status.value.state == (if outcome == RaisesRetryable then RetryableFailed else TerminalFailed)
            && RunOf(v, input, Returns(next)).reply == if outcome == RaisesRetryable then Returned(next) else Refused
  {
    CallRunsOnce(w, input, outcome);
  }

  // ---------------------------------------------------------------------------
  // The stored input
  // ---------------------------------------------------------------------------

  lemma {:induction false} InputSurvives(w: World, es: seq<Event>)
    requires forall k :: 0 <= k < |es| ==> !es[k].WroteInput?
    ensures ApplyAll(w, es).input == w.input
    decreases |es|
  {
    if es != [] {
      InputSurvives(Apply(w, es[0]), es[1..]);
    }
  }

  /**
   `input.json` is rewritten except when the step is reset or answered from the
   store, so after a full call it holds the call's input exactly when it was
   rewritten or held that input already.
   */
  lemma InputFileMatchesIff(w: World, input: Json, outcome: Outcome)
    ensures ApplyAll(w, RunOf(w, input, outcome).events).input == Some(input) <==>
            (!Hit(w, input) && !NeedsReset(w, input)) || w.input == Some(input)
  {
    var es := RunOf(w, input, outcome).events;
    if !Hit(w, input) {
      if NeedsReset(w, input) {
        InputSurvives(w, es);
      } else {
        assert es[0] == WroteInput(input);
        InputSurvives(Apply(w, es[0]), es[1..]);
      }
    }
  }

  /** After a reset the committed status and the stored input name different inputs. */
  lemma ResetLeavesOldInput(w: World, input: Json, output: Json)
    requires Inv(w) && NeedsReset(w, input) && w.input != Some(input)
    ensures var v := ApplyAll(w, RunOf(w, input, Returns(output)).events);
            && v.status.Some? && v.status.value.state == Committed && v.status.value.inputHash == HashOf(input)
            && v.input == w.input && v.input != Some(input)
  {
    EveryCrashIsRecoverable(w, input, output);
    InputSurvives(w, RunOf(w, input, Returns(output)).events);
  }

  lemma RunsAreShort(w: World, input: Json, outcome: Outcome)
    ensures |RunOf(w, input, outcome).events| <= 8
  {
  }

  lemma FullCall(w: World, input: Json, outcome: Outcome)
    ensures Step(w, Call(input, outcome, 8)) == ApplyAll(w, RunOf(w, input, outcome).events)
  {
    RunsAreShort(w, input, outcome);
    var es := RunOf(w, input, outcome).events;
    assert es[..|es|] == es;
  }

  /** From an empty directory two uninterrupted calls with different inputs get there. */
  lemma TwoCallsLeaveOldInput(first: Json, second: Json, x: Json, y: Json)
    requires first != second
    ensures var w := Steps(INITIAL, [Call(first, Returns(x), 8), Call(second, Returns(y), 8)]);
            && w.status.Some? && w.status.value.state == Committed && w.status.value.inputHash == HashOf(second)
            && w.input == Some(first)
  {
    var a, b := Call(first, Returns(x), 8), Call(second, Returns(y), 8);
    var w := Step(INITIAL, a);
    FullCall(INITIAL, first, Returns(x));
    EveryCrashIsRecoverable(INITIAL, first, x);
    InputFileMatchesIff(INITIAL, first, Returns(x));
    StepKeepsInv(INITIAL, a);
    FullCall(w, second, Returns(y));
    ResetLeavesOldInput(w, second, y);
    assert [a, b][1..] == [b] && [b][1..] == [];
    assert Steps(w, [b]) == Step(w, b);
  }
}
