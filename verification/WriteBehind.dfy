/**
 The write-behind observer (durable/async_writer.py): one caller thread freezes
 and enqueues batches, one worker thread writes them.  Every interleaving of the
 two threads is a sequence of the steps below.
 */
module WriteBehind {
  import opened Wrappers

  type Batch = nat

  datatype Item = Work(batch: Batch) | Stop

  datatype Worker = Getting | Holding(item: Item) | Finishing(stop: bool) | Exited

  datatype Phase = Plain | FlushPhase | FinalPhase

  datatype Caller =
    | Idle
    | Putting(batch: Batch, phase: Phase)
    | PuttingStop
    | SettingClosed
    | Joining(closing: bool)
    | JoiningWorker
    | Checking

  /** The queue with its count of unfinished tasks, both threads, and two histories. */
  datatype State = State(
    queue: seq<Item>, unfinished: nat, worker: Worker, error: bool, closed: bool, caller: Caller,
    enqueued: seq<Batch>, written: seq<Batch>, stopPut: bool)

  const INITIAL := State([], 0, Getting, false, false, Idle, [], [], false)

  datatype Frozen = Nothing | FreezeFails | Frozen(batch: Batch)

  /** What writing a batch does: succeed, fail, or succeed with a failure after the write. */
  datatype WriteOutcome = WriteOk | WriteFails | FailsAfterWrite

  datatype Step =
    | StartCall(frozen: Frozen, phase: Phase) | Put
    | StartFlush | StartClose | PutStop | SetClosed | JoinDone | WorkerJoined | Check
    | Get | Process(outcome: WriteOutcome) | TaskDone

  datatype Reply = Returned(synced: bool) | Raised   // `synced`: a flush or a close

  predicate Enabled(s: State, t: Step) {
    match t
    case StartCall(_, _) => s.caller == Idle
    case StartFlush => s.caller == Idle
    case StartClose => s.caller == Idle
    case Put => s.caller.Putting?
    case PutStop => s.caller.PuttingStop?
    case SetClosed => s.caller.SettingClosed?
    case JoinDone => s.caller.Joining? && s.unfinished == 0
    case WorkerJoined => s.caller.JoiningWorker? && s.worker == Exited
    case Check => s.caller.Checking?
    case Get => s.worker == Getting && s.queue != []
    case Process(_) => s.worker.Holding?
    case TaskDone => s.worker.Finishing? && s.unfinished > 0
  }

  function AfterPut(phase: Phase): Caller {
    match phase
    case Plain => Idle
    case FlushPhase => Joining(false)
    case FinalPhase => PuttingStop
  }

  function Processed(s: State, outcome: WriteOutcome): State
    requires s.worker.Holding?
  {
    match s.worker.item
    case Stop => s.(worker := Finishing(true))
    case Work(b) =>
      if s.error then s.(worker := Finishing(false))
      else
        s.(worker := Finishing(false),
           written := if outcome == WriteFails then s.written else s.written + [b],
           error := outcome != WriteOk)
  }

  function Do(s: State, t: Step): State
    requires Enabled(s, t)
  {
    match t
    case StartCall(frozen, phase) =>
      if s.error || s.closed || !frozen.Frozen? then s else s.(caller := Putting(frozen.batch, phase))
    case Put =>
      s.(queue := s.queue + [Work(s.caller.batch)], unfinished := s.unfinished + 1,
         enqueued := s.enqueued + [s.caller.batch], caller := AfterPut(s.caller.phase))
    case StartFlush => s.(caller := Joining(false))
    case StartClose => s.(caller := if s.closed then Checking else PuttingStop)
    case PutStop =>
      s.(queue := s.queue + [Stop], unfinished := s.unfinished + 1, stopPut := true, caller := SettingClosed)
    case SetClosed => s.(closed := true, caller := Joining(true))
    case JoinDone => s.(caller := if s.caller.closing then JoiningWorker else Checking)
    case WorkerJoined => s.(caller := Checking)
    case Check => s.(caller := Idle)
    case Get => s.(queue := s.queue[1..], worker := Holding(s.queue[0]))
    case Process(outcome) => Processed(s, outcome)
    case TaskDone => s.(unfinished := s.unfinished - 1, worker := if s.worker.stop then Exited else Getting)
  }

  /** The answer of the operation a step completes, if it completes one. */
  function Answer(s: State, t: Step): Option<Reply>
    requires Enabled(s, t)
  {
    match t
    case StartCall(frozen, _) =>
      if s.error || s.closed || frozen == FreezeFails then Some(Raised)
      else if frozen == Nothing then Some(Returned(false))
      else None
    case Put => if s.caller.phase == Plain then Some(Returned(false)) else None
    case Check => Some(if s.error then Raised else Returned(true))
    case _ => None
  }

  // ---------------------------------------------------------------------------
  // The invariant
  // ---------------------------------------------------------------------------

  function Batches(items: seq<Item>): seq<Batch> {
    if items == [] then []
    else Batches(items[..|items| - 1]) + (if items[|items| - 1].Work? then [items[|items| - 1].batch] else [])
  }

  function Held(w: Worker): seq<Batch> {
    if w.Holding? && w.item.Work? then [w.item.batch] else []
  }

  function Busy(w: Worker): nat {
    if w.Holding? || w.Finishing? then 1 else 0
  }

  predicate Stopping(w: Worker) {
    w == Holding(Stop) || w == Finishing(true) || w == Exited
  }

  /** The queue holds what was enqueued and not yet taken, in order. */
  ghost predicate FlowInv(s: State) {
    && (!s.error ==> s.enqueued == s.written + (Held(s.worker) + Batches(s.queue)))
    && s.written <= s.enqueued
  }

  /** There is at most one stop item, behind every batch. */
  ghost predicate StopInv(s: State) {
    && (forall k :: 0 <= k < |s.queue| - 1 ==> s.queue[k] != Stop)
    && (s.stopPut <==> Stopping(s.worker) || (s.queue != [] && s.queue[|s.queue| - 1] == Stop))
    && (Stopping(s.worker) ==> s.queue == [])
  }

  /** Nothing is pending once a join has ended, or while a closed observer is idle. */
  predicate CallerInv(s: State) {
    && s.unfinished == |s.queue| + Busy(s.worker)
    && (s.stopPut <==> s.closed || s.caller.SettingClosed?)
    && (s.caller.Putting? || s.caller.PuttingStop? ==> !s.stopPut)
    && (s.caller.Joining? && s.caller.closing ==> s.closed)
    && (s.caller.JoiningWorker? ==> s.closed)
    && (s.caller.JoiningWorker? || s.caller.Checking? ==> s.unfinished == 0)
    && (s.closed && s.caller == Idle ==> s.unfinished == 0)
  }

  ghost predicate Inv(s: State) {
    FlowInv(s) && StopInv(s) && CallerInv(s)
  }

  lemma {:induction false} BatchesOfTail(items: seq<Item>)
    requires items != []
    ensures Batches(items) == (if items[0].Work? then [items[0].batch] else []) + Batches(items[1..])
  {
    if |items| > 1 {
      BatchesOfTail(items[..|items| - 1]);
      assert items[..|items| - 1][1..] == items[1..][..|items| - 2];
    } else {
      assert items[..0] == [] && items[1..] == [];
    }
  }

  lemma BatchesOfAppend(items: seq<Item>, x: Item)
    ensures Batches(items + [x]) == Batches(items) + (if x.Work? then [x.batch] else [])
  {
    assert (items + [x])[..|items|] == items;
  }

  lemma FlowKept(s: State, t: Step)
    requires FlowInv(s) && Enabled(s, t)
    ensures FlowInv(Do(s, t))
  {
    if t.Put? {
      BatchesOfAppend(s.queue, Work(s.caller.batch));
    } else if t.PutStop? {
      BatchesOfAppend(s.queue, Stop);
      assert Batches(s.queue) + [] == Batches(s.queue);
    } else if t.Get? {
      BatchesOfTail(s.queue);
      assert Held(s.worker) == [];
    } else if t.Process? && s.worker.item.Work? && !s.error {
      assert (s.written + [s.worker.item.batch]) + ([] + Batches(s.queue))
          == s.written + (Held(s.worker) + Batches(s.queue));
    }
  }

  lemma StopKept(s: State, t: Step)
    requires StopInv(s) && CallerInv(s) && Enabled(s, t)
    ensures StopInv(Do(s, t))
  {
    if t.Get? {
      assert forall k :: 0 <= k < |s.queue[1..]| ==> s.queue[1..][k] == s.queue[k + 1];
    }
  }

  lemma CallerKept(s: State, t: Step)
    requires StopInv(s) && CallerInv(s) && Enabled(s, t)
    ensures CallerInv(Do(s, t))
  {
  }

  lemma StepKeepsInv(s: State, t: Step)
    requires Inv(s) && Enabled(s, t)
    ensures Inv(Do(s, t))
  {
    FlowKept(s, t);
    StopKept(s, t);
    CallerKept(s, t);
  }

  // ---------------------------------------------------------------------------
  // All runs
  // ---------------------------------------------------------------------------

  /** The state after a run, or None if some step of it was not enabled. */
  function Execute(s: State, run: seq<Step>): Option<State>
    decreases |run|
  {
    if run == [] then Some(s)
    else if !Enabled(s, run[0]) then None
    else Execute(Do(s, run[0]), run[1..])
  }

  lemma {:induction false} EveryRunKeepsInv(s: State, run: seq<Step>)
    requires Inv(s) && Execute(s, run).Some?
    ensures Inv(Execute(s, run).value)
    decreases |run|
  {
    if run != [] {
      StepKeepsInv(s, run[0]);
      EveryRunKeepsInv(Do(s, run[0]), run[1..]);
    }
  }

  /** In every reachable state the batches written are a prefix, in order, of those enqueued. */
  lemma WrittenIsPrefix(run: seq<Step>)
    requires Execute(INITIAL, run).Some?
    ensures Execute(INITIAL, run).value.written <= Execute(INITIAL, run).value.enqueued
  {
    EveryRunKeepsInv(INITIAL, run);
  }

  /** A flush or close that returns normally has everything enqueued on disk. */
  lemma SyncMeansWritten(run: seq<Step>, t: Step)
    requires Execute(INITIAL, run).Some? && Enabled(Execute(INITIAL, run).value, t)
    requires Answer(Execute(INITIAL, run).value, t) == Some(Returned(true))
    ensures Execute(INITIAL, run).value.written == Execute(INITIAL, run).value.enqueued
  {
    EveryRunKeepsInv(INITIAL, run);
  }

  /** After a failure is recorded nothing more is written, in any continuation. */
  lemma {:induction false} NothingWrittenAfterFailure(s: State, run: seq<Step>)
    requires s.error && Execute(s, run).Some?
    ensures Execute(s, run).value.error && Execute(s, run).value.written == s.written
    decreases |run|
  {
    if run != [] {
      NothingWrittenAfterFailure(Do(s, run[0]), run[1..]);
    }
  }

  predicate Starts(t: Step) {
    t.StartCall? || t.StartFlush? || t.StartClose?
  }

  /** The first answer given in a run, if any. */
  function FirstAnswer(s: State, run: seq<Step>): Option<Reply>
    requires Execute(s, run).Some?
    decreases |run|
  {
    if run == [] then None
    else if Answer(s, run[0]).Some? then Answer(s, run[0])
    else FirstAnswer(Do(s, run[0]), run[1..])
  }

  lemma {:induction false} LateOperationRaises(s: State, run: seq<Step>)
    requires s.error && !s.caller.Idle? && !s.caller.Putting? && Execute(s, run).Some?
    ensures FirstAnswer(s, run) in {None, Some(Raised)}
    decreases |run|
  {
    if run != [] && Answer(s, run[0]) == None {
      LateOperationRaises(Do(s, run[0]), run[1..]);
    }
  }

  /** Every operation that begins after the failure is recorded raises, if it ends at all. */
  lemma EveryLaterCallRaises(s: State, run: seq<Step>)
    requires s.error && s.caller == Idle && Execute(s, run).Some?
    requires run != [] && Starts(run[0])
    ensures FirstAnswer(s, run) in {None, Some(Raised)}
  {
    if Answer(s, run[0]) == None {
      LateOperationRaises(Do(s, run[0]), run[1..]);
    }
  }

  // ---------------------------------------------------------------------------
  // What an operation has done when it answers
  // ---------------------------------------------------------------------------

  /** An accepted batch, a flush or a close on its way to its answer. */
  datatype Operation = Plainly | Flushing | Closing

  /** How far each operation can be, on an observer that was open when it began. */
  ghost predicate Under(s: State, op: Operation) {
    match op
    case Plainly => !s.closed && s.caller.Putting? && s.caller.phase == Plain
    case Flushing =>
      && !s.closed
      && ((s.caller.Putting? && s.caller.phase == FlushPhase) || s.caller == Joining(false) || s.caller == Checking)
    case Closing =>
      if s.closed
      then s.caller == Joining(true) || s.caller == JoiningWorker || (s.caller == Checking && s.worker == Exited)
      else (s.caller.Putting? && s.caller.phase == FinalPhase) || s.caller == PuttingStop || s.caller == SettingClosed
  }

  lemma StaysUnder(s: State, t: Step, op: Operation)
    requires Under(s, op) && Enabled(s, t) && Answer(s, t) == None
    ensures Under(Do(s, t), op)
  {
  }

  /** An operation has answered, normally or not, and the observer is where the operation leaves it. */
  ghost predicate Done(s: State, op: Operation, reply: Reply) {
    && s.caller == Idle && (s.closed <==> op == Closing)
    && (op == Closing ==> s.worker == Exited)
    && (reply.Returned? ==> (reply.synced <==> op != Plainly))
    && (reply.Returned? && op != Plainly ==> !s.error && s.written == s.enqueued)
    && (reply == Raised ==> s.error)
  }

  lemma AnswersWhenDone(s: State, t: Step, op: Operation)
    requires Inv(s) && Under(s, op) && Enabled(s, t) && Answer(s, t).Some?
    ensures Done(Do(s, t), op, Answer(s, t).value)
  {
  }

  /**
   However the threads interleave: a plain batch is answered at once, a flush
   leaves the observer open with everything written, and a close leaves it closed
   with the worker gone; only a recorded failure makes them raise.
   */
  lemma {:induction false} OperationsEndAsAsked(s: State, run: seq<Step>, op: Operation)
    requires Inv(s) && Under(s, op) && run != [] && Execute(s, run).Some?
    requires forall k :: 0 <= k < |run| - 1 ==> NoAnswer(s, run, k)
    ensures var n := |run| - 1;
            var w := Execute(s, run[..n]);
            w.Some? && Enabled(w.value, run[n]) &&
            match Answer(w.value, run[n])
            case None => Under(Execute(s, run).value, op)
            case Some(reply) => Done(Execute(s, run).value, op, reply)
    decreases |run|
  {
    if |run| == 1 {
      assert run[..0] == [] && run[1..] == [];
      if Answer(s, run[0]).Some? {
        AnswersWhenDone(s, run[0], op);
      } else {
        StaysUnder(s, run[0], op);
      }
    } else {
      assert NoAnswer(s, run, 0) && run[..0] == [];
      StaysUnder(s, run[0], op);
      StepKeepsInv(s, run[0]);
      var next, rest := Do(s, run[0]), run[1..];
      forall k | 0 <= k < |rest| - 1 ensures NoAnswer(next, rest, k) {
        assert NoAnswer(s, run, k + 1) && run[..k + 1][1..] == rest[..k];
      }
      OperationsEndAsAsked(next, rest, op);
      assert run[..|run| - 1][1..] == rest[..|rest| - 1];
    }
  }

  /** Step `k` of a run answers nothing. */
  ghost predicate NoAnswer(s: State, run: seq<Step>, k: nat)
    requires k < |run|
  {
    var w := Execute(s, run[..k]);
    w.Some? && Enabled(w.value, run[k]) && Answer(w.value, run[k]) == None
  }

  /** What an idle, sound, open observer makes of a call. */
  lemma AcceptedCallIsUnder(s: State, batch: Batch, phase: Phase)
    requires s.caller == Idle && !s.error && !s.closed
    ensures var t := StartCall(Frozen(batch), phase);
            && Enabled(s, t) && Answer(s, t) == None
            && Under(Do(s, t), match phase case Plain => Plainly case FlushPhase => Flushing case FinalPhase => Closing)
    ensures Under(Do(s, StartFlush), Flushing) && Under(Do(s, StartClose), Closing)
    ensures Answer(s, StartCall(Nothing, phase)) == Some(Returned(false)) && Do(s, StartCall(Nothing, phase)) == s
    ensures Answer(s, StartCall(FreezeFails, phase)) == Some(Raised) && Do(s, StartCall(FreezeFails, phase)) == s
  {
  }

  /** A closed observer accepts nothing more, in any continuation. */
  lemma {:induction false} ClosedStaysClosed(s: State, run: seq<Step>)
    requires Inv(s) && s.closed && Execute(s, run).Some?
    ensures Execute(s, run).value.closed && Execute(s, run).value.enqueued == s.enqueued
    decreases |run|
  {
    if run != [] {
      StepKeepsInv(s, run[0]);
      ClosedStaysClosed(Do(s, run[0]), run[1..]);
    }
  }

  lemma ClosedObserverRefuses(s: State, frozen: Frozen, phase: Phase)
    requires s.caller == Idle && s.closed
    ensures Answer(s, StartCall(frozen, phase)) == Some(Raised) && Do(s, StartCall(frozen, phase)) == s
  {
  }

  /** The batches a run has accepted, in order. */
  function Accepted(s: State, run: seq<Step>): seq<Batch>
    requires Execute(s, run).Some?
    decreases |run|
  {
    if run == [] then []
    else
      (if run[0].StartCall? && run[0].frozen.Frozen? && Answer(s, run[0]) == None then [run[0].frozen.batch] else [])
      + Accepted(Do(s, run[0]), run[1..])
  }

  function InHand(c: Caller): seq<Batch> {
    if c.Putting? then [c.batch] else []
  }

  /** Every accepted batch is enqueued once, in order, except the one in hand. */
  lemma {:induction false} AcceptedAreEnqueued(s: State, run: seq<Step>)
    requires Execute(s, run).Some?
    ensures var w := Execute(s, run).value;
            s.enqueued + InHand(s.caller) + Accepted(s, run) == w.enqueued + InHand(w.caller)
    decreases |run|
  {
    if run != [] {
      AcceptedAreEnqueued(Do(s, run[0]), run[1..]);
      AcceptedStep(s, run[0]);
    }
  }

  lemma AcceptedStep(s: State, t: Step)
    requires Enabled(s, t)
    ensures s.enqueued + InHand(s.caller) +
            (if t.StartCall? && t.frozen.Frozen? && Answer(s, t) == None then [t.frozen.batch] else [])
            == Do(s, t).enqueued + InHand(Do(s, t).caller)
  {
  }

  /** Once an error is recorded it stays, and a failing write of a batch records one. */
  lemma FailureIsRecorded(s: State, outcome: WriteOutcome, run: seq<Step>)
    requires s.worker.Holding? && s.worker.item.Work? && outcome != WriteOk
    requires Execute(s, [Process(outcome)] + run).Some?
    ensures Execute(s, [Process(outcome)] + run).value.error
  {
    var t := Process(outcome);
    assert ([t] + run)[1..] == run;
    NothingWrittenAfterFailure(Do(s, t), run);
  }

  /** A batch is written when its turn comes, unless a failure has been recorded. */
  lemma WriteAddsTheBatch(s: State, outcome: WriteOutcome)
    requires s.worker.Holding? && s.worker.item.Work?
    ensures Do(s, Process(outcome)).written ==
            if s.error || outcome == WriteFails then s.written else s.written + [s.worker.item.batch]
    ensures Do(s, Process(outcome)).error <==> s.error || outcome != WriteOk
  {
  }

  // ---------------------------------------------------------------------------
  // Waiting always ends
  // ---------------------------------------------------------------------------

  /** Worker steps left before the worker has nothing to do. */
  function WorkLeft(s: State): nat {
    3 * |s.queue| + (match s.worker case Holding(_) => 2 case Finishing(_) => 1 case _ => 0)
  }

  function NextWorkerStep(s: State): Step {
    match s.worker
    case Holding(_) => Process(WriteOk)
    case Finishing(_) => TaskDone
    case _ => Get
  }

  /** A caller that waits is let through, or the worker can move and gets closer to done. */
  lemma WaitingMakesProgress(s: State)
    requires Inv(s) && (s.caller.Joining? || s.caller.JoiningWorker?)
    ensures Enabled(s, JoinDone) || Enabled(s, WorkerJoined) || Enabled(s, NextWorkerStep(s))
  {
  }

  lemma WorkerStepsFinish(s: State, t: Step)
    requires Enabled(s, t) && (t.Get? || t.Process? || t.TaskDone?)
    ensures WorkLeft(Do(s, t)) < WorkLeft(s)
  {
  }

  predicate IsWorkerStep(t: Step) {
    t.Get? || t.Process? || t.TaskDone?
  }

  predicate Waiting(s: State) {
    s.caller.Joining? || s.caller.JoiningWorker?
  }

  predicate LetThrough(s: State) {
    Enabled(s, JoinDone) || Enabled(s, WorkerJoined)
  }

  /** Left to itself the worker takes at most `WorkLeft` steps, whatever the writes do. */
  lemma {:induction false} WorkerRunsAreShort(s: State, run: seq<Step>)
    requires Execute(s, run).Some? && forall t :: t in run ==> IsWorkerStep(t)
    ensures |run| <= WorkLeft(s) - WorkLeft(Execute(s, run).value)
    decreases |run|
  {
    if run != [] {
      assert run[0] in run;
      WorkerStepsFinish(s, run[0]);
      WorkerRunsAreShort(Do(s, run[0]), run[1..]);
    }
  }

  /** A caller that waits in a reachable state is let through after at most `WorkLeft` steps of the worker alone. */
  lemma {:induction false} WaitEnds(s: State) returns (run: seq<Step>)
    requires Inv(s) && Waiting(s)
    ensures |run| <= WorkLeft(s) && forall t :: t in run ==> IsWorkerStep(t)
    ensures Execute(s, run).Some? && LetThrough(Execute(s, run).value)
    decreases WorkLeft(s)
  {
    run := [];
    if !LetThrough(s) {
      WaitingMakesProgress(s);
      var t := NextWorkerStep(s);
      WorkerStepsFinish(s, t);
      StepKeepsInv(s, t);
      var rest := WaitEnds(Do(s, t));
      run := [t] + rest;
      assert run[1..] == rest;
    }
  }

  /** And the worker stops only when the caller can go on: no waiting state is stuck. */
  lemma IdleWorkerLetsThrough(s: State)
    requires Inv(s) && Waiting(s) && forall t :: IsWorkerStep(t) ==> !Enabled(s, t)
    ensures LetThrough(s)
  {
    WaitingMakesProgress(s);
    assert IsWorkerStep(NextWorkerStep(s));
  }
}
