/**
 Crash safety of durable steps (durable/step_state.py, checkpoint_store.py and
 step_runner.py).

 One step owns three files, each replaced atomically.  A run of the step is a
 list of events: the atomic writes, and the call of `fn` between them.  A crash
 is a prefix of that list.  `fn` may return anything or raise; its outcome is an
 argument of the call.  The hash is injective: it carries the hashed document.
 */
module DurableSteps {
  import opened Numbers
  import opened Wrappers

  type Json = string   // canonical text of a JSON object

  datatype Hash = NoHash | HashOf(document: Json)

  // ---------------------------------------------------------------------------
  // Step states
  // ---------------------------------------------------------------------------

  datatype StepState =
    | Created | Ready | Inflight | Committed | RetryableFailed | TerminalFailed | Cancelled | Resumed

  predicate Terminal(s: StepState) {
    s == Committed || s == TerminalFailed || s == Cancelled
  }

  function Allowed(s: StepState): set<StepState> {
    match s
    case Created => {Ready, Inflight, Cancelled, TerminalFailed}
    case Ready => {Inflight, Cancelled, TerminalFailed}
    case Inflight => {Committed, RetryableFailed, TerminalFailed, Cancelled}
    case RetryableFailed => {Ready, Inflight, Resumed, TerminalFailed, Cancelled}
    case Resumed => {Ready, Inflight, TerminalFailed, Cancelled}
    case _ => {}
  }

  predicate ValidTransition(from: StepState, to: StepState) {
    from == to || (!Terminal(from) && to in Allowed(from))
  }

  /** How each state is entered: the table read by target.  Staying put is always allowed. */
  lemma EnteredFrom(from: StepState, to: StepState)
    requires from != to
    ensures ValidTransition(from, to) <==>
              match to
              case Created => false
              case Ready => from in {Created, RetryableFailed, Resumed}
              case Inflight => from in {Created, Ready, RetryableFailed, Resumed}
              case Resumed => from == RetryableFailed
              case Committed => from == Inflight
              case RetryableFailed => from == Inflight
              case TerminalFailed => from !in {Committed, Cancelled}
              case Cancelled => from !in {Committed, TerminalFailed}
  {
  }

  /** Contents of `status.json`. */
  datatype Status = Status(state: StepState, attempt: nat, inputHash: Hash, outputHash: Hash)

  /** The status object the runner holds in memory. */
  class StepStatus {
    var state: StepState
    var attempt: nat
    var inputHash: Hash
    var outputHash: Hash

    constructor FromRecord(r: Status)
      ensures Record() == r
    {
      state, attempt, inputHash, outputHash := r.state, r.attempt, r.inputHash, r.outputHash;
    }

    function Record(): Status
      reads this
    {
      Status(state, attempt, inputHash, outputHash)
    }

    method Transition(to: StepState) returns (ok: bool)
      modifies this`state
      ensures ok == ValidTransition(old(state), to)
      ensures state == if ok then to else old(state)
    {
      ok := ValidTransition(state, to);
      if ok {
        state := to;
      }
    }
  }

  // ---------------------------------------------------------------------------
  // Worlds and events
  // ---------------------------------------------------------------------------

  datatype Outcome = Returns(output: Json) | RaisesRetryable | RaisesOther

  datatype Execution = Execution(input: Json, outcome: Outcome)

  /** The three files of a step, and a history of the calls of `fn` no file records. */
  datatype World = World(
    input: Option<Json>, status: Option<Status>, output: Option<Json>,
    log: seq<Execution>, sinceReset: nat)

  const INITIAL := World(None, None, None, [], 0)

  datatype Event =
    | WroteInput(document: Json)
    | WroteStatus(status: Status)
    | WroteReset(status: Status)
    | WroteOutput(document: Json)
    | Ran(execution: Execution)

  function Apply(w: World, e: Event): World {
    match e
    case WroteInput(d) => w.(input := Some(d))
    case WroteStatus(s) => w.(status := Some(s))
    case WroteReset(s) => w.(status := Some(s), sinceReset := 0)
    case WroteOutput(d) => w.(output := Some(d))
    case Ran(x) => w.(log := w.log + [x], sinceReset := w.sinceReset + 1)
  }

  function ApplyAll(w: World, es: seq<Event>): World
    decreases |es|
  {
    if es == [] then w else ApplyAll(Apply(w, es[0]), es[1..])
  }

  datatype Reply = Returned(output: Json) | Raised | Refused | Died

  datatype Run = Run(events: seq<Event>, reply: Reply)

  predicate Hit(w: World, input: Json) {
    && w.status.Some? && w.status.value.state == Committed
    && w.status.value.inputHash == HashOf(input) && w.output.Some?
  }

  predicate NeedsReset(w: World, input: Json) {
    w.status.Some? && w.status.value.state == Committed && w.status.value.inputHash != HashOf(input)
  }

  /** Status after the input has been checkpointed. */
  function Opened(w: World, input: Json): Status {
    if NeedsReset(w, input) || w.status == None then Status(Created, 0, HashOf(input), NoHash)
    else w.status.value.(inputHash := HashOf(input))
  }

  function OpeningEvents(w: World, input: Json): seq<Event> {
    if NeedsReset(w, input) then [WroteReset(Opened(w, input))]
    else
      var first := if w.status.Some? && w.status.value.inputHash != NoHash then w.status.value else Opened(w, input);
      [WroteInput(input), WroteStatus(first), WroteStatus(Opened(w, input))]
  }

  predicate GoesReady(s: StepState) {
    s == RetryableFailed || s == Resumed || s == Created
  }

  function Readied(s: Status): Status {
    if GoesReady(s.state) then s.(state := Ready) else s
  }

  function Launched(s: Status): Status {
    s.(state := Inflight, attempt := s.attempt + 1)
  }

  function FinalEvents(s: Status, outcome: Outcome): seq<Event> {
    match outcome
    case Returns(o) => [WroteOutput(o), WroteStatus(s.(state := Committed, outputHash := HashOf(o)))]
    case RaisesRetryable => [WroteStatus(s.(state := RetryableFailed))]
    case RaisesOther => [WroteStatus(s.(state := TerminalFailed))]
  }

  function ReadyEvents(s: Status): seq<Event> {
    if GoesReady(s.state) then [WroteStatus(Readied(s))] else []
  }

  function RunEvents(s: Status, input: Json, outcome: Outcome): seq<Event> {
    [WroteStatus(Launched(s)), Ran(Execution(input, outcome))] + FinalEvents(Launched(s), outcome)
  }

  function ReadyAndRun(s: Status, input: Json, outcome: Outcome): seq<Event> {
    ReadyEvents(s) + if ValidTransition(Readied(s).state, Inflight) then RunEvents(Readied(s), input, outcome) else []
  }

  /** Everything one uninterrupted call does, and what it answers. */
  function RunOf(w: World, input: Json, outcome: Outcome): Run {
    if Hit(w, input) then Run([], Returned(w.output.value))
    else
      var s := Opened(w, input);
      Run(OpeningEvents(w, input) + ReadyAndRun(s, input, outcome),
          if !ValidTransition(Readied(s).state, Inflight) then Refused
          else if outcome.Returns? then Returned(outcome.output) else Raised)
  }

  // ---------------------------------------------------------------------------
  // The runner
  // ---------------------------------------------------------------------------

  /** The step directory; `fuse` is the number of further events before the process dies. */
  class CheckpointStore {
    var input: Option<Json>
    var status: Option<Status>
    var output: Option<Json>
    var fuse: nat
    ghost var log: seq<Execution>
    ghost var sinceReset: nat

    constructor (fuse: nat)
      ensures View() == INITIAL && this.fuse == fuse
    {
      input, status, output, log, sinceReset := None, None, None, [], 0;
      this.fuse := fuse;
    }

    ghost function View(): World
      reads this
    {
      World(input, status, output, log, sinceReset)
    }

    /** The events of `es` have happened, as far as the fuse allowed. */
    twostate predicate Performed(es: seq<Event>, alive: bool)
      reads this
    {
      && alive == (old(fuse) >= |es|)
      && View() == ApplyAll(old(View()), es[..Min(old(fuse), |es|)])
      && fuse == old(fuse) - Min(old(fuse), |es|)
    }

    /** One atomic replace; the process may be dead already. */
    method WriteStatus(s: StepStatus, reset: bool) returns (alive: bool)
      modifies this
      ensures Performed([if reset then WroteReset(s.Record()) else WroteStatus(s.Record())], alive)
    {
      ghost var e := if reset then WroteReset(s.Record()) else WroteStatus(s.Record());
      Prefixes1(View(), e);
      alive := fuse > 0;
      if alive {
        status, fuse := Some(s.Record()), fuse - 1;
        if reset { sinceReset := 0; }
      }
    }

    /** `write_input`: the input file, then the status read back from disk or a new one. */
    method CheckpointInput(document: Json) returns (alive: bool, s: StepStatus)
      modifies this
      ensures fresh(s)
      ensures var first := if old(status) == None then Status(Created, 0, HashOf(document), NoHash)
                           else if old(status).value.inputHash == NoHash
                               then old(status).value.(inputHash := HashOf(document))
                           else old(status).value;
              s.Record() == first && Performed([WroteInput(document), WroteStatus(first)], alive)
    {
      var first := if status.Some? then status.value else Status(Created, 0, HashOf(document), NoHash);
      s := new StepStatus.FromRecord(first);
      if s.inputHash == NoHash {
        s.inputHash := HashOf(document);
      }
      Prefixes2(View(), WroteInput(document), WroteStatus(s.Record()));
      alive := fuse > 0;
      if !alive { return; }
      input, fuse := Some(document), fuse - 1;
      ghost var v := View();
      Prefixes1(v, WroteStatus(s.Record()));
      alive := WriteStatus(s, false);
    }

    method CallFn(i: Json, outcome: Outcome) returns (alive: bool)
      modifies this
      ensures Performed([Ran(Execution(i, outcome))], alive)
    {
      Prefixes1(View(), Ran(Execution(i, outcome)));
      alive := fuse > 0;
      if alive { log, sinceReset, fuse := log + [Execution(i, outcome)], sinceReset + 1, fuse - 1; }
    }

    /** `commit_output`: the output file first, the committed status second. */
    method CommitOutput(s: StepStatus, document: Json) returns (alive: bool)
      requires s.state == Inflight
      modifies this, s
      ensures Performed([WroteOutput(document),
                         WroteStatus(old(s.Record()).(state := Committed, outputHash := HashOf(document)))], alive)
    {
      ghost var final := s.Record().(state := Committed, outputHash := HashOf(document));
      Prefixes2(View(), WroteOutput(document), WroteStatus(final));
      alive := fuse > 0;
      if !alive { return; }
      output, fuse := Some(document), fuse - 1;
      s.outputHash := HashOf(document);
      var _ := s.Transition(Committed);
      Prefixes1(View(), WroteStatus(final));
      alive := WriteStatus(s, false);
    }
  }

  lemma Prefixes1(w: World, e: Event)
    ensures ApplyAll(w, [e][..1]) == Apply(w, e) && ApplyAll(w, [e][..0]) == w
  {
    assert [e][..1] == [e] && [e][1..] == [];
  }

  lemma Prefixes2(w: World, d: Event, e: Event)
    ensures ApplyAll(w, [d, e][..0]) == w && ApplyAll(w, [d, e][..1]) == Apply(w, d)
    ensures ApplyAll(w, [d, e][..2]) == Apply(Apply(w, d), e)
  {
    assert [d, e][..1] == [d] && [d, e][..2] == [d, e] && [d, e][1..] == [e] && [e][..1] == [e];
    Prefixes1(w, d);
    Prefixes1(Apply(w, d), e);
    assert ApplyAll(w, [d, e]) == ApplyAll(Apply(w, d), [e]);
  }

  lemma {:induction false} ApplyConcat(w: World, a: seq<Event>, b: seq<Event>)
    ensures ApplyAll(w, a + b) == ApplyAll(ApplyAll(w, a), b)
    decreases |a|
  {
    if a == [] {
      assert a + b == b;
    } else {
      assert (a + b)[1..] == a[1..] + b;
      ApplyConcat(Apply(w, a[0]), a[1..], b);
    }
  }

  /** The run is under way: the events of `done`, a prefix of `es`, have all happened. */
  ghost predicate Reached(w0: World, fuse0: nat, es: seq<Event>, done: seq<Event>, w: World, fuse: nat) {
    done <= es && |done| + fuse == fuse0 && w == ApplyAll(w0, done)
  }

  /** Performing the next part of the run either completes it or leaves a prefix of the whole run. */
  lemma NextPart(w0: World, fuse0: nat, es: seq<Event>, done: seq<Event>, part: seq<Event>, w: World, fuse: nat)
    requires Reached(w0, fuse0, es, done, w, fuse) && done + part <= es
    ensures fuse >= |part| ==> part[..Min(fuse, |part|)] == part
                               && Reached(w0, fuse0, es, done + part, ApplyAll(w, part), fuse - |part|)
    ensures fuse < |part| ==> fuse0 < |es| && ApplyAll(w, part[..fuse]) == ApplyAll(w0, es[..fuse0])
  {
    if fuse >= |part| {
      ApplyConcat(w0, done, part);
    } else {
      assert es[..fuse0] == done + part[..fuse];
      ApplyConcat(w0, done, part[..fuse]);
    }
  }

  /**
   `run_step` as written.  Whatever the fuse, the files and the history end up
   as a prefix of the run says, and a call that is not cut short answers as the
   run says.
   */
  method RunStep(store: CheckpointStore, input: Json, outcome: Outcome) returns (reply: Reply)
    modifies store
    ensures var run := RunOf(old(store.View()), input, outcome);
            var k := Min(old(store.fuse), |run.events|);
            && store.View() == ApplyAll(old(store.View()), run.events[..k])
            && reply == if k < |run.events| then Died else run.reply
  {
    ghost var w0, fuse0 := store.View(), store.fuse;
    ghost var es := RunOf(w0, input, outcome).events;
    var h := HashOf(input);
    var stored := store.status;
    if stored.Some? && stored.value.state == Committed && stored.value.inputHash == h && store.output.Some? {
      assert es[..0] == [];
      return Returned(store.output.value);
    }
    ghost var opening, fin := OpeningEvents(w0, input), ReadyAndRun(Opened(w0, input), input, outcome);
    NextPart(w0, fuse0, es, [], opening, w0, fuse0);
    assert es == opening + fin && [] + opening == opening && es[..|es|] == es;
    var status, alive := OpenStep(store, input);
    if !alive { return Died; }
    NextPart(w0, fuse0, es, opening, fin, store.View(), store.fuse);
    reply := ExecuteStep(store, status, input, outcome);
  }

  /** The rest of the run: to ready, to inflight, the call, and the outcome. */
  method ExecuteStep(store: CheckpointStore, status: StepStatus, input: Json, outcome: Outcome) returns (reply: Reply)
    modifies store, status
    ensures var es := ReadyAndRun(old(status.Record()), input, outcome);
            store.Performed(es, old(store.fuse) >= |es|) &&
            reply == if old(store.fuse) < |es| then Died
                     else if !ValidTransition(Readied(old(status.Record())).state, Inflight) then Refused
                     else if outcome.Returns? then Returned(outcome.output) else Raised
  {
    ghost var w0, fuse0 := store.View(), store.fuse;
    ghost var s := status.Record();
    ghost var es := ReadyAndRun(s, input, outcome);
    ghost var done := ReadyEvents(s);
    NextPart(w0, fuse0, es, [], done, w0, fuse0);
    assert [] + done == done && es[..|es|] == es;
    if status.state == RetryableFailed || status.state == Resumed || status.state == Created {
      var _ := status.Transition(Ready);
      var alive := store.WriteStatus(status, false);
      if !alive { return Died; }
    }
    assert status.Record() == Readied(s);
    if ValidTransition(Readied(s).state, Inflight) {
      NextPart(w0, fuse0, es, done, RunEvents(Readied(s), input, outcome), store.View(), store.fuse);
    }
    reply := LaunchStep(store, status, input, outcome);
  }

  method LaunchStep(store: CheckpointStore, status: StepStatus, input: Json, outcome: Outcome) returns (reply: Reply)
    modifies store, status
    ensures var s := old(status.Record());
            if !ValidTransition(s.state, Inflight) then
              reply == Refused && store.View() == old(store.View()) && store.fuse == old(store.fuse)
            else
              var es := RunEvents(s, input, outcome);
              store.Performed(es, old(store.fuse) >= |es|) &&
              reply == if old(store.fuse) < |es| then Died
                       else if outcome.Returns? then Returned(outcome.output) else Raised
  {
    ghost var w0, fuse0 := store.View(), store.fuse;
    ghost var s := status.Record();
    ghost var es := RunEvents(s, input, outcome);
    status.attempt := status.attempt + 1;
    var ok := status.Transition(Inflight);
    if !ok {
      return Refused;
    }
    ghost var launch, call, fin := [es[0]], [es[1]], FinalEvents(Launched(s), outcome);
    assert es == launch + call + fin && [] + launch == launch && es[..|es|] == es;
    NextPart(w0, fuse0, es, [], launch, w0, fuse0);
    var alive := store.WriteStatus(status, false);
    if !alive { return Died; }
    NextPart(w0, fuse0, es, launch, call, store.View(), store.fuse);
    alive := store.CallFn(input, outcome);
    if !alive { return Died; }
    NextPart(w0, fuse0, es, launch + call, fin, store.View(), store.fuse);
    match outcome {
      case Returns(o) =>
        alive := store.CommitOutput(status, o);
        reply := Returned(o);
      case RaisesRetryable =>
        var _ := status.Transition(RetryableFailed);
        alive := store.WriteStatus(status, false);
        reply := Raised;
      case RaisesOther =>
        var _ := status.Transition(TerminalFailed);
        alive := store.WriteStatus(status, false);
        reply := Raised;
    }
    if !alive { return Died; }
  }

  /** The two ways a step is opened: reset a committed step, or checkpoint the input. */
  method OpenStep(store: CheckpointStore, input: Json) returns (status: StepStatus, alive: bool)
    requires !Hit(store.View(), input)
    modifies store
    ensures fresh(status) && store.Performed(OpeningEvents(old(store.View()), input), alive)
    ensures status.Record() == Opened(old(store.View()), input)
  {
    ghost var w0, fuse0 := store.View(), store.fuse;
    ghost var es := OpeningEvents(w0, input);
    var stored := store.status;
    if stored.Some? && stored.value.state == Committed && stored.value.inputHash != HashOf(input) {
      status := new StepStatus.FromRecord(Status(Created, 0, HashOf(input), NoHash));
      alive := store.WriteStatus(status, true);
    } else {
      alive, status := store.CheckpointInput(input);
      ghost var part := [es[0], es[1]];
      NextPart(w0, fuse0, es, [], part, w0, fuse0);
      assert [] + part == part;
      status.inputHash := HashOf(input);
      if !alive { return; }
      NextPart(w0, fuse0, es, part, [es[2]], store.View(), store.fuse);
      assert part + [es[2]] == es && es[..|es|] == es;
      alive := store.WriteStatus(status, false);
    }
  }
}
