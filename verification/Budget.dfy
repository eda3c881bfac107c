/**
 The money reservation protocol (llm/budget.py, llm/session.py).

 The critical sections are methods of the session.  The protocol around them is
 a state machine: any number of calls, interleaved in any way, each recording
 any number of costs between its admission and its exit.  Recorded costs are not
 negative, the budget is fixed, and events are not cleared while calls run.
 */
module Budget {
  import opened Numbers
  import opened Wrappers

  /** A telemetry event; `cost` is None when the provider reported none. */
  datatype Event = Event(replayed: bool, cost: Option<real>)

  predicate Priced(e: Event) {
    !e.replayed && e.cost.Some?
  }

  function Cost(e: Event): real {
    if Priced(e) then e.cost.value else 0.0
  }

  function Completed(events: seq<Event>): real {
    if events == [] then 0.0 else Completed(events[..|events| - 1]) + Cost(events[|events| - 1])
  }

  /** Largest priced event, 0 if there is none. */
  function Dearest(events: seq<Event>): real {
    if events == [] then 0.0 else RealMax(Dearest(events[..|events| - 1]), Cost(events[|events| - 1]))
  }

  ghost predicate NonNegative(events: seq<Event>) {
    forall e :: e in events ==> Cost(e) >= 0.0
  }

  /** The admission decision: the reservation taken, or None for the budget error. */
  function Admission(events: seq<Event>, reserved: real, budget: real): Option<real> {
    var r := Dearest(events);
    if Completed(events) >= budget || (r > 0.0 && Completed(events) + reserved + r > budget) then None else Some(r)
  }

  class LLMSession {
    var events: seq<Event>
    var reservation: real

    constructor ()
      ensures events == [] && reservation == 0.0
    {
      events, reservation := [], 0.0;
    }

    method Record(e: Event)
      modifies this`events
      ensures events == old(events) + [e]
    {
      events := events + [e];
    }

    /** The critical section that opens a call. */
    method Reserve(budget: real) returns (taken: Option<real>)
      requires NonNegative(events)
      modifies this`reservation
      ensures taken == Admission(events, old(reservation), budget)
      ensures reservation == old(reservation) + if taken.Some? then taken.value else 0.0
    {
      var completed, dearest := 0.0, 0.0;
      for k := 0 to |events|
        invariant reservation == old(reservation)
        invariant completed == Completed(events[..k]) && dearest == Dearest(events[..k])
      {
        assert events[..k + 1][..k] == events[..k];
        if Priced(events[k]) {
          completed := completed + events[k].cost.value;
          dearest := RealMax(dearest, events[k].cost.value);
        }
        DearestBounds(events[..k]);
      }
      assert events[..|events|] == events;
      if completed >= budget || (dearest > 0.0 && completed + reservation + dearest > budget) {
        return None;
      }
      reservation := reservation + dearest;
      return Some(dearest);
    }

    /** The critical section that closes a call. */
    method Release(taken: real)
      modifies this`reservation
      ensures reservation == RealMax(0.0, old(reservation) - taken)
    {
      reservation := RealMax(0.0, reservation - taken);
    }
  }

  lemma {:induction false} DearestBounds(events: seq<Event>)
    ensures Dearest(events) >= 0.0
    ensures forall e :: e in events ==> Cost(e) <= Dearest(events)
  {
    if events != [] {
      var front := events[..|events| - 1];
      DearestBounds(front);
      forall e | e in events ensures Cost(e) <= Dearest(events) {
        if e !in front { assert e == events[|events| - 1]; }
      }
    }
  }

  /** What an event adds: its cost, unless it was replayed or has none. */
  lemma OnlyPricedEventsCount(events: seq<Event>, e: Event)
    ensures Completed(events + [e]) == Completed(events) + if !e.replayed && e.cost.Some? then e.cost.value else 0.0
    ensures NonNegative(events) && (e.replayed || e.cost.None?) ==> Dearest(events + [e]) == Dearest(events)
    ensures !e.replayed && e.cost.Some? && e.cost.value > Dearest(events) ==> Dearest(events + [e]) == e.cost.value
  {
    assert (events + [e])[..|events|] == events;
    DearestBounds(events);
  }

  lemma {:induction false} DearestIsAttained(events: seq<Event>)
    ensures Dearest(events) > 0.0 ==> exists e :: e in events && Cost(e) == Dearest(events)
  {
    if events != [] {
      var front, last := events[..|events| - 1], events[|events| - 1];
      DearestIsAttained(front);
      assert last in events && forall e :: e in front ==> e in events;
    }
  }

  /**
   A call is admitted exactly when money is left and, on top of what is spent
   and reserved, each priced event so far could happen once more; it then
   reserves the cost of the dearest of them.
   */
  lemma AdmittedIff(events: seq<Event>, reserved: real, budget: real)
    ensures Admission(events, reserved, budget).Some? <==>
              && Completed(events) < budget
              && forall e :: e in events && Cost(e) > 0.0 ==> Completed(events) + reserved + Cost(e) <= budget
    ensures Admission(events, reserved, budget).Some? ==>
              var r := Admission(events, reserved, budget).value;
              && r >= 0.0 && (forall e :: e in events ==> Cost(e) <= r)
              && (r > 0.0 ==> exists e :: e in events && Cost(e) == r)
  {
    DearestBounds(events);
    DearestIsAttained(events);
  }

  // ---------------------------------------------------------------------------
  // The protocol
  // ---------------------------------------------------------------------------

  /** Deciding: holds the call lock.  Admitted: reserved, lock still held.  Leaving: body over, lock held. */
  datatype Phase = Deciding | Admitted | InBody | Leaving | Finished | Rejected

  datatype Call = Call(phase: Phase, reservation: real, spent: real)

  datatype State = State(events: seq<Event>, reserved: real, lock: Option<nat>, calls: seq<Call>)

  const INITIAL := State([], 0.0, None, [])

  datatype Step =
    | Arrive | Decide(i: nat) | ReleaseEarly(i: nat) | RecordCost(i: nat, event: Event) | Exit(i: nat)
    | ReleaseLate(i: nat)

  predicate InPhase(s: State, i: nat, p: Phase) {
    i < |s.calls| && s.calls[i].phase == p
  }

  predicate Enabled(s: State, t: Step) {
    match t
    case Arrive => s.lock == None
    case Decide(i) => InPhase(s, i, Deciding)
    case ReleaseEarly(i) => InPhase(s, i, Admitted)
    case RecordCost(i, e) => InPhase(s, i, InBody) && Cost(e) >= 0.0
    case Exit(i) => InPhase(s, i, InBody)
    case ReleaseLate(i) => InPhase(s, i, Leaving)
  }

  function Do(s: State, t: Step, budget: real): State
    requires Enabled(s, t)
  {
    match t
    case Arrive => s.(lock := Some(|s.calls|), calls := s.calls + [Call(Deciding, 0.0, 0.0)])
    case Decide(i) =>
      (match Admission(s.events, s.reserved, budget)
       case None => s.(lock := None, calls := s.calls[i := s.calls[i].(phase := Rejected)])
       case Some(r) =>
         s.(reserved := s.reserved + r, calls := s.calls[i := s.calls[i].(phase := Admitted, reservation := r)]))
    case ReleaseEarly(i) =>
      s.(lock := if s.calls[i].reservation > 0.0 then None else s.lock,
         calls := s.calls[i := s.calls[i].(phase := InBody)])
    case RecordCost(i, e) =>
      s.(events := s.events + [e], calls := s.calls[i := s.calls[i].(spent := s.calls[i].spent + Cost(e))])
    case Exit(i) =>
      s.(reserved := RealMax(0.0, s.reserved - s.calls[i].reservation),
         calls := s.calls[i := s.calls[i].(phase := if s.calls[i].reservation > 0.0 then Finished else Leaving)])
    case ReleaseLate(i) => s.(lock := None, calls := s.calls[i := s.calls[i].(phase := Finished)])
  }

  function Execute(s: State, run: seq<Step>, budget: real): Option<State>
    decreases |run|
  {
    if run == [] then Some(s)
    else if !Enabled(s, run[0]) then None
    else Execute(Do(s, run[0], budget), run[1..], budget)
  }

  /** A call spends only in its body. */
  ghost predicate OnlyBodiesSpend(s: State) {
    forall i :: 0 <= i < |s.calls| && s.calls[i].phase in {Deciding, Admitted, Rejected} ==> s.calls[i].spent == 0.0
  }

  /** Over every run a refused call has spent nothing, and who is refused stays refused. */
  lemma {:induction false} RefusedSpendNothing(s: State, run: seq<Step>, budget: real, i: nat)
    requires OnlyBodiesSpend(s) && Execute(s, run, budget).Some? && i < |s.calls|
    ensures OnlyBodiesSpend(Execute(s, run, budget).value) && i < |Execute(s, run, budget).value.calls|
    ensures s.calls[i].phase == Rejected ==> Execute(s, run, budget).value.calls[i].phase == Rejected
    ensures s.calls[i].phase !in {Deciding, Rejected} ==> Execute(s, run, budget).value.calls[i].phase != Rejected
    decreases |run|
  {
    if run != [] {
      RefusedSpendNothing(Do(s, run[0], budget), run[1..], budget, i);
    }
  }

  // ---------------------------------------------------------------------------
  // Totals over calls
  // ---------------------------------------------------------------------------

  predicate InFlight(c: Call) {
    c.phase == Admitted || c.phase == InBody
  }

  function Outstanding(c: Call): real {
    if InFlight(c) then c.reservation else 0.0
  }

  function Spent(c: Call): real {
    c.spent
  }

  /** Part of the reservation a call in flight may still spend. */
  function Headroom(c: Call): real {
    if InFlight(c) then RealMax(0.0, c.reservation - c.spent) else 0.0
  }

  function Overrun(c: Call): real {
    RealMax(0.0, c.spent - c.reservation)
  }

  function Total(f: Call -> real, cs: seq<Call>): real {
    if cs == [] then 0.0 else Total(f, cs[..|cs| - 1]) + f(cs[|cs| - 1])
  }

  lemma TotalAppend(f: Call -> real, cs: seq<Call>, c: Call)
    ensures Total(f, cs + [c]) == Total(f, cs) + f(c)
  {
    assert (cs + [c])[..|cs|] == cs;
  }

  lemma {:induction false} TotalUpdate(f: Call -> real, cs: seq<Call>, i: nat, c: Call)
    requires i < |cs|
    ensures Total(f, cs[i := c]) == Total(f, cs) - f(cs[i]) + f(c)
  {
    var n := |cs| - 1;
    if i < n {
      TotalUpdate(f, cs[..n], i, c);
      assert cs[i := c][..n] == cs[..n][i := c];
    } else {
      assert cs[i := c][..n] == cs[..n];
    }
  }

  lemma {:induction false} TotalAtLeast(f: Call -> real, cs: seq<Call>, i: nat)
    requires i < |cs| && forall c :: c in cs ==> f(c) >= 0.0
    ensures f(cs[i]) <= Total(f, cs) && Total(f, cs) >= 0.0
  {
    var n := |cs| - 1;
    if i < n {
      TotalAtLeast(f, cs[..n], i);
    } else if n > 0 {
      TotalAtLeast(f, cs[..n], 0);
    }
  }

  lemma {:induction false} HeadroomWithinReservations(cs: seq<Call>)
    requires forall c :: c in cs ==> c.spent >= 0.0 && c.reservation >= 0.0
    ensures Total(Headroom, cs) <= Total(Outstanding, cs)
    ensures 0.0 <= Total(Overrun, cs)
  {
    if cs != [] {
      assert cs[|cs| - 1] in cs;
      HeadroomWithinReservations(cs[..|cs| - 1]);
    }
  }

  // ---------------------------------------------------------------------------
  // The invariant
  // ---------------------------------------------------------------------------

  predicate HoldsLock(c: Call) {
    c.phase == Deciding || c.phase == Admitted || c.phase == Leaving || (c.phase == InBody && c.reservation == 0.0)
  }

  ghost predicate LockInv(s: State) {
    && (forall i :: 0 <= i < |s.calls| ==> (HoldsLock(s.calls[i]) <==> s.lock == Some(i)))
    && (forall i :: 0 <= i < |s.calls| ==> s.calls[i].reservation >= 0.0 && s.calls[i].spent >= 0.0)
    && (forall i :: 0 <= i < |s.calls| && s.calls[i].phase == Deciding ==>
          s.calls[i].reservation == 0.0 == s.calls[i].spent)
    && (forall i :: 0 <= i < |s.calls| && s.calls[i].phase == Admitted ==> s.calls[i].spent == 0.0)
    && (forall i :: 0 <= i < |s.calls| && s.calls[i].phase == Leaving ==> s.calls[i].reservation == 0.0)
  }

  ghost predicate MoneyInv(s: State, budget: real) {
    && NonNegative(s.events)
    && s.reserved == Total(Outstanding, s.calls)
    && Completed(s.events) == Total(Spent, s.calls)
    && Completed(s.events) + Total(Headroom, s.calls) <= budget + Total(Overrun, s.calls)
  }

  /** A call that reserved nothing is the only one in flight. */
  ghost predicate AloneInv(s: State) {
    && (forall i, j :: 0 <= i < |s.calls| && 0 <= j < |s.calls| && i != j
                       && InFlight(s.calls[i]) && s.calls[i].reservation == 0.0
          ==> !InFlight(s.calls[j]))
    && (forall i :: 0 <= i < |s.calls| && s.calls[i].reservation > 0.0 ==> Dearest(s.events) > 0.0)
  }

  ghost predicate Inv(s: State, budget: real) {
    LockInv(s) && MoneyInv(s, budget) && AloneInv(s)
  }

  lemma AppendEvent(events: seq<Event>, e: Event)
    ensures Completed(events + [e]) == Completed(events) + Cost(e)
    ensures Dearest(events + [e]) == RealMax(Dearest(events), Cost(e))
  {
    assert (events + [e])[..|events|] == events;
  }

  lemma LockKept(s: State, t: Step, budget: real)
    requires LockInv(s) && Enabled(s, t)
    ensures LockInv(Do(s, t, budget))
  {
    match t
    case Decide(i) => LockKeptByDecision(s, i, budget);
    case _ =>
  }

  lemma LockKeptByDecision(s: State, i: nat, budget: real)
    requires LockInv(s) && Enabled(s, Decide(i))
    ensures LockInv(Do(s, Decide(i), budget))
  {
    DearestBounds(s.events);
  }

  lemma TotalsUpdated(s: State, i: nat, c: Call)
    requires i < |s.calls|
    ensures Total(Outstanding, s.calls[i := c]) ==
            Total(Outstanding, s.calls) - Outstanding(s.calls[i]) + Outstanding(c)
    ensures Total(Spent, s.calls[i := c]) == Total(Spent, s.calls) - Spent(s.calls[i]) + Spent(c)
    ensures Total(Headroom, s.calls[i := c]) == Total(Headroom, s.calls) - Headroom(s.calls[i]) + Headroom(c)
    ensures Total(Overrun, s.calls[i := c]) == Total(Overrun, s.calls) - Overrun(s.calls[i]) + Overrun(c)
  {
    TotalUpdate(Outstanding, s.calls, i, c);
    TotalUpdate(Spent, s.calls, i, c);
    TotalUpdate(Headroom, s.calls, i, c);
    TotalUpdate(Overrun, s.calls, i, c);
  }

  lemma MoneyKeptByDecision(s: State, i: nat, budget: real)
    requires LockInv(s) && MoneyInv(s, budget) && Enabled(s, Decide(i))
    ensures MoneyInv(Do(s, Decide(i), budget), budget)
  {
    var s' := Do(s, Decide(i), budget);
    TotalsUpdated(s, i, s'.calls[i]);
    DearestBounds(s.events);
    HeadroomWithinReservations(s.calls);
  }

  lemma RecordingShifts(c: Call, x: real)
    requires c.phase == InBody && x >= 0.0
    ensures var c' := c.(spent := c.spent + x);
            Headroom(c) - Headroom(c') + Overrun(c') - Overrun(c) == x
  {
  }

  lemma MoneyKeptByRecord(s: State, i: nat, e: Event, budget: real)
    requires MoneyInv(s, budget) && Enabled(s, RecordCost(i, e))
    ensures MoneyInv(Do(s, RecordCost(i, e), budget), budget)
  {
    AppendEvent(s.events, e);
    RecordingShifts(s.calls[i], Cost(e));
    NonNegativeAppend(s.events, e);
    MoneyBalances(s, i, Do(s, RecordCost(i, e), budget), budget);
  }

  /** What one call adds to the spending must come out of its headroom or go to its overrun. */
  lemma MoneyBalances(s: State, i: nat, s': State, budget: real)
    requires MoneyInv(s, budget) && NonNegative(s'.events) && i < |s.calls| == |s'.calls|
    requires s'.calls == s.calls[i := s'.calls[i]]
    requires var c, c' := s.calls[i], s'.calls[i];
             && s'.reserved - s.reserved == Outstanding(c') - Outstanding(c)
             && Completed(s'.events) - Completed(s.events) == Spent(c') - Spent(c)
             && Spent(c') - Spent(c) <= (Headroom(c) - Headroom(c')) + (Overrun(c') - Overrun(c))
    ensures MoneyInv(s', budget)
  {
    TotalsUpdated(s, i, s'.calls[i]);
  }

  lemma NonNegativeAppend(events: seq<Event>, e: Event)
    requires NonNegative(events) && Cost(e) >= 0.0
    ensures NonNegative(events + [e])
  {
  }

  lemma ExitIsCovered(s: State, i: nat)
    requires LockInv(s) && s.reserved == Total(Outstanding, s.calls) && InPhase(s, i, InBody)
    ensures s.reserved - s.calls[i].reservation >= 0.0
  {
    TotalAtLeast(Outstanding, s.calls, i);
  }

  lemma MoneyKeptByExit(s: State, i: nat, budget: real)
    requires LockInv(s) && MoneyInv(s, budget) && Enabled(s, Exit(i))
    ensures MoneyInv(Do(s, Exit(i), budget), budget)
  {
    TotalsUpdated(s, i, Do(s, Exit(i), budget).calls[i]);
    ExitIsCovered(s, i);
  }

  lemma MoneyKept(s: State, t: Step, budget: real)
    requires LockInv(s) && MoneyInv(s, budget) && Enabled(s, t)
    ensures MoneyInv(Do(s, t, budget), budget)
  {
    var s' := Do(s, t, budget);
    match t
    case Arrive =>
      var c := Call(Deciding, 0.0, 0.0);
      TotalAppend(Outstanding, s.calls, c);
      TotalAppend(Spent, s.calls, c);
      TotalAppend(Headroom, s.calls, c);
      TotalAppend(Overrun, s.calls, c);
    case Decide(i) => MoneyKeptByDecision(s, i, budget);
    case ReleaseEarly(i) => TotalsUpdated(s, i, s'.calls[i]);
    case ReleaseLate(i) => TotalsUpdated(s, i, s'.calls[i]);
    case RecordCost(i, e) => MoneyKeptByRecord(s, i, e, budget);
    case Exit(i) => MoneyKeptByExit(s, i, budget);
  }

  lemma AloneKept(s: State, t: Step, budget: real)
    requires LockInv(s) && AloneInv(s) && Enabled(s, t)
    ensures AloneInv(Do(s, t, budget))
  {
    match t
    case Decide(i) => AloneKeptByDecision(s, i, budget);
    case RecordCost(i, e) => AloneKeptByRecord(s, i, e, budget);
    case _ =>
  }

  lemma AloneKeptByRecord(s: State, i: nat, e: Event, budget: real)
    requires AloneInv(s) && Enabled(s, RecordCost(i, e))
    ensures AloneInv(Do(s, RecordCost(i, e), budget))
  {
    AppendEvent(s.events, e);
    SameReservations(s, Do(s, RecordCost(i, e), budget));
  }

  lemma SameReservations(s: State, s': State)
    requires AloneInv(s) && |s'.calls| == |s.calls| && Dearest(s'.events) >= Dearest(s.events)
    requires forall k :: 0 <= k < |s.calls| ==>
               s'.calls[k].phase == s.calls[k].phase && s'.calls[k].reservation == s.calls[k].reservation
    ensures AloneInv(s')
  {
  }

  lemma AloneKeptByDecision(s: State, i: nat, budget: real)
    requires LockInv(s) && AloneInv(s) && Enabled(s, Decide(i))
    ensures AloneInv(Do(s, Decide(i), budget))
  {
    DearestBounds(s.events);
  }

  lemma StepKeepsInv(s: State, t: Step, budget: real)
    requires Inv(s, budget) && Enabled(s, t)
    ensures Inv(Do(s, t, budget), budget)
  {
    LockKept(s, t, budget);
    MoneyKept(s, t, budget);
    AloneKept(s, t, budget);
  }

  lemma {:induction false} EveryRunKeepsInv(s: State, run: seq<Step>, budget: real)
    requires Inv(s, budget) && Execute(s, run, budget).Some?
    ensures Inv(Execute(s, run, budget).value, budget)
    decreases |run|
  {
    if run != [] {
      StepKeepsInv(s, run[0], budget);
      EveryRunKeepsInv(Do(s, run[0], budget), run[1..], budget);
    }
  }

  // ---------------------------------------------------------------------------
  // Main results, for every interleaving of any number of calls
  // ---------------------------------------------------------------------------

  /** Spending never exceeds the budget by more than the calls overran their own reservations. */
  lemma SpendingIsBounded(run: seq<Step>, budget: real)
    requires budget >= 0.0 && Execute(INITIAL, run, budget).Some?
    ensures var s := Execute(INITIAL, run, budget).value;
            Completed(s.events) <= budget + Total(Overrun, s.calls)
  {
    EveryRunKeepsInv(INITIAL, run, budget);
    var s := Execute(INITIAL, run, budget).value;
    HeadroomNonNegative(s.calls);
  }

  lemma {:induction false} HeadroomNonNegative(cs: seq<Call>)
    ensures Total(Headroom, cs) >= 0.0
  {
    if cs != [] {
      HeadroomNonNegative(cs[..|cs| - 1]);
    }
  }

  /** A call admitted without a reservation is alone in flight in every state in which it is in flight. */
  lemma UnpricedCallIsAlone(run: seq<Step>, budget: real, i: nat, j: nat)
    requires budget >= 0.0 && Execute(INITIAL, run, budget).Some?
    ensures var s := Execute(INITIAL, run, budget).value;
            i < |s.calls| && j < |s.calls| && i != j && InFlight(s.calls[i]) && s.calls[i].reservation == 0.0
            ==> !InFlight(s.calls[j])
  {
    EveryRunKeepsInv(INITIAL, run, budget);
  }

  /** The shared total is the sum of the outstanding reservations, and the clamp at zero never acts. */
  lemma ReservationsAreExact(run: seq<Step>, budget: real)
    requires budget >= 0.0 && Execute(INITIAL, run, budget).Some?
    ensures var s := Execute(INITIAL, run, budget).value;
            && s.reserved == Total(Outstanding, s.calls)
            && forall i: nat :: Enabled(s, Exit(i)) ==>
                 Do(s, Exit(i), budget).reserved == s.reserved - s.calls[i].reservation
  {
    EveryRunKeepsInv(INITIAL, run, budget);
    var s := Execute(INITIAL, run, budget).value;
    forall i: nat | Enabled(s, Exit(i))
      ensures Do(s, Exit(i), budget).reserved == s.reserved - s.calls[i].reservation
    {
      ExitIsCovered(s, i);
    }
  }

  /** If no call costs more than it reserved, the budget is never exceeded. */
  lemma {:induction false} WithinReservationsWithinBudget(run: seq<Step>, budget: real)
    requires budget >= 0.0 && Execute(INITIAL, run, budget).Some?
    requires forall c :: c in Execute(INITIAL, run, budget).value.calls ==> c.spent <= c.reservation
    ensures Completed(Execute(INITIAL, run, budget).value.events) <= budget
  {
    SpendingIsBounded(run, budget);
    NoOverrun(Execute(INITIAL, run, budget).value.calls);
  }

  lemma {:induction false} NoOverrun(cs: seq<Call>)
    requires forall c :: c in cs ==> c.spent <= c.reservation
    ensures Total(Overrun, cs) == 0.0
  {
    if cs != [] {
      assert cs[|cs| - 1] in cs;
      NoOverrun(cs[..|cs| - 1]);
    }
  }
}
