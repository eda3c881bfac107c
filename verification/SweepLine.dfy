/**
 The largest number of calls in progress at once, by a sweep over start and end
 events (llm/call_ledger.py `_max_overlap`).
 */
module SweepLine {
  import opened Numbers

  datatype Interval = Interval(start: real, end: real)

  /** Completed calls whose end is not before their start, in ledger order. */
  function Intervals(started: seq<(string, real)>, ended: map<string, real>): seq<Interval> {
    if started == [] then []
    else
      var (id, s) := started[|started| - 1];
      Intervals(started[..|started| - 1], ended) +
      if id in ended && ended[id] >= s then [Interval(s, ended[id])] else []
  }

  // ---------------------------------------------------------------------------
  // Reference definition: counting intervals at an instant
  // ---------------------------------------------------------------------------

  /** Calls in progress at `t`: start <= t < end. */
  function Overlap(xs: seq<Interval>, t: real): nat {
    if xs == [] then 0
    else
      var x := xs[|xs| - 1];
      Overlap(xs[..|xs| - 1], t) + if x.start <= t < x.end then 1 else 0
  }

  lemma {:induction false} OverlapIs(xs: seq<Interval>, t: real)
    ensures Overlap(xs, t) == |set i | 0 <= i < |xs| && xs[i].start <= t < xs[i].end|
  {
    var here := set i | 0 <= i < |xs| && xs[i].start <= t < xs[i].end;
    if xs != [] {
      var n := |xs| - 1;
      OverlapIs(xs[..n], t);
      var before := set i | 0 <= i < |xs[..n]| && xs[..n][i].start <= t < xs[..n][i].end;
      assert here == before + if xs[n].start <= t < xs[n].end then {n} else {};
    } else {
      assert here == {};
    }
  }

  /** A call counts when it has an end that is not before its start. */
  lemma {:induction false} CountedCallsAre(started: seq<(string, real)>, ended: map<string, real>, x: Interval)
    ensures x in Intervals(started, ended) <==>
              exists call :: call in started && call.0 in ended && ended[call.0] >= call.1 &&
                             x.start == call.1 && x.end == ended[call.0]
  {
    if started != [] {
      var n := |started| - 1;
      CountedCallsAre(started[..n], ended, x);
      assert forall call :: call in started <==> call in started[..n] || call == started[n];
    }
  }

  predicate ZeroLength(x: Interval) {
    x.start == x.end
  }

  /** Calls strictly inside at `u`, less the calls that start and end at `u`. */
  function Dip(xs: seq<Interval>, u: real): int {
    if xs == [] then 0
    else
      var x := xs[|xs| - 1];
      Dip(xs[..|xs| - 1], u) + (if x.start < u < x.end then 1 else if x.start == u == x.end then -1 else 0)
  }

  /**
   How far the sweep has drifted above the true count by time `t`: the deepest
   dip below zero at an instant not after `t`.
   */
  function Drift(xs: seq<Interval>, n: nat, t: real): (d: int)
    requires n <= |xs|
    ensures d >= 0
  {
    if n == 0 then 0
    else
      var x := xs[n - 1];
      Max(Drift(xs, n - 1, t), if ZeroLength(x) && x.start <= t then -Dip(xs, x.start) else 0)
  }

  // ---------------------------------------------------------------------------
  // Events
  // ---------------------------------------------------------------------------

  datatype Event = Event(time: real, delta: int)

  predicate Before(a: Event, b: Event) {
    a.time < b.time || (a.time == b.time && a.delta <= b.delta)
  }

  ghost predicate Sorted(es: seq<Event>) {
    forall i, j :: 0 <= i < j < |es| ==> Before(es[i], es[j])
  }

  function EventsOf(xs: seq<Interval>): seq<Event> {
    if xs == [] then []
    else EventsOf(xs[..|xs| - 1]) + [Event(xs[|xs| - 1].start, 1), Event(xs[|xs| - 1].end, -1)]
  }

  function Insert(e: Event, es: seq<Event>): seq<Event> {
    if es == [] || Before(es[|es| - 1], e) then es + [e]
    else Insert(e, es[..|es| - 1]) + [es[|es| - 1]]
  }

  /** The built-in sort by time, closings first at equal times. */
  function Sort(es: seq<Event>): seq<Event> {
    if es == [] then [] else Insert(es[|es| - 1], Sort(es[..|es| - 1]))
  }

  lemma {:induction false} InsertKeeps(e: Event, es: seq<Event>)
    ensures multiset(Insert(e, es)) == multiset(es) + multiset{e}
    decreases |es|
  {
    if es != [] && !Before(es[|es| - 1], e) {
      InsertKeeps(e, es[..|es| - 1]);
      assert es == es[..|es| - 1] + [es[|es| - 1]];
    }
  }

  lemma {:induction false} InsertSorts(e: Event, es: seq<Event>)
    requires Sorted(es)
    ensures Sorted(Insert(e, es))
    decreases |es|
  {
    if es == [] || Before(es[|es| - 1], e) {
      assert forall i :: 0 <= i < |es| - 1 ==> Before(es[i], es[|es| - 1]);
    } else {
      var front, last := es[..|es| - 1], es[|es| - 1];
      InsertSorts(e, front);
      InsertKeeps(e, front);
      var r := Insert(e, front);
      forall i | 0 <= i < |r| ensures Before(r[i], last) {
        assert r[i] in multiset(r);
        if r[i] != e {
          assert r[i] in multiset(front);
        }
      }
    }
  }

  lemma {:induction false} SortSorts(es: seq<Event>)
    ensures Sorted(Sort(es)) && multiset(Sort(es)) == multiset(es)
  {
    if es != [] {
      var front, last := es[..|es| - 1], es[|es| - 1];
      SortSorts(front);
      InsertSorts(last, Sort(front));
      InsertKeeps(last, Sort(front));
      assert es == front + [last];
    }
  }

  // ---------------------------------------------------------------------------
  // Weighted sums over events do not depend on their order
  // ---------------------------------------------------------------------------

  function Sum(es: seq<Event>, w: Event -> int): int {
    if es == [] then 0 else Sum(es[..|es| - 1], w) + w(es[|es| - 1])
  }

  lemma {:induction false} SumConcat(a: seq<Event>, b: seq<Event>, w: Event -> int)
    ensures Sum(a + b, w) == Sum(a, w) + Sum(b, w)
    decreases |b|
  {
    if b == [] {
      assert a + b == a;
    } else {
      assert (a + b)[..|a + b| - 1] == a + b[..|b| - 1];
      SumConcat(a, b[..|b| - 1], w);
    }
  }

  lemma SumWithout(es: seq<Event>, i: nat, w: Event -> int)
    requires i < |es|
    ensures Sum(es, w) == Sum(es[..i] + es[i + 1..], w) + w(es[i])
  {
    assert es == (es[..i] + [es[i]]) + es[i + 1..];
    SumConcat(es[..i] + [es[i]], es[i + 1..], w);
    assert (es[..i] + [es[i]])[..i] == es[..i];
    SumConcat(es[..i], es[i + 1..], w);
  }

  lemma MultisetWithout(es: seq<Event>, i: nat)
    requires i < |es|
    ensures multiset(es[..i] + es[i + 1..]) == multiset(es) - multiset{es[i]}
  {
    assert es == es[..i] + [es[i]] + es[i + 1..];
  }

  lemma {:induction false} SumPermutation(a: seq<Event>, b: seq<Event>, w: Event -> int)
    requires multiset(a) == multiset(b)
    ensures Sum(a, w) == Sum(b, w)
    decreases |a|
  {
    if a == [] {
      assert |multiset(b)| == 0;
    } else {
      var n := |a| - 1;
      assert a[n] in multiset(b);
      var i :| 0 <= i < |b| && b[i] == a[n];
      MultisetWithout(a, n);
      MultisetWithout(b, i);
      assert a[..n] == a[..n] + a[n + 1..];
      SumPermutation(a[..n], b[..i] + b[i + 1..], w);
      SumWithout(b, i, w);
    }
  }

  /** If `w` agrees with `v` on the first `j` events and is zero on the rest. */
  lemma {:induction false} SumSplit(es: seq<Event>, j: nat, w: Event -> int, v: Event -> int)
    requires j <= |es|
    requires forall i :: 0 <= i < j ==> w(es[i]) == v(es[i])
    requires forall i :: j <= i < |es| ==> w(es[i]) == 0
    ensures Sum(es, w) == Sum(es[..j], v)
    decreases |es|
  {
    if es != [] {
      var n := |es| - 1;
      if j <= n {
        SumSplit(es[..n], j, w, v);
        assert es[..n][..j] == es[..j];
      } else {
        SumSplit(es[..n], n, w, v);
        assert es[..n][..n] == es[..n] && es[..j][..n] == es[..n];
      }
    }
  }

  const Delta: Event -> int := (e: Event) => e.delta

  /** Events at or before `t`. */
  function UpTo(t: real): Event -> int {
    (e: Event) => if e.time <= t then e.delta else 0
  }

  /** Events before the openings at `u`. */
  function Early(u: real): Event -> int {
    (e: Event) => if IsEarly(e, u) then e.delta else 0
  }

  predicate IsEarly(e: Event, u: real) {
    e.time < u || (e.time == u && e.delta == -1)
  }

  ghost predicate Proper(xs: seq<Interval>) {
    forall k :: 0 <= k < |xs| ==> xs[k].start <= xs[k].end
  }

  lemma {:induction false} SumsOfEvents(xs: seq<Interval>, t: real)
    requires Proper(xs)
    ensures Sum(EventsOf(xs), UpTo(t)) == Overlap(xs, t)
    ensures Sum(EventsOf(xs), Early(t)) == Dip(xs, t)
  {
    if xs != [] {
      var front, x := xs[..|xs| - 1], xs[|xs| - 1];
      SumsOfEvents(front, t);
      var o, c := Event(x.start, 1), Event(x.end, -1);
      var es := EventsOf(front);
      assert EventsOf(xs) == es + [o, c];
      assert (es + [o, c])[..|es| + 1] == es + [o] && (es + [o])[..|es|] == es;
    }
  }

  lemma {:induction false} EventsShape(xs: seq<Interval>)
    ensures |EventsOf(xs)| == 2 * |xs|
    ensures forall e :: e in EventsOf(xs) ==> e.delta == 1 || e.delta == -1
  {
    if xs != [] {
      EventsShape(xs[..|xs| - 1]);
    }
  }

  lemma {:induction false} IntervalsAreProper(started: seq<(string, real)>, ended: map<string, real>)
    ensures Proper(Intervals(started, ended))
  {
    if started != [] {
      IntervalsAreProper(started[..|started| - 1], ended);
    }
  }

  /** `es` is the sorted event list of `xs`. */
  ghost predicate Sweeps(xs: seq<Interval>, es: seq<Event>) {
    && Proper(xs) && Sorted(es) && multiset(es) == multiset(EventsOf(xs))
    && forall i :: 0 <= i < |es| ==> es[i].delta == 1 || es[i].delta == -1
  }

  lemma SortedEventsSweep(xs: seq<Interval>)
    requires Proper(xs)
    ensures Sweeps(xs, Sort(EventsOf(xs)))
  {
    EventsShape(xs);
    SortSorts(EventsOf(xs));
    var es := Sort(EventsOf(xs));
    forall i | 0 <= i < |es| ensures es[i].delta == 1 || es[i].delta == -1 {
      assert es[i] in multiset(es);
    }
  }

  // ---------------------------------------------------------------------------
  // Prefixes of the sweep
  // ---------------------------------------------------------------------------

  /** Unclamped running count after `j` events. */
  function Prefix(es: seq<Event>, j: nat): int
    requires j <= |es|
  {
    Sum(es[..j], Delta)
  }

  /** Running count after `j` events, clamped at zero. */
  function Active(es: seq<Event>, j: nat): nat
    requires j <= |es|
  {
    if j == 0 then 0 else Max(0, Active(es, j - 1) + es[j - 1].delta)
  }

  function Low(es: seq<Event>, j: nat): int
    requires j <= |es|
  {
    if j == 0 then 0 else -Max(-Low(es, j - 1), -Prefix(es, j))
  }

  lemma {:induction false} LowIsLeast(es: seq<Event>, i: nat, j: nat)
    requires i <= j <= |es|
    ensures Low(es, j) <= Prefix(es, i) && Low(es, j) <= 0
    decreases j
  {
    if i < j {
      LowIsLeast(es, i, j - 1);
    } else if j > 0 {
      LowIsLeast(es, j - 1, j - 1);
    } else {
      assert es[..0] == [];
    }
  }

  lemma PrefixStep(es: seq<Event>, j: nat)
    requires 0 < j <= |es|
    ensures Prefix(es, j) == Prefix(es, j - 1) + es[j - 1].delta
  {
    assert es[..j][..j - 1] == es[..j - 1];
  }

  /** The clamp adds exactly what the unclamped count has dipped below zero so far. */
  lemma {:induction false} ActiveIsReflected(es: seq<Event>, j: nat)
    requires j <= |es|
    ensures Active(es, j) == Prefix(es, j) - Low(es, j)
    decreases j
  {
    if j > 0 {
      ActiveIsReflected(es, j - 1);
      PrefixStep(es, j);
    } else {
      assert es[..0] == [];
    }
  }

  /** First index whose event is after `t`. */
  lemma {:induction false} SplitAt(xs: seq<Interval>, es: seq<Event>, t: real) returns (j: nat)
    requires Sweeps(xs, es)
    ensures j <= |es| && (forall i :: 0 <= i < |es| ==> (i < j <==> es[i].time <= t))
    ensures Prefix(es, j) == Overlap(xs, t)
  {
    j := 0;
    while j < |es| && es[j].time <= t
      invariant j <= |es| && forall i :: 0 <= i < j ==> es[i].time <= t
    {
      j := j + 1;
    }
    if j < |es| {
      assert forall i :: j < i < |es| ==> Before(es[j], es[i]);
    }
    SumSplit(es, j, UpTo(t), Delta);
    SumPermutation(es, EventsOf(xs), UpTo(t));
    SumsOfEvents(xs, t);
  }

  /** First index whose event is not before the openings at `u`. */
  lemma {:induction false} SplitEarly(xs: seq<Interval>, es: seq<Event>, u: real) returns (j: nat)
    requires Sweeps(xs, es)
    ensures j <= |es| && (forall i :: 0 <= i < |es| ==> (i < j <==> IsEarly(es[i], u)))
    ensures Prefix(es, j) == Dip(xs, u)
  {
    j := 0;
    while j < |es| && IsEarly(es[j], u)
      invariant j <= |es| && forall i :: 0 <= i < j ==> IsEarly(es[i], u)
    {
      j := j + 1;
    }
    if j < |es| {
      assert forall i :: j < i < |es| ==> Before(es[j], es[i]);
    }
    SumSplit(es, j, Early(u), Delta);
    SumPermutation(es, EventsOf(xs), Early(u));
    SumsOfEvents(xs, u);
  }

  lemma {:induction false} PrefixesOverClosings(es: seq<Event>, i: nat, j: nat)
    requires i <= j <= |es| && forall k :: i <= k < j ==> es[k].delta == -1
    ensures Prefix(es, j) <= Prefix(es, i)
    decreases j
  {
    if i < j {
      PrefixesOverClosings(es, i, j - 1);
      PrefixStep(es, j);
    }
  }

  lemma {:induction false} PrefixesOverOpenings(es: seq<Event>, i: nat, j: nat)
    requires i <= j <= |es| && forall k :: i <= k < j ==> es[k].delta == 1
    ensures Prefix(es, i) <= Prefix(es, j) && Active(es, i) <= Active(es, j)
    decreases j
  {
    if i < j {
      PrefixesOverOpenings(es, i, j - 1);
      PrefixStep(es, j);
    }
  }

  /** No prefix that ends at time `u` is below the dip at `u`. */
  lemma PrefixAboveDip(xs: seq<Interval>, es: seq<Event>, i: nat)
    requires Sweeps(xs, es) && 0 < i <= |es|
    ensures Dip(xs, es[i - 1].time) <= Prefix(es, i)
  {
    var e := es[i - 1];
    var j := SplitEarly(xs, es, e.time);
    if e.delta == -1 {
      assert i <= j;
      forall k | i <= k < j ensures es[k].delta == -1 {
        assert Before(e, es[k]) && IsEarly(es[k], e.time);
      }
      PrefixesOverClosings(es, i, j);
    } else {
      assert j <= i;
      forall k | j <= k < i ensures es[k].delta == 1 {
        assert k == i - 1 || Before(es[k], e);
        assert !IsEarly(es[k], e.time);
      }
      PrefixesOverOpenings(es, j, i);
    }
  }

  lemma {:induction false} DipIsNonNegative(xs: seq<Interval>, u: real)
    requires forall k :: 0 <= k < |xs| ==> !(ZeroLength(xs[k]) && xs[k].start == u)
    ensures Dip(xs, u) >= 0
  {
    if xs != [] {
      assert !(ZeroLength(xs[|xs| - 1]) && xs[|xs| - 1].start == u);
      DipIsNonNegative(xs[..|xs| - 1], u);
    }
  }

  lemma {:induction false} DriftCovers(xs: seq<Interval>, n: nat, t: real, k: nat)
    requires k < n <= |xs| && ZeroLength(xs[k]) && xs[k].start <= t
    ensures -Dip(xs, xs[k].start) <= Drift(xs, n, t)
    decreases n
  {
    if k < n - 1 {
      DriftCovers(xs, n - 1, t, k);
    }
  }

  lemma DipWithinDrift(xs: seq<Interval>, u: real, t: real)
    requires u <= t
    ensures -Drift(xs, |xs|, t) <= Dip(xs, u)
  {
    if exists k :: 0 <= k < |xs| && ZeroLength(xs[k]) && xs[k].start == u {
      var k :| 0 <= k < |xs| && ZeroLength(xs[k]) && xs[k].start == u;
      DriftCovers(xs, |xs|, t, k);
    } else {
      DipIsNonNegative(xs, u);
    }
  }

  lemma {:induction false} LowWithinDrift(xs: seq<Interval>, es: seq<Event>, t: real, j: nat)
    requires Sweeps(xs, es) && j <= |es| && forall i :: 0 <= i < j ==> es[i].time <= t
    ensures -Drift(xs, |xs|, t) <= Low(es, j)
    decreases j
  {
    if j > 0 {
      LowWithinDrift(xs, es, t, j - 1);
      PrefixAboveDip(xs, es, j);
      DipWithinDrift(xs, es[j - 1].time, t);
    }
  }

  lemma {:induction false} DriftIsReached(xs: seq<Interval>, es: seq<Event>, n: nat, t: real, j: nat)
    requires Sweeps(xs, es) && n <= |xs| && j <= |es|
    requires forall i :: 0 <= i < |es| ==> (i < j <==> es[i].time <= t)
    ensures Low(es, j) <= -Drift(xs, n, t)
    decreases n
  {
    if n > 0 {
      DriftIsReached(xs, es, n - 1, t, j);
      var x := xs[n - 1];
      if ZeroLength(x) && x.start <= t {
        var i := SplitEarly(xs, es, x.start);
        assert j < |es| ==> !IsEarly(es[j], x.start);
        LowIsLeast(es, i, j);
      }
    }
    if n == 0 {
      LowIsLeast(es, 0, j);
    }
  }

  /** After all events up to `t` the sweep counts the overlap at `t` plus the drift so far. */
  lemma ActiveAt(xs: seq<Interval>, es: seq<Event>, t: real) returns (j: nat)
    requires Sweeps(xs, es)
    ensures j <= |es| && (forall i :: 0 <= i < |es| ==> (i < j <==> es[i].time <= t))
    ensures Active(es, j) == Overlap(xs, t) + Drift(xs, |xs|, t)
  {
    j := SplitAt(xs, es, t);
    ActiveIsReflected(es, j);
    LowWithinDrift(xs, es, t, j);
    DriftIsReached(xs, es, |xs|, t, j);
  }

  /** Every value the sweep takes is bounded by the closed form at some instant. */
  lemma {:induction false} ActiveBounded(xs: seq<Interval>, es: seq<Event>, j: nat) returns (t: real)
    requires Sweeps(xs, es) && j <= |es|
    ensures Active(es, j) <= Overlap(xs, t) + Drift(xs, |xs|, t)
    decreases j
  {
    t := 0.0;
    if j > 0 {
      var e := es[j - 1];
      if e.delta == -1 {
        t := ActiveBounded(xs, es, j - 1);
      } else {
        t := e.time;
        var k := ActiveAt(xs, es, t);
        assert j <= k;
        forall i | j <= i < k ensures es[i].delta == 1 {
          assert Before(e, es[i]);
        }
        PrefixesOverOpenings(es, j, k);
      }
    }
  }

  // ---------------------------------------------------------------------------
  // The sweep
  // ---------------------------------------------------------------------------

  /** Closed form of the result on every input. */
  ghost predicate IsPeak(xs: seq<Interval>, peak: nat) {
    && (forall t :: Overlap(xs, t) + Drift(xs, |xs|, t) <= peak)
    && (exists t :: Overlap(xs, t) + Drift(xs, |xs|, t) == peak)
  }

  lemma LargestActiveIsPeak(xs: seq<Interval>, es: seq<Event>, peak: nat, j: nat)
    requires Sweeps(xs, es) && j <= |es| && Active(es, j) == peak
    requires forall i :: 0 <= i <= |es| ==> Active(es, i) <= peak
    ensures IsPeak(xs, peak)
  {
    forall t ensures Overlap(xs, t) + Drift(xs, |xs|, t) <= peak {
      var k := ActiveAt(xs, es, t);
    }
    var t := ActiveBounded(xs, es, j);
    assert Overlap(xs, t) + Drift(xs, |xs|, t) == peak;
  }

  /** One opening and one closing event for each completed call. */
  method CollectEvents(started: seq<(string, real)>, ended: map<string, real>) returns (events: seq<Event>)
    ensures events == EventsOf(Intervals(started, ended))
  {
    events := [];
    for k := 0 to |started|
      invariant events == EventsOf(Intervals(started[..k], ended))
    {
      assert started[..k + 1][..k] == started[..k];
      var (id, s) := started[k];
      ghost var xs := Intervals(started[..k], ended);
      assert Intervals(started[..k + 1], ended) ==
             xs + if id in ended && ended[id] >= s then [Interval(s, ended[id])] else [];
      if id in ended && ended[id] >= s {
        assert (xs + [Interval(s, ended[id])])[..|xs|] == xs;
        events := events + [Event(s, 1), Event(ended[id], -1)];
      } else {
        assert xs + [] == xs;
      }
    }
    assert started[..|started|] == started;
  }

  method MaxOverlap(started: seq<(string, real)>, ended: map<string, real>) returns (maxActive: nat, count: nat)
    ensures count == |Intervals(started, ended)|
    ensures IsPeak(Intervals(started, ended), maxActive)
    ensures IsMaxOverlap(Intervals(started, ended), maxActive) <==> Absorbed(Intervals(started, ended))
  {
    var events := CollectEvents(started, ended);
    ghost var xs := Intervals(started, ended);
    IntervalsAreProper(started, ended);
    EventsShape(xs);
    SortedEventsSweep(xs);
    var sorted := Sort(events);
    ghost var at: nat;
    maxActive, at := SweepEvents(sorted);
    count := |events| / 2;
    LargestActiveIsPeak(xs, sorted, maxActive, at);
    SweepIsExactIff(xs, maxActive);
  }

  /** The loop over the sorted events; `at` is a position where the maximum is reached. */
  method SweepEvents(sorted: seq<Event>) returns (maxActive: nat, ghost at: nat)
    ensures at <= |sorted| && Active(sorted, at) == maxActive
    ensures forall j :: 0 <= j <= |sorted| ==> Active(sorted, j) <= maxActive
  {
    var active := 0;
    maxActive, at := 0, 0;
    for k := 0 to |sorted|
      invariant active == Active(sorted, k)
      invariant forall j :: 0 <= j <= k ==> Active(sorted, j) <= maxActive
      invariant at <= k && Active(sorted, at) == maxActive
    {
      active := Max(0, active + sorted[k].delta);
      if active > maxActive {
        maxActive, at := active, k + 1;
      }
    }
  }

  // ---------------------------------------------------------------------------
  // When the sweep is the brute-force maximum
  // ---------------------------------------------------------------------------

  ghost predicate IsMaxOverlap(xs: seq<Interval>, m: nat) {
    (forall t :: Overlap(xs, t) <= m) && (exists t :: Overlap(xs, t) == m)
  }

  lemma {:induction false} StrictNeverDrifts(xs: seq<Interval>, n: nat, t: real)
    requires n <= |xs| && forall k :: 0 <= k < n ==> !ZeroLength(xs[k])
    ensures Drift(xs, n, t) == 0
    decreases n
  {
    if n > 0 {
      StrictNeverDrifts(xs, n - 1, t);
    }
  }

  /** With every start strictly before its end the result is the largest overlap. */
  lemma StrictSweepIsExact(xs: seq<Interval>, peak: nat)
    requires IsPeak(xs, peak) && forall k :: 0 <= k < |xs| ==> !ZeroLength(xs[k])
    ensures IsMaxOverlap(xs, peak)
  {
    forall t ensures Drift(xs, |xs|, t) == 0 {
      StrictNeverDrifts(xs, |xs|, t);
    }
    var t :| Overlap(xs, t) + Drift(xs, |xs|, t) == peak;
    assert Overlap(xs, t) == peak;
    forall u ensures Overlap(xs, u) <= peak {
      assert Overlap(xs, u) + Drift(xs, |xs|, u) <= peak;
    }
  }

  /** And the clamp at zero then never acts. */
  lemma StrictSweepNeverClamps(xs: seq<Interval>, j: nat)
    requires Proper(xs) && forall k :: 0 <= k < |xs| ==> !ZeroLength(xs[k])
    requires j < |Sort(EventsOf(xs))|
    ensures var es := Sort(EventsOf(xs)); Active(es, j) + es[j].delta >= 0
  {
    var es := Sort(EventsOf(xs));
    SortedEventsSweep(xs);
    forall i | 0 <= i <= j ensures es[i].time <= es[j].time {
      assert i == j || Before(es[i], es[j]);
    }
    StrictNeverDrifts(xs, |xs|, es[j].time);
    LowWithinDrift(xs, es, es[j].time, j);
    LowWithinDrift(xs, es, es[j].time, j + 1);
    LowIsLeast(es, j + 1, j + 1);
    LowIsLeast(es, 0, j);
    ActiveIsReflected(es, j);
    PrefixStep(es, j + 1);
  }

  /** Some call starts at an instant with at least `n` calls in progress. */
  predicate ReachedAtAStart(xs: seq<Interval>, n: int) {
    exists i :: 0 <= i < |xs| && n <= Overlap(xs, xs[i].start)
  }

  /**
   Every excess that a zero-length call can add to a later start is absorbed by
   the overlap at some start.  A test on the calls alone, over finitely many instants.
   */
  predicate Absorbed(xs: seq<Interval>) {
    forall k, j :: 0 <= k < |xs| && 0 <= j < |xs| && ZeroLength(xs[k]) && xs[k].start <= xs[j].start ==>
      ReachedAtAStart(xs, Overlap(xs, xs[j].start) - Dip(xs, xs[k].start))
  }

  /** A positive drift comes from one zero-length call. */
  lemma {:induction false} DriftIsAttained(xs: seq<Interval>, n: nat, t: real) returns (k: nat)
    requires n <= |xs| && Drift(xs, n, t) > 0
    ensures k < n && ZeroLength(xs[k]) && xs[k].start <= t && Drift(xs, n, t) == -Dip(xs, xs[k].start)
    decreases n
  {
    k := n - 1;
    if Drift(xs, n, t) == Drift(xs, n - 1, t) {
      k := DriftIsAttained(xs, n - 1, t);
    }
  }

  /** Of the starts not after `t` one is the latest, and it has at least the overlap of `t`. */
  lemma LatestStart(xs: seq<Interval>, t: real, k: nat) returns (j: nat)
    requires k < |xs| && xs[k].start <= t
    ensures j < |xs| && xs[k].start <= xs[j].start <= t && Overlap(xs, t) <= Overlap(xs, xs[j].start)
  {
    j := k;
    for i := 0 to |xs|
      invariant j < |xs| && xs[k].start <= xs[j].start <= t
      invariant forall m :: 0 <= m < i && xs[m].start <= t ==> xs[m].start <= xs[j].start
    {
      if xs[j].start < xs[i].start <= t {
        j := i;
      }
    }
    EarlierIsFuller(xs, xs[j].start, t);
  }

  lemma {:induction false} EarlierIsFuller(xs: seq<Interval>, u: real, t: real)
    requires u <= t && forall m :: 0 <= m < |xs| && xs[m].start <= t ==> xs[m].start <= u
    ensures Overlap(xs, t) <= Overlap(xs, u)
  {
    if xs != [] {
      EarlierIsFuller(xs[..|xs| - 1], u, t);
    }
  }

  lemma {:induction false} NobodyBeforeTheFirst(xs: seq<Interval>, t: real)
    requires forall m :: 0 <= m < |xs| ==> t < xs[m].start
    ensures Overlap(xs, t) == 0
  {
    if xs != [] {
      NobodyBeforeTheFirst(xs[..|xs| - 1], t);
    }
  }

  /** Whatever overlap occurs at some time is reached at some start. */
  lemma ReachedThenAtAStart(xs: seq<Interval>, t: real)
    requires xs != []
    ensures ReachedAtAStart(xs, Overlap(xs, t))
  {
    if k: nat :| k < |xs| && xs[k].start <= t {
      var j := LatestStart(xs, t, k);
      assert Overlap(xs, t) <= Overlap(xs, xs[j].start);
    } else {
      NobodyBeforeTheFirst(xs, t);
      assert 0 <= Overlap(xs, xs[0].start);
    }
  }

  /** The sweep never undercounts, and is exact if and only if every excess is absorbed. */
  lemma SweepIsExactIff(xs: seq<Interval>, peak: nat)
    requires IsPeak(xs, peak)
    ensures forall t :: Overlap(xs, t) <= peak
    ensures IsMaxOverlap(xs, peak) <==> Absorbed(xs)
  {
    forall t ensures Overlap(xs, t) <= peak {
      assert Overlap(xs, t) + Drift(xs, |xs|, t) <= peak;
    }
    if IsMaxOverlap(xs, peak) {
      ExactThenAbsorbed(xs, peak);
    }
    if Absorbed(xs) {
      AbsorbedThenReached(xs, peak);
    }
  }

  lemma ExactThenAbsorbed(xs: seq<Interval>, peak: nat)
    requires IsPeak(xs, peak) && IsMaxOverlap(xs, peak)
    ensures Absorbed(xs)
  {
    forall k, j | 0 <= k < |xs| && 0 <= j < |xs| && ZeroLength(xs[k]) && xs[k].start <= xs[j].start
      ensures ReachedAtAStart(xs, Overlap(xs, xs[j].start) - Dip(xs, xs[k].start))
    {
      var t := xs[j].start;
      DriftCovers(xs, |xs|, t, k);
      assert Overlap(xs, t) + Drift(xs, |xs|, t) <= peak;
      var u :| Overlap(xs, u) == peak;
      ReachedThenAtAStart(xs, u);
      var i :| 0 <= i < |xs| && peak <= Overlap(xs, xs[i].start);
      assert Overlap(xs, t) - Dip(xs, xs[k].start) <= Overlap(xs, xs[i].start);
    }
  }

  lemma AbsorbedThenReached(xs: seq<Interval>, peak: nat)
    requires IsPeak(xs, peak) && Absorbed(xs) && forall t :: Overlap(xs, t) <= peak
    ensures IsMaxOverlap(xs, peak)
  {
    var t :| Overlap(xs, t) + Drift(xs, |xs|, t) == peak;
    if Drift(xs, |xs|, t) == 0 {
      assert Overlap(xs, t) == peak;
    } else {
      var k := DriftIsAttained(xs, |xs|, t);
      var j := LatestStart(xs, t, k);
      assert ReachedAtAStart(xs, Overlap(xs, xs[j].start) - Dip(xs, xs[k].start));
      var i :| 0 <= i < |xs| && Overlap(xs, xs[j].start) - Dip(xs, xs[k].start) <= Overlap(xs, xs[i].start);
      assert Overlap(xs, xs[i].start) == peak;
    }
  }

  /** It is enough that at every zero-length call at least as many calls are under way as start and end there. */
  lemma CoveredZeroLengthsAreExact(xs: seq<Interval>, peak: nat)
    requires IsPeak(xs, peak) && forall k :: 0 <= k < |xs| && ZeroLength(xs[k]) ==> Dip(xs, xs[k].start) >= 0
    ensures Absorbed(xs) && IsMaxOverlap(xs, peak)
  {
    forall k, j | 0 <= k < |xs| && 0 <= j < |xs| && ZeroLength(xs[k]) && xs[k].start <= xs[j].start
      ensures ReachedAtAStart(xs, Overlap(xs, xs[j].start) - Dip(xs, xs[k].start))
    {
      assert Overlap(xs, xs[j].start) - Dip(xs, xs[k].start) <= Overlap(xs, xs[j].start);
    }
    SweepIsExactIff(xs, peak);
  }

  /** One call that starts and ends at the same instant is counted although nothing overlaps. */
  lemma ZeroLengthIsOvercounted(peak: nat)
    requires IsPeak([Interval(1.0, 1.0)], peak)
    ensures peak == 1 && forall t :: Overlap([Interval(1.0, 1.0)], t) == 0
  {
    var xs := [Interval(1.0, 1.0)];
    assert xs[..0] == [];
    assert Dip(xs, 1.0) == -1;
    assert Drift(xs, 0, 1.0) == 0;
    assert Drift(xs, 1, 1.0) == 1;
    assert Overlap(xs, 1.0) + Drift(xs, |xs|, 1.0) <= peak;
    forall t ensures Overlap(xs, t) == 0 && Drift(xs, |xs|, t) <= 1 {
      assert Drift(xs, 0, t) == 0;
    }
  }
}
