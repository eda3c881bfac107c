/**
 The request and token windows of the LLM governor (llm/governor.py), with
 constant limits and a clock that does not go back.  Each attempt runs under the
 governor's lock, so any number of threads retrying is a sequence of attempts.
 */
module Governor {
  import opened Numbers
  import opened Wrappers

  datatype Admission = Admission(time: real, tokens: nat)

  // ---------------------------------------------------------------------------
  // Reference definition: windows over the whole history
  // ---------------------------------------------------------------------------

  predicate InWindow(a: Admission, t: real) {
    t - 60.0 < a.time <= t
  }

  function WindowCount(log: seq<Admission>, t: real): nat {
    if log == [] then 0 else WindowCount(log[..|log| - 1], t) + if InWindow(log[|log| - 1], t) then 1 else 0
  }

  function WindowTokens(log: seq<Admission>, t: real): nat {
    if log == [] then 0
    else WindowTokens(log[..|log| - 1], t) + if InWindow(log[|log| - 1], t) then log[|log| - 1].tokens else 0
  }

  /** The decision a limiter with unlimited memory would take; 0 switches a limit off. */
  predicate MayAdmit(log: seq<Admission>, now: real, tokens: nat, rpm: nat, tpm: nat) {
    && (rpm == 0 || WindowCount(log, now) < rpm)
    && (tpm == 0 || WindowCount(log, now) == 0 || WindowTokens(log, now) + tokens <= tpm)
  }

  ghost predicate Sorted(log: seq<Admission>) {
    forall i, j :: 0 <= i < j < |log| ==> log[i].time <= log[j].time
  }

  /** Every admission in the history was one the reference decision allows. */
  ghost predicate Legal(log: seq<Admission>, rpm: nat, tpm: nat) {
    Sorted(log) && forall i :: 0 <= i < |log| ==> LegalAt(log, i, rpm, tpm)
  }

  ghost predicate LegalAt(log: seq<Admission>, i: nat, rpm: nat, tpm: nat)
    requires i < |log|
  {
    MayAdmit(log[..i], log[i].time, log[i].tokens, rpm, tpm)
  }

  lemma {:induction false} SmallerWindow(log: seq<Admission>, t: real, u: real)
    requires forall a :: a in log && InWindow(a, t) ==> InWindow(a, u)
    ensures WindowCount(log, t) <= WindowCount(log, u) && WindowTokens(log, t) <= WindowTokens(log, u)
    ensures WindowCount(log, t) == 0 ==> WindowTokens(log, t) == 0
  {
    if log != [] {
      assert log[|log| - 1] in log;
      SmallerWindow(log[..|log| - 1], t, u);
    }
  }

  /**
   The limits hold at every instant, not only when something is admitted.  The
   token limit may be exceeded by a window that holds a single request.
   */
  lemma {:induction false} LimitsHoldAtEveryInstant(log: seq<Admission>, rpm: nat, tpm: nat, t: real)
    requires Legal(log, rpm, tpm)
    ensures rpm > 0 ==> WindowCount(log, t) <= rpm
    ensures tpm > 0 ==> WindowTokens(log, t) <= tpm || WindowCount(log, t) == 1
    decreases |log|
  {
    if log != [] {
      var n := |log| - 1;
      var front, last := log[..n], log[n];
      assert Legal(front, rpm, tpm) by {
        forall i | 0 <= i < n ensures LegalAt(front, i, rpm, tpm) {
          assert front[..i] == log[..i] && LegalAt(log, i, rpm, tpm);
        }
      }
      LimitsHoldAtEveryInstant(front, rpm, tpm, t);
      assert LegalAt(log, n, rpm, tpm);
      if InWindow(last, t) {
        forall a | a in front && InWindow(a, t) ensures InWindow(a, last.time) {
          var i :| 0 <= i < n && front[i] == a;
          assert log[i].time <= log[n].time;
        }
        SmallerWindow(front, t, last.time);
      }
    }
  }

  /** With sorted times, the window at the latest instant is what remains after dropping a prefix. */
  lemma {:induction false} WindowIsSuffix(log: seq<Admission>, cut: nat, now: real)
    requires cut <= |log|
    requires forall i :: 0 <= i < cut ==> log[i].time <= now - 60.0
    requires forall i :: cut <= i < |log| ==> now - 60.0 < log[i].time <= now
    ensures WindowCount(log, now) == |log| - cut
    ensures WindowTokens(log, now) == TokenSum(log[cut..])
    decreases |log|
  {
    if |log| > cut {
      WindowIsSuffix(log[..|log| - 1], cut, now);
      assert log[cut..][..|log| - cut - 1] == log[..|log| - 1][cut..];
    } else if |log| > 0 {
      WindowIsSuffix(log[..|log| - 1], cut - 1, now);
      assert log[cut..] == [] && log[..|log| - 1][cut - 1..] == [];
    }
  }

  /** The window is the last minute: later than 60 seconds before, up to now. */
  lemma {:induction false} WindowCountIs(log: seq<Admission>, t: real)
    ensures WindowCount(log, t) == |set i | 0 <= i < |log| && t - 60.0 < log[i].time <= t|
  {
    var here := set i | 0 <= i < |log| && t - 60.0 < log[i].time <= t;
    if log != [] {
      var n := |log| - 1;
      WindowCountIs(log[..n], t);
      var before := set i | 0 <= i < |log[..n]| && t - 60.0 < log[..n][i].time <= t;
      assert here == before + if t - 60.0 < log[n].time <= t then {n} else {};
    } else {
      assert here == {};
    }
  }

  /**
   A call is admitted exactly when, with it, the window still keeps both limits;
   a call that is alone in its window may exceed the token limit.
   */
  lemma AdmittedIff(log: seq<Admission>, now: real, tokens: nat, rpm: nat, tpm: nat)
    ensures var more := log + [Admission(now, tokens)];
            MayAdmit(log, now, tokens, rpm, tpm) <==>
              && (rpm > 0 ==> WindowCount(more, now) <= rpm)
              && (tpm > 0 ==> WindowTokens(more, now) <= tpm || WindowCount(more, now) == 1)
  {
    assert (log + [Admission(now, tokens)])[..|log|] == log;
  }

  lemma {:induction false} AtMostTheRest(log: seq<Admission>, cut: nat, t: real)
    requires cut <= |log| && forall i :: 0 <= i < cut ==> log[i].time <= t - 60.0
    ensures WindowCount(log, t) <= |log| - cut
    decreases |log|
  {
    if |log| > cut {
      AtMostTheRest(log[..|log| - 1], cut, t);
    } else if |log| > 0 {
      AtMostTheRest(log[..|log| - 1], cut - 1, t);
    }
  }

  lemma WaitFreesTheOldest(log: seq<Admission>, cut: nat, now: real)
    requires Sorted(log) && UpTo(log, now) && cut < |log| && Expired(log, cut, now) && now - 60.0 < log[cut].time
    ensures FreesTheOldest(log, now, WaitFor(now, log[cut].time))
  {
    var wait := WaitFor(now, log[cut].time);
    WindowIsSuffix(log, cut, now);
    AtMostTheRest(log, cut + 1, now + wait);
    if wait > 0.05 {
      forall t | now <= t < now + wait ensures WindowCount(log, t) == WindowCount(log, now) {
        WindowIsSuffix(log, cut, t);
      }
    }
  }

  function TokenSum(events: seq<Admission>): nat {
    if events == [] then 0 else TokenSum(events[..|events| - 1]) + events[|events| - 1].tokens
  }

  // ---------------------------------------------------------------------------
  // The governor
  // ---------------------------------------------------------------------------

  /** Seconds until the oldest entry leaves the window, at least 50 ms. */
  function WaitFor(now: real, oldest: real): (wait: real)
    ensures now - 60.0 < oldest <= now ==> 0.05 <= wait <= 60.0
  {
    RealMax(0.05, 60.0 - (now - oldest))
  }

  function TimesOf(log: seq<Admission>): (times: seq<real>)
    ensures |times| == |log| && forall i :: 0 <= i < |log| ==> times[i] == log[i].time
  {
    seq(|log|, i requires 0 <= i < |log| => log[i].time)
  }

  class ThrottledGovernor {
    const rpm: nat
    const tpm: nat
    var requestTimes: seq<real>
    var tokenEvents: seq<Admission>
    ghost var log: seq<Admission>       // every admission so far
    ghost var clock: real               // latest clock reading
    ghost var requestCut: nat           // admissions no longer in requestTimes
    ghost var tokenCut: nat             // admissions no longer in tokenEvents

    constructor (rpm: nat, tpm: nat, now: real)
      ensures Valid() && log == [] && clock == now && this.rpm == rpm && this.tpm == tpm
    {
      this.rpm, this.tpm := rpm, tpm;
      requestTimes, tokenEvents, log, clock := [], [], [], now;
      requestCut, tokenCut := 0, 0;
    }

    ghost predicate Valid()
      reads this
    {
      Legal(log, rpm, tpm) && Sorted(log) && RequestsKept(clock) && TokensKept(clock)
    }

    /** The request deque is the history without admissions at least 60 seconds old. */
    ghost predicate RequestsKept(now: real)
      reads this
    {
      UpTo(log, now) && requestCut <= |log| && requestTimes == TimesOf(log[requestCut..])
          && Expired(log, requestCut, now)
    }

    ghost predicate TokensKept(now: real)
      reads this
    {
      if tpm == 0 then tokenEvents == []
      else UpTo(log, now) && tokenCut <= |log| && tokenEvents == log[tokenCut..] && Expired(log, tokenCut, now)
    }

    method PruneRequests(now: real)
      requires Sorted(log) && RequestsKept(clock) && clock <= now
      modifies this`requestTimes, this`requestCut
      ensures RequestsKept(now) && |requestTimes| == WindowCount(log, now)
      ensures requestTimes != [] ==> now - 60.0 < requestTimes[0] <= now
    {
      while requestTimes != [] && requestTimes[0] <= now - 60.0
        invariant RequestsKept(now)
        decreases |requestTimes|
      {
        assert TimesOf(log[requestCut + 1..]) == requestTimes[1..];
        requestTimes, requestCut := requestTimes[1..], requestCut + 1;
      }
      if requestTimes != [] {
        assert log[requestCut..][0].time == requestTimes[0];
      }
      WindowIsSuffix(log, requestCut, now);
    }

    method PruneTokens(now: real)
      requires Sorted(log) && TokensKept(clock) && clock <= now
      modifies this`tokenEvents, this`tokenCut
      ensures TokensKept(now)
      ensures tpm > 0 ==> |tokenEvents| == WindowCount(log, now) && TokenSum(tokenEvents) == WindowTokens(log, now)
      ensures tpm > 0 && tokenEvents != [] ==> now - 60.0 < tokenEvents[0].time <= now
    {
      while tokenEvents != [] && tokenEvents[0].time <= now - 60.0
        invariant TokensKept(now)
        decreases |tokenEvents|
      {
        assert log[tokenCut] == tokenEvents[0];
        tokenEvents, tokenCut := tokenEvents[1..], tokenCut + 1;
      }
      if tpm > 0 {
        if tokenEvents != [] {
          assert log[tokenCut] == tokenEvents[0];
        }
        WindowIsSuffix(log, tokenCut, now);
      }
    }

    method PruneLocked(now: real)
      requires Valid() && clock <= now
      modifies this`requestTimes, this`requestCut, this`tokenEvents, this`tokenCut, this`clock
      ensures Valid() && clock == now
      ensures |requestTimes| == WindowCount(log, now)
      ensures requestTimes != [] ==> now - 60.0 < requestTimes[0] <= now
      ensures tpm > 0 ==> |tokenEvents| == WindowCount(log, now) && TokenSum(tokenEvents) == WindowTokens(log, now)
      ensures tpm > 0 && tokenEvents != [] ==> now - 60.0 < tokenEvents[0].time <= now
    {
      PruneRequests(now);
      PruneTokens(now);
      clock := now;
    }

    /** The counts reported by `status`. */
    method Status(now: real) returns (openRequests: nat, openTokens: nat)
      requires Valid() && clock <= now
      modifies this`requestTimes, this`requestCut, this`tokenEvents, this`tokenCut, this`clock
      ensures Valid() && clock == now
      ensures openRequests == WindowCount(log, now)
      ensures openTokens == if tpm > 0 then WindowTokens(log, now) else 0
    {
      PruneLocked(now);
      openRequests := |requestTimes|;
      openTokens := SumTokens();
    }

    method SumTokens() returns (total: nat)
      ensures total == TokenSum(tokenEvents)
    {
      total := 0;
      for k := 0 to |tokenEvents|
        invariant total == TokenSum(tokenEvents[..k])
      {
        assert tokenEvents[..k + 1][..k] == tokenEvents[..k];
        total := total + tokenEvents[k].tokens;
      }
      assert tokenEvents[..|tokenEvents|] == tokenEvents;
    }

    /**
     One turn of the retry loop.  It admits exactly when the decision over the
     whole history admits; otherwise it answers how long to sleep.
     */
    method Attempt(now: real, estimated: int) returns (sleepFor: Option<real>)
      requires Valid() && clock <= now
      modifies this
      ensures Valid() && clock == now
      ensures var tokens := if estimated < 1 then 1 else estimated;
              && (sleepFor == None <==> MayAdmit(old(log), now, tokens, rpm, tpm))
              && log == if sleepFor == None then old(log) + [Admission(now, tokens)] else old(log)
      ensures sleepFor.Some? ==> 0.05 <= sleepFor.value <= 60.0
      ensures sleepFor.Some? ==> FreesTheOldest(log, now, sleepFor.value)
    {
      var tokens: nat := if estimated < 1 then 1 else estimated;
      PruneLocked(now);
      sleepFor := WaitNeeded(now, tokens);
      if sleepFor == None {
        Admit(now, tokens);
      } else {
        SleepIsForTheOldest(now);
      }
    }

    /** The heads of the deques are the oldest admission of the window. */
    lemma SleepIsForTheOldest(now: real)
      requires Valid() && clock == now
      requires requestTimes != [] ==> now - 60.0 < requestTimes[0]
      requires tpm > 0 && tokenEvents != [] ==> now - 60.0 < tokenEvents[0].time
      ensures requestTimes != [] ==> FreesTheOldest(log, now, WaitFor(now, requestTimes[0]))
      ensures tpm > 0 && tokenEvents != [] ==> FreesTheOldest(log, now, WaitFor(now, tokenEvents[0].time))
    {
      if requestTimes != [] {
        assert log[requestCut..][0] == log[requestCut];
        WaitFreesTheOldest(log, requestCut, now);
      }
      if tpm > 0 && tokenEvents != [] {
        assert log[tokenCut..][0] == log[tokenCut];
        WaitFreesTheOldest(log, tokenCut, now);
      }
    }

    /** The shorter of the waits that the pruned deques ask for. */
    method WaitNeeded(now: real, tokens: nat) returns (sleepFor: Option<real>)
      requires |requestTimes| == WindowCount(log, now) && tokens >= 1
      requires requestTimes != [] ==> now - 60.0 < requestTimes[0] <= now
      requires tpm > 0 ==> |tokenEvents| == WindowCount(log, now) && TokenSum(tokenEvents) == WindowTokens(log, now)
      requires tpm > 0 && tokenEvents != [] ==> now - 60.0 < tokenEvents[0].time <= now
      ensures sleepFor == None <==> MayAdmit(log, now, tokens, rpm, tpm)
      ensures sleepFor.Some? ==> 0.05 <= sleepFor.value <= 60.0
      ensures var requests := if rpm > 0 && |requestTimes| >= rpm then {WaitFor(now, requestTimes[0])} else {};
              var spent := if tpm > 0 && TokenSum(tokenEvents) + tokens > tpm && tokenEvents != []
                           then {WaitFor(now, tokenEvents[0].time)} else {};
              sleepFor.Some? ==>
                sleepFor.value in requests + spent && forall w :: w in requests + spent ==> sleepFor.value <= w
    {
      var waits: seq<real> := [];
      if rpm > 0 && |requestTimes| >= rpm {
        waits := waits + [WaitFor(now, requestTimes[0])];
      }
      var used := SumTokens();
      if tpm > 0 && used + tokens > tpm && tokenEvents != [] {
        waits := waits + [WaitFor(now, tokenEvents[0].time)];
      }
      if waits == [] {
        return None;
      }
      return Some(if |waits| == 2 && waits[1] < waits[0] then waits[1] else waits[0]);
    }

    /** Both deques grow together with the history. */
    method Admit(now: real, tokens: nat)
      requires Valid() && clock == now && MayAdmit(log, now, tokens, rpm, tpm)
      modifies this`log, this`requestTimes, this`tokenEvents
      ensures Valid() && log == old(log) + [Admission(now, tokens)]
    {
      var a := Admission(now, tokens);
      LegalAppend(log, a, rpm, tpm);
      LaterAppend(log, a);
      WindowGrows(log, requestCut, a);
      if tpm > 0 {
        WindowGrows(log, tokenCut, a);
        tokenEvents := tokenEvents + [a];
      }
      requestTimes, log := requestTimes + [now], log + [a];
    }
  }

  /** After the sleep the window is smaller, and unless the sleep is the shortest one it was not before. */
  ghost predicate FreesTheOldest(log: seq<Admission>, now: real, wait: real) {
    && WindowCount(log, now + wait) < WindowCount(log, now)
    && (wait > 0.05 ==> forall t :: now <= t < now + wait ==> WindowCount(log, t) == WindowCount(log, now))
  }

  ghost predicate UpTo(log: seq<Admission>, now: real) {
    forall i :: 0 <= i < |log| ==> log[i].time <= now
  }

  lemma WindowGrows(log: seq<Admission>, cut: nat, a: Admission)
    requires cut <= |log| && Expired(log, cut, a.time)
    ensures Expired(log + [a], cut, a.time)
    ensures (log + [a])[cut..] == log[cut..] + [a]
    ensures TimesOf((log + [a])[cut..]) == TimesOf(log[cut..]) + [a.time]
  {
  }

  lemma LaterAppend(log: seq<Admission>, a: Admission)
    requires Sorted(log) && UpTo(log, a.time)
    ensures Sorted(log + [a]) && UpTo(log + [a], a.time)
  {
  }

  ghost predicate Expired(log: seq<Admission>, cut: nat, now: real)
    requires cut <= |log|
  {
    forall i :: 0 <= i < cut ==> log[i].time <= now - 60.0
  }

  lemma LegalAppend(log: seq<Admission>, a: Admission, rpm: nat, tpm: nat)
    requires Legal(log, rpm, tpm) && UpTo(log, a.time) && MayAdmit(log, a.time, a.tokens, rpm, tpm)
    ensures Legal(log + [a], rpm, tpm)
  {
    var more := log + [a];
    forall i | 0 <= i < |more| ensures LegalAt(more, i, rpm, tpm) {
      assert more[..i] == log[..i] && log[..|log|] == log;
      assert i < |log| ==> LegalAt(log, i, rpm, tpm);
    }
  }
}
