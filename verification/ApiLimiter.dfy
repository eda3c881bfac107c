/**
 The per-key sliding window of the API guard (api/guards.py `_allow_request`),
 with a clock that does not go back.  The limit is at least 1: a limit of 0
 switches the guard off before this function is reached.
 */
module ApiLimiter {
  import opened Counting
  import opened Wrappers

  type Key = string

  const MAX_BUCKETS := 4096

  // ---------------------------------------------------------------------------
  // Reference definition: the whole history of admissions of one key
  // ---------------------------------------------------------------------------

  /** Admissions at or after `low`. */
  function CountSince(h: seq<real>, low: real): nat {
    if h == [] then 0 else CountSince(h[..|h| - 1], low) + if h[|h| - 1] >= low then 1 else 0
  }

  function CountBetween(h: seq<real>, low: real, high: real): nat {
    if h == [] then 0 else CountBetween(h[..|h| - 1], low, high) + if low <= h[|h| - 1] <= high then 1 else 0
  }

  ghost predicate Sorted(h: seq<real>) {
    forall i, j :: 0 <= i < j < |h| ==> h[i] <= h[j]
  }

  /** The decision a guard with unlimited memory would take. */
  predicate Admits(h: seq<real>, now: real, limit: nat) {
    CountSince(h, now - 60.0) < limit
  }

  /** Each admission found fewer than `limit` earlier ones in the closed minute before it. */
  ghost predicate Legal(h: seq<real>, limit: nat) {
    Sorted(h) && forall i :: 0 <= i < |h| ==> LegalAt(h, i, limit)
  }

  ghost predicate LegalAt(h: seq<real>, i: nat, limit: nat)
    requires i < |h|
  {
    Admits(h[..i], h[i], limit)
  }

  lemma {:induction false} BetweenIsSince(h: seq<real>, low: real, low': real, high: real)
    requires low' <= low
    ensures CountBetween(h, low, high) <= CountSince(h, low')
  {
    if h != [] {
      BetweenIsSince(h[..|h| - 1], low, low', high);
    }
  }

  /** Then no closed minute, wherever it lies, holds more than `limit` admissions. */
  lemma {:induction false} NoMinuteExceedsLimit(h: seq<real>, limit: nat, t: real)
    requires Legal(h, limit)
    ensures CountBetween(h, t - 60.0, t) <= limit
    decreases |h|
  {
    if h != [] {
      var n := |h| - 1;
      assert Legal(h[..n], limit) by {
        forall i | 0 <= i < n ensures LegalAt(h[..n], i, limit) {
          assert h[..n][..i] == h[..i] && LegalAt(h, i, limit);
        }
      }
      NoMinuteExceedsLimit(h[..n], limit, t);
      assert LegalAt(h, n, limit);
      if t - 60.0 <= h[n] <= t {
        BetweenIsSince(h[..n], t - 60.0, h[n] - 60.0, t);
      }
    }
  }

  /** The closed minute: from 60 seconds before up to now. */
  lemma {:induction false} CountSinceIs(h: seq<real>, low: real)
    ensures CountSince(h, low) == |set i | 0 <= i < |h| && low <= h[i]|
  {
    var here := set i | 0 <= i < |h| && low <= h[i];
    if h != [] {
      var n := |h| - 1;
      CountSinceIs(h[..n], low);
      var before := set i | 0 <= i < |h[..n]| && low <= h[..n][i];
      assert here == before + if low <= h[n] then {n} else {};
    } else {
      assert here == {};
    }
  }

  /** A request is admitted exactly when, with it, the minute up to now still keeps the limit. */
  lemma AdmittedIff(h: seq<real>, now: real, limit: nat)
    requires UpTo(h, now)
    ensures Admits(h, now, limit) <==> CountBetween(h + [now], now - 60.0, now) <= limit
  {
    assert (h + [now])[..|h|] == h;
    BetweenIsAll(h, now - 60.0, now);
  }

  lemma {:induction false} BetweenIsAll(h: seq<real>, low: real, high: real)
    requires UpTo(h, high)
    ensures CountBetween(h, low, high) == CountSince(h, low)
  {
    if h != [] {
      BetweenIsAll(h[..|h| - 1], low, high);
    }
  }

  lemma {:induction false} SuffixCounts(h: seq<real>, cut: nat, low: real)
    requires cut <= |h|
    requires forall i :: cut <= i < |h| ==> h[i] >= low
    ensures CountSince(h, low) >= |h| - cut
    ensures (forall i :: 0 <= i < cut ==> h[i] < low) ==> CountSince(h, low) == |h| - cut
    decreases |h|
  {
    if |h| > cut {
      SuffixCounts(h[..|h| - 1], cut, low);
    } else if |h| > 0 {
      SuffixCounts(h[..|h| - 1], cut - 1, low);
    }
  }

  lemma LegalAppend(h: seq<real>, limit: nat, now: real)
    requires Legal(h, limit) && UpTo(h, now) && Admits(h, now, limit)
    ensures Legal(h + [now], limit)
  {
    var more := h + [now];
    forall i | 0 <= i < |more| ensures LegalAt(more, i, limit) {
      assert more[..i] == h[..i] && h[..|h|] == h;
      assert i < |h| ==> LegalAt(h, i, limit);
    }
  }

  // ---------------------------------------------------------------------------
  // What a forgotten part of the history changes
  // ---------------------------------------------------------------------------

  lemma {:induction false} SuffixCountsLess(h: seq<real>, cut: nat, low: real)
    requires cut <= |h|
    ensures CountSince(h, low) == CountSince(h[..cut], low) + CountSince(h[cut..], low)
    decreases |h|
  {
    if |h| > cut {
      SuffixCountsLess(h[..|h| - 1], cut, low);
      assert h[..|h| - 1][..cut] == h[..cut];
      assert h[cut..][..|h[cut..]| - 1] == h[..|h| - 1][cut..];
    } else {
      assert h[..cut] == h;
    }
  }

  lemma {:induction false} NoneCounted(h: seq<real>, low: real)
    ensures CountSince(h, low) == 0 <==> forall i :: 0 <= i < |h| ==> h[i] < low
  {
    if h != [] {
      NoneCounted(h[..|h| - 1], low);
      assert forall i :: 0 <= i < |h| - 1 ==> h[i] == h[..|h| - 1][i];
    }
  }

  /** The end of a history counts the same as all of it exactly when the rest is over a minute old. */
  lemma RecallIsExactIff(recalled: seq<real>, h: seq<real>, now: real)
    requires IsSuffix(recalled, h)
    ensures CountSince(recalled, now - 60.0) <= CountSince(h, now - 60.0)
    ensures CountSince(recalled, now - 60.0) == CountSince(h, now - 60.0) <==> DroppedAreOld(recalled, h, now)
  {
    var cut := |h| - |recalled|;
    SuffixCountsLess(h, cut, now - 60.0);
    NoneCounted(h[..cut], now - 60.0);
    assert forall i :: 0 <= i < cut ==> h[..cut][i] == h[i];
  }

  /** What is recalled admits a request that the whole history refuses exactly when what is missing fills the limit. */
  lemma DecisionDiffersIff(recalled: seq<real>, h: seq<real>, now: real, limit: nat)
    requires IsSuffix(recalled, h)
    ensures var kept, missing := CountSince(recalled, now - 60.0), CountSince(h[..|h| - |recalled|], now - 60.0);
            (Admits(recalled, now, limit) != Admits(h, now, limit)) <==> kept < limit <= kept + missing
    ensures Admits(recalled, now, limit) != Admits(h, now, limit) ==> Admits(recalled, now, limit)
  {
    SuffixCountsLess(h, |h| - |recalled|, now - 60.0);
  }

  // ---------------------------------------------------------------------------
  // Buckets against histories
  // ---------------------------------------------------------------------------

  ghost predicate UpTo(h: seq<real>, now: real) {
    forall i :: 0 <= i < |h| ==> h[i] <= now
  }

  ghost predicate IsSuffix(bucket: seq<real>, h: seq<real>) {
    |bucket| <= |h| && bucket == h[|h| - |bucket|..]
  }

  /** Everything dropped from the bucket is older than a minute. */
  ghost predicate DroppedAreOld(bucket: seq<real>, h: seq<real>, now: real)
    requires |bucket| <= |h|
  {
    forall i :: 0 <= i < |h| - |bucket| ==> h[i] < now - 60.0
  }

  type Table = map<Key, seq<real>>

  function Entry(table: Table, key: Key): seq<real> {
    if key in table then table[key] else []
  }

  function LastOf(bucket: seq<real>): real
    requires bucket != []
  {
    bucket[|bucket| - 1]
  }

  /** The bucket holds all of the last minute. */
  ghost predicate Tracks(bucket: seq<real>, h: seq<real>, now: real) {
    IsSuffix(bucket, h) && Sorted(h) && UpTo(h, now) && DroppedAreOld(bucket, h, now)
  }

  ghost predicate KeyOk(windows: Table, recalled: Table, limit: nat, now: real, k: Key) {
    Tracks(Entry(windows, k), Entry(recalled, k), now) && Legal(Entry(recalled, k), limit)
  }

  /** No bucket is empty, and each holds the last minute of what is recalled of its key. */
  ghost predicate Faithful(windows: Table, recalled: Table, limit: nat, now: real) {
    && (forall k :: k in windows ==> windows[k] != [])
    && (forall k :: KeyOk(windows, recalled, limit, now, k))
  }

  lemma TimePasses(windows: Table, recalled: Table, limit: nat, now: real, clock: real)
    requires Faithful(windows, recalled, limit, clock) && clock <= now
    ensures Faithful(windows, recalled, limit, now)
  {
    forall k ensures KeyOk(windows, recalled, limit, now, k) {
      assert KeyOk(windows, recalled, limit, clock, k);
    }
  }

  /** Replacing what is stored and recalled of one key. */
  lemma Replace(windows: Table, recalled: Table, limit: nat, now: real, key: Key, windows': Table, recalled': Table)
    requires Faithful(windows, recalled, limit, now) && KeyOk(windows', recalled', limit, now, key)
    requires forall k :: k in windows' ==> windows'[k] != []
    requires forall k :: k != key ==>
               Entry(windows', k) == Entry(windows, k) && Entry(recalled', k) == Entry(recalled, k)
    ensures Faithful(windows', recalled', limit, now)
  {
    forall k ensures KeyOk(windows', recalled', limit, now, k) {
      assert KeyOk(windows, recalled, limit, now, k);
    }
  }

  /** Dropping a bucket whose last entry is over a minute old loses nothing that counts. */
  lemma DropStale(windows: Table, recalled: Table, limit: nat, now: real, key: Key)
    requires Faithful(windows, recalled, limit, now)
    requires key in windows && LastOf(windows[key]) < now - 60.0
    ensures Faithful(windows - {key}, recalled, limit, now)
  {
    var bucket, h := windows[key], Entry(recalled, key);
    assert KeyOk(windows, recalled, limit, now, key);
    assert h[|h| - 1] == bucket[|bucket| - 1] && h[|h| - 0..] == [];
    assert Entry(windows - {key}, key) == [];
    Replace(windows, recalled, limit, now, key, windows - {key}, recalled);
  }

  /** Dropping a live bucket is faithful to a table that forgets the key. */
  lemma DropLive(windows: Table, recalled: Table, limit: nat, now: real, key: Key)
    requires Faithful(windows, recalled, limit, now)
    ensures Faithful(windows - {key}, recalled - {key}, limit, now)
  {
    assert Entry(windows - {key}, key) == [] && Entry(recalled - {key}, key) == [];
    Replace(windows, recalled, limit, now, key, windows - {key}, recalled - {key});
  }

  lemma StoreRefused(windows: Table, recalled: Table, limit: nat, now: real, key: Key, bucket: seq<real>)
    requires Faithful(windows, recalled, limit, now)
    requires bucket != [] && Tracks(bucket, Entry(recalled, key), now)
    ensures Faithful(windows[key := bucket], recalled, limit, now)
  {
    assert KeyOk(windows, recalled, limit, now, key);
    Replace(windows, recalled, limit, now, key, windows[key := bucket], recalled);
  }

  lemma AdmittedTracks(bucket: seq<real>, h: seq<real>, now: real)
    requires Tracks(bucket, h, now)
    ensures Tracks(bucket + [now], h + [now], now)
  {
  }

  lemma StoreAdmitted(windows: Table, recalled: Table, limit: nat, now: real, key: Key, bucket: seq<real>)
    requires Faithful(windows, recalled, limit, now)
    requires Tracks(bucket, Entry(recalled, key), now) && Admits(Entry(recalled, key), now, limit)
    ensures Faithful(windows[key := bucket + [now]], recalled[key := Entry(recalled, key) + [now]], limit, now)
  {
    var h := Entry(recalled, key);
    assert KeyOk(windows, recalled, limit, now, key);
    AdmittedTracks(bucket, h, now);
    LegalAppend(h, limit, now);
    Replace(windows, recalled, limit, now, key, windows[key := bucket + [now]], recalled[key := h + [now]]);
  }

  // ---------------------------------------------------------------------------
  // What is recalled against the whole history
  // ---------------------------------------------------------------------------

  /** What is not recalled was admitted by the time `at` of the last eviction for space. */
  ghost predicate Recalls(r: seq<real>, h: seq<real>, at: Option<real>, now: real) {
    && IsSuffix(r, h) && UpTo(h, now)
    && match at
       case None => r == h
       case Some(t) => t <= now && forall i :: 0 <= i < |h| - |r| ==> h[i] <= t
  }

  function EvictedAt(evicted: map<Key, real>, k: Key): Option<real> {
    if k in evicted then Some(evicted[k]) else None
  }

  ghost predicate Remembers(recalled: Table, history: Table, evicted: map<Key, real>, now: real, k: Key) {
    Recalls(Entry(recalled, k), Entry(history, k), EvictedAt(evicted, k), now)
  }

  ghost predicate AllRemembered(recalled: Table, history: Table, evicted: map<Key, real>, now: real) {
    forall k :: Remembers(recalled, history, evicted, now, k)
  }

  lemma NothingRecalled(h: seq<real>, now: real)
    requires UpTo(h, now)
    ensures Recalls([], h, Some(now), now)
  {
    assert h[|h| - 0..] == [];
  }

  lemma Forget(recalled: Table, history: Table, evicted: map<Key, real>, now: real, key: Key)
    requires AllRemembered(recalled, history, evicted, now)
    ensures AllRemembered(recalled - {key}, history, evicted[key := now], now)
  {
    var recalled', evicted' := recalled - {key}, evicted[key := now];
    forall k ensures Remembers(recalled', history, evicted', now, k) {
      assert Remembers(recalled, history, evicted, now, k);
      if k == key {
        assert Entry(recalled', k) == [] && EvictedAt(evicted', k) == Some(now);
        NothingRecalled(Entry(history, k), now);
      } else {
        assert Entry(recalled', k) == Entry(recalled, k) && EvictedAt(evicted', k) == EvictedAt(evicted, k);
      }
    }
  }

  lemma RecallsOneMore(r: seq<real>, h: seq<real>, at: Option<real>, now: real)
    requires Recalls(r, h, at, now)
    ensures Recalls(r + [now], h + [now], at, now)
  {
  }

  lemma Remember(recalled: Table, history: Table, evicted: map<Key, real>, now: real, key: Key)
    requires AllRemembered(recalled, history, evicted, now)
    ensures AllRemembered(
              recalled[key := Entry(recalled, key) + [now]], history[key := Entry(history, key) + [now]], evicted, now)
  {
    var recalled' := recalled[key := Entry(recalled, key) + [now]];
    var history' := history[key := Entry(history, key) + [now]];
    forall k ensures Remembers(recalled', history', evicted, now, k) {
      assert Remembers(recalled, history, evicted, now, k);
      if k == key {
        RecallsOneMore(Entry(recalled, k), Entry(history, k), EvictedAt(evicted, k), now);
      } else {
        assert Entry(recalled', k) == Entry(recalled, k) && Entry(history', k) == Entry(history, k);
      }
    }
  }

  lemma MemoryLasts(recalled: Table, history: Table, evicted: map<Key, real>, now: real, clock: real)
    requires AllRemembered(recalled, history, evicted, clock) && clock <= now
    ensures AllRemembered(recalled, history, evicted, now)
  {
    forall k ensures Remembers(recalled, history, evicted, now, k) {
      assert Remembers(recalled, history, evicted, clock, k);
    }
  }

  /** A minute after the eviction, or without one, what is recalled decides as the whole history does. */
  lemma ExactAgainAfterAMinute(
    recalled: Table, history: Table, evicted: map<Key, real>, now: real, key: Key, limit: nat)
    requires AllRemembered(recalled, history, evicted, now)
    ensures (key in evicted ==> evicted[key] < now - 60.0) ==>
              (Admits(Entry(recalled, key), now, limit) <==> Admits(Entry(history, key), now, limit))
    ensures !Admits(Entry(recalled, key), now, limit) ==> !Admits(Entry(history, key), now, limit)
  {
    assert Remembers(recalled, history, evicted, now, key);
    RecallIsExactIff(Entry(recalled, key), Entry(history, key), now);
  }

  // ---------------------------------------------------------------------------
  // One request as a function of the tables
  // ---------------------------------------------------------------------------

  /** The buckets whose last entry is at most a minute old. */
  function Fresh(windows: Table, now: real): Table {
    map k | k in windows && windows[k] != [] && LastOf(windows[k]) >= now - 60.0 :: windows[k]
  }

  ghost predicate IsOldest(windows: Table, key: Key) {
    && key in windows && windows[key] != []
    && forall k :: k in windows && windows[k] != [] ==> LastOf(windows[key]) <= LastOf(windows[k])
  }

  /** The bucket evicted for space: none while there is room, else one whose last admission is the oldest. */
  ghost predicate MakesRoom(windows: Table, gone: Option<Key>) {
    if |windows| < MAX_BUCKETS then gone == None else gone.Some? && IsOldest(windows, gone.value)
  }

  ghost predicate Evicts(windows: Table, key: Key, now: real, gone: Option<Key>) {
    if key in windows then gone == None else MakesRoom(Fresh(windows, now), gone)
  }

  function Without(table: Table, gone: Option<Key>): Table {
    if gone.Some? then table - {gone.value} else table
  }

  function Dated(evicted: map<Key, real>, gone: Option<Key>, now: real): map<Key, real> {
    if gone.Some? then evicted[gone.value := now] else evicted
  }

  /** The bucket without the entries that are over a minute old. */
  function Recent(bucket: seq<real>, now: real): seq<real> {
    if bucket != [] && bucket[0] < now - 60.0 then Recent(bucket[1..], now) else bucket
  }

  function Extended(table: Table, key: Key, more: seq<real>): Table {
    if more == [] then table else table[key := Entry(table, key) + more]
  }

  /** The stored buckets; all admissions; those since the last eviction for space; and when that was. */
  datatype Guard = Guard(windows: Table, history: Table, recalled: Table, evicted: map<Key, real>)

  const NOTHING := Guard(map[], map[], map[], map[])

  function After(g: Guard, key: Key, now: real, limit: nat, gone: Option<Key>): Guard {
    var more := if Admits(Entry(g.recalled, key), now, limit) then [now] else [];
    var room := Without(if key in g.windows then g.windows else Fresh(g.windows, now), gone);
    Guard(room[key := Recent(Entry(room, key), now) + more], Extended(g.history, key, more),
          Extended(Without(g.recalled, gone), key, more), Dated(g.evicted, gone, now))
  }

  // ---------------------------------------------------------------------------
  // The guard
  // ---------------------------------------------------------------------------

  class RateWindows {
    const limit: nat
    var windows: Table
    ghost var history: Table             // every admission of every key
    ghost var recalled: Table            // those since the key's bucket was last evicted for space
    ghost var evicted: map<Key, real>    // when that was
    ghost var clock: real

    constructor (limit: nat, now: real)
      requires limit >= 1
      ensures Valid() && View() == NOTHING && clock == now && this.limit == limit
    {
      this.limit := limit;
      windows, history, recalled, evicted, clock := map[], map[], map[], map[], now;
    }

    ghost function View(): Guard
      reads this
    {
      Guard(windows, history, recalled, evicted)
    }

    ghost predicate Valid()
      reads this
    {
      limit >= 1 && |windows| <= MAX_BUCKETS && Sound(clock)
    }

    ghost predicate Sound(now: real)
      reads this
    {
      Faithful(windows, recalled, limit, now) && AllRemembered(recalled, history, evicted, now)
    }

    /** Drops the buckets whose last entry is over a minute old, in any order. */
    method EvictStale(now: real)
      requires Sound(now)
      modifies this`windows
      ensures Sound(now) && windows == Fresh(old(windows), now)
    {
      var todo := windows.Keys;
      while todo != {}
        invariant todo <= windows.Keys && Sound(now)
        invariant forall k :: k in windows ==> k in old(windows) && windows[k] == old(windows)[k]
        invariant forall k :: k in windows && k !in todo ==> k in Fresh(old(windows), now)
        invariant forall k :: k in Fresh(old(windows), now) ==> k in windows
        decreases todo
      {
        var k :| k in todo;
        todo := todo - {k};
        if windows[k] == [] || LastOf(windows[k]) < now - 60.0 {
          DropStale(windows, recalled, limit, now, k);
          windows := windows - {k};
        }
      }
    }

    /** The key whose last admission is the oldest; reading `[-1]` is safe. */
    method OldestKey() returns (oldest: Key)
      requires windows != map[] && forall k :: k in windows ==> windows[k] != []
      ensures IsOldest(windows, oldest)
    {
      var todo := windows.Keys;
      oldest :| oldest in todo;
      todo := todo - {oldest};
      while todo != {}
        invariant oldest in windows && oldest !in todo && todo <= windows.Keys
        invariant forall k :: k in windows.Keys - todo ==> LastOf(windows[oldest]) <= LastOf(windows[k])
        decreases todo
      {
        var k :| k in todo;
        todo := todo - {k};
        if LastOf(windows[k]) < LastOf(windows[oldest]) {
          oldest := k;
        }
      }
    }

    /** Evicts the live bucket whose last admission is the oldest. */
    method EvictOldest(now: real) returns (oldest: Key)
      requires Sound(now) && windows != map[]
      modifies this`windows, this`recalled, this`evicted
      ensures Sound(now) && IsOldest(old(windows), oldest) && windows == old(windows) - {oldest}
      ensures recalled == old(recalled) - {oldest} && evicted == old(evicted)[oldest := now]
    {
      oldest := OldestKey();
      DropLive(windows, recalled, limit, now, oldest);
      Forget(recalled, history, evicted, now, oldest);
      windows, recalled, evicted := windows - {oldest}, recalled - {oldest}, evicted[oldest := now];
    }

    /** Evicts live buckets until there is room for one more: none, or the oldest. */
    method MakeRoom(now: real) returns (ghost gone: Option<Key>)
      requires Sound(now) && |windows| <= MAX_BUCKETS
      modifies this`windows, this`recalled, this`evicted
      ensures Sound(now) && |windows| < MAX_BUCKETS && MakesRoom(old(windows), gone)
      ensures windows == Without(old(windows), gone)
      ensures recalled == Without(old(recalled), gone) && evicted == Dated(old(evicted), gone, now)
    {
      gone := None;
      while |windows| >= MAX_BUCKETS
        invariant Sound(now) && |windows| <= MAX_BUCKETS && windows == Without(old(windows), gone)
        invariant gone.Some? ==> MakesRoom(old(windows), gone) && |windows| < MAX_BUCKETS
        invariant recalled == Without(old(recalled), gone) && evicted == Dated(old(evicted), gone, now)
        decreases |windows|
      {
        ghost var before := windows;
        var oldest := EvictOldest(now);
        gone := Some(oldest);
        assert windows.Keys == before.Keys - {oldest} && |windows.Keys| == |windows| && |before.Keys| == |before|;
      }
    }

    /** Drops the entries of a bucket that are over a minute old. */
    method PruneBucket(bucket: seq<real>, ghost h: seq<real>, now: real) returns (pruned: seq<real>)
      requires Tracks(bucket, h, now)
      ensures pruned == Recent(bucket, now)
      ensures Tracks(pruned, h, now) && |pruned| == CountSince(h, now - 60.0)
    {
      pruned := bucket;
      while pruned != [] && pruned[0] < now - 60.0
        invariant Tracks(pruned, h, now) && Recent(pruned, now) == Recent(bucket, now)
        decreases |pruned|
      {
        assert pruned[0] == h[|h| - |pruned|];
        pruned := pruned[1..];
      }
      forall i | |h| - |pruned| <= i < |h| ensures h[i] >= now - 60.0 {
        assert pruned[0] == h[|h| - |pruned|];
      }
      SuffixCounts(h, |h| - |pruned|, now - 60.0);
    }

    /**
     The decision is exactly that of the admissions since the key was last evicted for space.
     So it is that of the whole history for a key never evicted, and for any other one a minute
     after its eviction; and every refusal is justified by the whole history.  At most one
     bucket, `gone`, is evicted for space.
     */
    method AllowRequest(key: Key, now: real) returns (allowed: bool, ghost gone: Option<Key>)
      requires Valid() && clock <= now
      modifies this
      ensures Valid() && clock == now && |windows| <= 4096
      ensures allowed <==> Admits(Entry(old(recalled), key), now, limit)
      ensures (key in old(evicted) ==> old(evicted)[key] < now - 60.0) ==>
                (allowed <==> Admits(Entry(old(history), key), now, limit))
      ensures !allowed ==> !Admits(Entry(old(history), key), now, limit)
      ensures Evicts(old(windows), key, now, gone) && View() == After(old(View()), key, now, limit, gone)
    {
      TimePasses(windows, recalled, limit, now, clock);
      MemoryLasts(recalled, history, evicted, now, clock);
      ExactAgainAfterAMinute(recalled, history, evicted, now, key, limit);
      clock := now;
      gone := None;
      if key !in windows {
        EvictStale(now);
        SubsetIsNoLarger(windows.Keys, old(windows).Keys);
        gone := MakeRoom(now);
      }
      allowed := Decide(key, now);
      assert Entry(Without(old(recalled), gone), key) == Entry(old(recalled), key);
    }

    /** The part of the function after the evictions. */
    method Decide(key: Key, now: real) returns (allowed: bool)
      requires limit >= 1 && Sound(now) && |windows| <= MAX_BUCKETS
      requires key in windows || |windows| < MAX_BUCKETS
      modifies this`windows, this`recalled, this`history
      ensures Sound(now) && |windows| <= MAX_BUCKETS
      ensures allowed <==> Admits(Entry(old(recalled), key), now, limit)
      ensures var more := if allowed then [now] else [];
              && windows == old(windows)[key := Recent(Entry(old(windows), key), now) + more]
              && recalled == Extended(old(recalled), key, more) && history == Extended(old(history), key, more)
    {
      ghost var h := Entry(recalled, key);
      assert KeyOk(windows, recalled, limit, now, key);
      var bucket := PruneBucket(Entry(windows, key), h, now);
      if |bucket| >= limit {
        StoreRefused(windows, recalled, limit, now, key, bucket);
        windows := windows[key := bucket];
        assert bucket + [] == bucket;
        return false;
      }
      StoreAdmitted(windows, recalled, limit, now, key, bucket);
      Remember(recalled, history, evicted, now, key);
      windows, recalled := windows[key := bucket + [now]], recalled[key := h + [now]];
      history := history[key := Entry(history, key) + [now]];
      return true;
    }
  }

  // ---------------------------------------------------------------------------
  // A run in which an evicted key is admitted too often
  // ---------------------------------------------------------------------------

  datatype Request = Request(key: Key, now: real)

  ghost predicate Answered(g: Guard, q: Request, limit: nat, g': Guard) {
    exists gone :: Evicts(g.windows, q.key, q.now, gone) && g' == After(g, q.key, q.now, limit, gone)
  }

  /** Requests in the order of their times, from empty tables. */
  ghost predicate Run(states: seq<Guard>, requests: seq<Request>, limit: nat) {
    && |states| == |requests| + 1 && states[0] == NOTHING
    && (forall k :: 0 <= k < |requests| ==> Answered(states[k], requests[k], limit, states[k + 1]))
    && (forall j, k :: 0 <= j < k < |requests| ==> requests[j].now <= requests[k].now)
  }

  /** Pairwise different keys. */
  function Name(i: nat): Key {
    seq(i, _ => 'x')
  }

  function Names(n: nat): set<Key> {
    if n == 0 then {} else Names(n - 1) + {Name(n - 1)}
  }

  lemma {:induction false} NamesAreShort(n: nat)
    ensures |Names(n)| == n && (forall k :: k in Names(n) ==> |k| < n) && (n > 0 ==> "" in Names(n))
  {
    if n > 0 {
      NamesAreShort(n - 1);
      assert Name(n - 1) !in Names(n - 1) && (n == 1 ==> Name(0) == "");
    }
  }

  /** The first key came at time 0, all others at time 1. */
  function TimeOf(key: Key): real {
    if key == "" then 0.0 else 1.0
  }

  function Once(keys: set<Key>): Table {
    map k | k in keys :: [TimeOf(k)]
  }

  function Filled(n: nat): Guard {
    Guard(Once(Names(n)), Once(Names(n)), Once(Names(n)), map[])
  }

  function FillingRequest(i: nat): Request {
    Request(Name(i), TimeOf(Name(i)))
  }

  lemma AllFresh(keys: set<Key>, now: real)
    requires now <= 1.0
    ensures Fresh(Once(keys), now) == Once(keys) && |Once(keys)| == |keys|
  {
    assert Once(keys).Keys == keys;
  }

  lemma FirstAdmission(g: Guard, key: Key, now: real, gone: Option<Key>)
    requires key !in g.windows && key !in g.recalled && key !in g.history && gone != Some(key)
    ensures After(g, key, now, 1, gone) ==
            Guard(Without(Fresh(g.windows, now), gone)[key := [now]], g.history[key := [now]],
                  Without(g.recalled, gone)[key := [now]], Dated(g.evicted, gone, now))
  {
    assert [] + [now] == [now] && CountSince([], now - 60.0) == 0;
  }

  lemma FillStep(n: nat)
    requires n < MAX_BUCKETS
    ensures Answered(Filled(n), FillingRequest(n), 1, Filled(n + 1))
  {
    var g, q := Filled(n), FillingRequest(n);
    NamesAreShort(n);
    AllFresh(Names(n), q.now);
    FirstAdmission(g, q.key, q.now, None);
    assert Once(Names(n))[q.key := [q.now]] == Once(Names(n + 1));
    assert Evicts(g.windows, q.key, q.now, None) && Filled(n + 1) == After(g, q.key, q.now, 1, None);
  }

  /** The request that finds `n` buckets, a full table: the first key goes. */
  function Overfull(n: nat): Guard {
    After(Filled(n), Name(n), 1.0, 1, Some(""))
  }

  lemma OverfullForgets(n: nat)
    requires n == MAX_BUCKETS
    ensures Answered(Filled(n), FillingRequest(n), 1, Overfull(n))
    ensures |Overfull(n).windows| == n && "" !in Overfull(n).recalled && Entry(Overfull(n).history, "") == [0.0]
  {
    var g, q := Filled(n), FillingRequest(n);
    NamesAreShort(n);
    AllFresh(Names(n), 1.0);
    assert |q.key| == n;
    assert IsOldest(g.windows, "");
    assert Evicts(g.windows, q.key, q.now, Some(""));
    FirstAdmission(g, q.key, q.now, Some(""));
    assert Overfull(n).windows.Keys == Names(n) - {""} + {q.key};
  }

  function FillingStates(n: nat): (states: seq<Guard>)
    ensures |states| == n + 2 && (forall k :: 0 <= k <= n ==> states[k] == Filled(k)) && states[n + 1] == Overfull(n)
  {
    seq(n + 1, i requires 0 <= i => Filled(i)) + [Overfull(n)]
  }

  function FillingRequests(n: nat): (requests: seq<Request>)
    ensures |requests| == n && forall k :: 0 <= k < n ==> requests[k] == FillingRequest(k)
  {
    seq(n, i requires 0 <= i => FillingRequest(i))
  }

  lemma FillingIsARun(n: nat)
    requires n == MAX_BUCKETS
    ensures Run(FillingStates(n), FillingRequests(n + 1), 1)
  {
    var states, requests := FillingStates(n), FillingRequests(n + 1);
    forall k | 0 <= k < |requests| ensures Answered(states[k], requests[k], 1, states[k + 1]) {
      if k < n {
        FillStep(k);
      } else {
        OverfullForgets(n);
      }
    }
    assert Names(0) == {} && Once({}) == map[];
    forall j, k | 0 <= j < k < |requests| ensures requests[j].now <= requests[k].now {
      assert |requests[k].key| == k;
    }
  }

  /**
   With a limit of one: the first key is admitted, the table fills up with other
   keys, one more evicts the first, and the next request of the first key is
   admitted within the same minute.
   */
  lemma ForgottenKeyIsAdmitted(n: nat)
    requires n == MAX_BUCKETS
    ensures Run(FillingStates(n), FillingRequests(n + 1), 1)
    ensures var g := FillingStates(n)[n + 1];
            && |g.windows| == MAX_BUCKETS && Entry(g.history, "") == [0.0]
            && Admits(Entry(g.recalled, ""), 1.0, 1) && !Admits(Entry(g.history, ""), 1.0, 1)
  {
    FillingIsARun(n);
    OverfullForgets(n);
    assert [0.0][..0] == [] && CountSince([0.0], 1.0 - 60.0) == 1;
  }
}
