/**
 The latent intent lane (archives/latent_pareto.py): candidates indexed by
 intent, a quota of representatives per intent, and removal accounting.
 */
module LatentArchive {
  import opened Wrappers
  import opened Candidates
  import opened Counting

  // ---------------------------------------------------------------------------
  // The representative order
  // ---------------------------------------------------------------------------

  datatype Key = Key(intent: real, reproduction: real, quality: real, seen: int, id: Id)

  /** Text order on ids. */
  predicate TextLeq(a: string, b: string) {
    a == "" || (b != "" && (a[0] < b[0] || (a[0] == b[0] && TextLeq(a[1..], b[1..]))))
  }

  predicate KeyLeq(a: Key, b: Key) {
    if a.intent != b.intent then a.intent < b.intent
    else if a.reproduction != b.reproduction then a.reproduction < b.reproduction
    else if a.quality != b.quality then a.quality < b.quality
    else if a.seen != b.seen then a.seen < b.seen
    else TextLeq(a.id, b.id)
  }

  lemma {:induction false} TextOrder(a: string, b: string, c: string)
    ensures TextLeq(a, b) || TextLeq(b, a)
    ensures TextLeq(a, b) && TextLeq(b, a) ==> a == b
    ensures TextLeq(a, b) && TextLeq(b, c) ==> TextLeq(a, c)
    decreases |a|
  {
    if a != "" && b != "" {
      TextOrder(a[1..], b[1..], if c == "" then "" else c[1..]);
      assert a == [a[0]] + a[1..] && b == [b[0]] + b[1..];
    }
  }

  lemma KeyOrder(a: Key, b: Key, c: Key)
    ensures KeyLeq(a, b) || KeyLeq(b, a)
    ensures KeyLeq(a, b) && KeyLeq(b, a) ==> a == b
    ensures KeyLeq(a, b) && KeyLeq(b, c) ==> KeyLeq(a, c)
  {
    TextOrder(a.id, b.id, c.id);
  }

  /** `_latent_representative_sort_key` of a stored candidate. */
  function KeyOf(c: Candidate, intent: string): Key {
    var l := c.latent;
    Key(if intent in l.intentScores then l.intentScores[intent] else l.fallbackScore,
        l.reproduction, l.quality, if l.round.Some? then l.round.value else l.generation, c.id)
  }

  // ---------------------------------------------------------------------------
  // Shelves: the primary state the buckets are an index of
  // ---------------------------------------------------------------------------

  datatype Shelf = Shelf(candidates: map<Id, Candidate>, intents: map<Id, seq<string>>)

  ghost predicate ShelfOk(s: Shelf) {
    && s.intents.Keys == s.candidates.Keys
    && (forall id :: id in s.candidates ==> s.candidates[id].id == id && s.intents[id] != [])
  }

  function Restrict(s: Shelf, ids: set<Id>): Shelf {
    Shelf(s.candidates - (s.candidates.Keys - ids), s.intents - (s.intents.Keys - ids))
  }

  predicate Ranked(s: Shelf, intent: string, a: Id, b: Id)
    requires a in s.candidates && b in s.candidates
  {
    KeyLeq(KeyOf(s.candidates[b], intent), KeyOf(s.candidates[a], intent))
  }

  function Times(xs: seq<string>, x: string): nat {
    multiset(xs)[x]
  }

  /** How often a candidate lists an intent. */
  function Listed(s: Shelf, intent: string, id: Id): nat {
    if id in s.candidates && id in s.intents then Times(s.intents[id], intent) else 0
  }

  /** From-scratch definition of one bucket: its members with multiplicity, best first. */
  ghost predicate IsBucket(s: Shelf, intent: string, ids: seq<Id>)
    requires ShelfOk(s)
  {
    && (forall id :: Times(ids, id) == Listed(s, intent, id))
    && SortedFor(s, intent, ids)
  }

  ghost predicate SortedFor(s: Shelf, intent: string, ids: seq<Id>) {
    && (forall k :: 0 <= k < |ids| ==> ids[k] in s.candidates)
    && (forall i, j :: 0 <= i < j < |ids| ==> Ranked(s, intent, ids[i], ids[j]))
  }

  function Get(buckets: map<string, seq<Id>>, intent: string): seq<Id> {
    if intent in buckets then buckets[intent] else []
  }

  /** The buckets are the index a rebuild from scratch gives. */
  ghost predicate Exact(s: Shelf, buckets: map<string, seq<Id>>)
    requires ShelfOk(s)
  {
    && (forall intent {:trigger IsBucket(s, intent, Get(buckets, intent))} :: IsBucket(s, intent, Get(buckets, intent)))
    && (forall intent :: intent in buckets ==> buckets[intent] != [])
  }

  /** The last entries of two sorted listings of the same ids agree. */
  lemma SameLast(s: Shelf, intent: string, a: seq<Id>, b: seq<Id>)
    requires forall id :: id in s.candidates ==> s.candidates[id].id == id
    requires SortedFor(s, intent, a) && SortedFor(s, intent, b) && multiset(a) == multiset(b)
    requires a != [] && b != []
    ensures a[|a| - 1] == b[|b| - 1]
  {
    var x, y := a[|a| - 1], b[|b| - 1];
    assert x in multiset(b) && y in multiset(a);
    var i :| 0 <= i < |b| && b[i] == x;
    var j :| 0 <= j < |a| && a[j] == y;
    var kx, ky := KeyOf(s.candidates[x], intent), KeyOf(s.candidates[y], intent);
    KeyOrder(kx, ky, kx);
    KeyOrder(kx, kx, kx);
    assert j == |a| - 1 || Ranked(s, intent, a[j], a[|a| - 1]);
    assert i == |b| - 1 || Ranked(s, intent, b[i], b[|b| - 1]);
  }

  lemma DropLast(s: Shelf, intent: string, a: seq<Id>)
    requires a != [] && SortedFor(s, intent, a)
    ensures multiset(a[..|a| - 1]) == multiset(a) - multiset{a[|a| - 1]}
    ensures SortedFor(s, intent, a[..|a| - 1])
  {
    MultisetWithoutLast(a);
  }

  lemma MultisetWithoutLast(a: seq<Id>)
    requires a != []
    ensures multiset(a[..|a| - 1]) == multiset(a) - multiset{a[|a| - 1]}
  {
    assert a == a[..|a| - 1] + [a[|a| - 1]];
  }

  lemma SameTimesSameLength(a: seq<Id>, b: seq<Id>)
    requires multiset(a) == multiset(b)
    ensures |a| == |b|
  {
    assert |multiset(a)| == |a| && |multiset(b)| == |b|;
  }

  lemma {:induction false} SortedIsUnique(s: Shelf, intent: string, a: seq<Id>, b: seq<Id>)
    requires forall id :: id in s.candidates ==> s.candidates[id].id == id
    requires SortedFor(s, intent, a) && SortedFor(s, intent, b) && multiset(a) == multiset(b)
    ensures a == b
    decreases |a|
  {
    SameTimesSameLength(a, b);
    if a != [] {
      var n := |a| - 1;
      SameLast(s, intent, a, b);
      DropLast(s, intent, a);
      DropLast(s, intent, b);
      SortedIsUnique(s, intent, a[..n], b[..n]);
      assert a == a[..n] + [a[n]] && b == b[..n] + [b[n]];
    }
  }

  lemma SameTimes(a: seq<Id>, b: seq<Id>)
    requires forall id :: Times(a, id) == Times(b, id)
    ensures multiset(a) == multiset(b)
  {
    forall id ensures multiset(a)[id] == multiset(b)[id] {
      assert Times(a, id) == Times(b, id);
    }
  }

  /** Two exact indexes of the same shelf are equal. */
  lemma IndexIsUnique(s: Shelf, b1: map<string, seq<Id>>, b2: map<string, seq<Id>>)
    requires ShelfOk(s) && Exact(s, b1) && Exact(s, b2)
    ensures b1 == b2
  {
    forall intent ensures Get(b1, intent) == Get(b2, intent) {
      assert IsBucket(s, intent, Get(b1, intent)) && IsBucket(s, intent, Get(b2, intent));
      SameTimes(Get(b1, intent), Get(b2, intent));
      SortedIsUnique(s, intent, Get(b1, intent), Get(b2, intent));
    }
    forall intent ensures intent in b1 <==> intent in b2 {
      assert Get(b1, intent) == Get(b2, intent);
    }
    assert forall intent :: intent in b1 ==> b1[intent] == Get(b2, intent);
  }

  // ---------------------------------------------------------------------------
  // Quota enforcement
  // ---------------------------------------------------------------------------

  function Top(ids: seq<Id>, quota: nat): seq<Id> {
    if |ids| <= quota then ids else ids[..quota]
  }

  /** Ids in the top of at least one bucket. */
  ghost predicate IsKept(buckets: map<string, seq<Id>>, quota: nat, id: Id) {
    exists intent :: intent in buckets && id in Top(buckets[intent], quota)
  }

  function Filter(ids: seq<Id>, keep: set<Id>): seq<Id> {
    if ids == [] then []
    else Filter(ids[..|ids| - 1], keep) + if ids[|ids| - 1] in keep then [ids[|ids| - 1]] else []
  }

  lemma {:induction false} FilterFacts(s: Shelf, intent: string, ids: seq<Id>, keep: set<Id>)
    requires SortedFor(s, intent, ids)
    ensures SortedFor(s, intent, Filter(ids, keep))
    ensures forall id :: Times(Filter(ids, keep), id) == if id in keep then Times(ids, id) else 0
    ensures forall id :: id in Filter(ids, keep) <==> id in ids && id in keep
  {
    if ids != [] {
      var n := |ids| - 1;
      FilterFacts(s, intent, ids[..n], keep);
      assert ids == ids[..n] + [ids[n]];
      var f := Filter(ids[..n], keep);
      forall k | 0 <= k < |f| ensures f[k] in s.candidates && Ranked(s, intent, f[k], ids[n]) {
        assert f[k] in ids[..n];
        var i :| 0 <= i < n && ids[i] == f[k];
      }
    }
  }

  lemma {:induction false} FilterAll(ids: seq<Id>, keep: set<Id>)
    requires forall k :: 0 <= k < |ids| ==> ids[k] in keep
    ensures Filter(ids, keep) == ids
  {
    if ids != [] {
      FilterAll(ids[..|ids| - 1], keep);
      assert ids == ids[..|ids| - 1] + [ids[|ids| - 1]];
    }
  }

  lemma {:induction false} FilterKeepsTop(ids: seq<Id>, keep: set<Id>, q: nat)
    requires q <= |ids| && forall k :: 0 <= k < q ==> ids[k] in keep
    ensures ids[..q] <= Filter(ids, keep)
  {
    if |ids| > q {
      FilterKeepsTop(ids[..|ids| - 1], keep, q);
      assert ids[..|ids| - 1][..q] == ids[..q];
    } else {
      FilterAll(ids, keep);
    }
  }

  lemma {:induction false} FilterLength(ids: seq<Id>, keep: set<Id>)
    ensures |Filter(ids, keep)| <= |ids|
  {
    if ids != [] {
      FilterLength(ids[..|ids| - 1], keep);
    }
  }

  /** Filtering out only ids below the top leaves the top the top. */
  lemma FilterKeepsTheTop(ids: seq<Id>, keep: set<Id>, quota: nat)
    requires forall id :: id in Top(ids, quota) ==> id in keep
    ensures Top(Filter(ids, keep), quota) == Top(ids, quota) <= Filter(ids, keep)
  {
    var q := |Top(ids, quota)|;
    assert Top(ids, quota) == ids[..q];
    forall k | 0 <= k < q ensures ids[k] in keep {
      assert ids[k] in Top(ids, quota);
    }
    FilterKeepsTop(ids, keep, q);
    FilterLength(ids, keep);
  }

  /** The index of the kept shelf is the old index with the removed ids filtered out. */
  lemma FilteredIndex(s: Shelf, buckets: map<string, seq<Id>>, keep: set<Id>, intent: string, ids: seq<Id>)
    requires ShelfOk(s) && Exact(s, buckets) && ShelfOk(Restrict(s, keep))
    requires IsBucket(Restrict(s, keep), intent, ids)
    ensures ids == Filter(Get(buckets, intent), keep)
  {
    assert IsBucket(s, intent, Get(buckets, intent));
    var f := Filter(Get(buckets, intent), keep);
    FilterFacts(s, intent, Get(buckets, intent), keep);
    var r := Restrict(s, keep);
    forall id ensures Times(ids, id) == Times(f, id) {
      assert Times(ids, id) == Listed(r, intent, id);
    }
    SameTimes(ids, f);
    assert SortedFor(s, intent, ids);
    SortedIsUnique(s, intent, ids, f);
  }

  /** The state right after enforcement: the kept part of a shelf, with its exact index. */
  ghost predicate Enforced(s: Shelf, buckets: map<string, seq<Id>>, quota: nat, after: Shelf,
                           afterBuckets: map<string, seq<Id>>) {
    && ShelfOk(s) && Exact(s, buckets)
    && (forall id :: id in after.candidates <==> IsKept(buckets, quota, id))
    && after == Restrict(s, after.candidates.Keys)
    && ShelfOk(after) && Exact(after, afterBuckets)
  }

  /** The top of every bucket survives, and stays the top of its bucket. */
  lemma TopSurvives(s: Shelf, buckets: map<string, seq<Id>>, quota: nat, after: Shelf,
                    afterBuckets: map<string, seq<Id>>,
                    intent: string)
    requires Enforced(s, buckets, quota, after, afterBuckets) && intent in buckets
    ensures forall id :: id in Top(buckets[intent], quota) ==> id in after.candidates
    ensures Top(buckets[intent], quota) <= Get(afterBuckets, intent)
    ensures Top(Get(afterBuckets, intent), quota) == Top(buckets[intent], quota)
  {
    var keep := after.candidates.Keys;
    assert IsBucket(after, intent, Get(afterBuckets, intent));
    FilteredIndex(s, buckets, keep, intent, Get(afterBuckets, intent));
    forall id | id in Top(buckets[intent], quota) ensures id in keep {
      assert IsKept(buckets, quota, id);
    }
    FilterKeepsTheTop(buckets[intent], keep, quota);
  }

  // ---------------------------------------------------------------------------
  // Which representatives are kept
  // ---------------------------------------------------------------------------

  /** The score of a candidate for an intent: its own, or the general one. */
  function IntentScore(l: Latent, intent: string): real {
    if intent in l.intentScores then l.intentScores[intent] else l.fallbackScore
  }

  /** `a` represents the intent at least as well as `b`: score, then reproduction, quality, round and id. */
  ghost predicate AsGoodFor(a: Candidate, b: Candidate, intent: string) {
    var x, y := a.latent, b.latent;
    var p, q := IntentScore(x, intent), IntentScore(y, intent);
    var r := if x.round.Some? then x.round.value else x.generation;
    var t := if y.round.Some? then y.round.value else y.generation;
    p > q || (p == q && (x.reproduction > y.reproduction || (x.reproduction == y.reproduction &&
      (x.quality > y.quality || (x.quality == y.quality && (r > t || (r == t && TextLeq(b.id, a.id))))))))
  }

  /** Text order: a prefix, or smaller where the texts first differ. */
  lemma {:induction false} TextLeqIff(a: string, b: string)
    ensures TextLeq(a, b) <==> a <= b || SmallerWhereTheyDiffer(a, b)
    decreases |a|
  {
    if a != "" && b != "" {
      FirstLetters(a, b);
      if a[0] == b[0] {
        TextLeqIff(a[1..], b[1..]);
        TailsDiffer(a, b);
      } else {
        assert DifferFirstAt(a, b, 0);
        assert forall k :: DifferFirstAt(a, b, k) ==> k == 0;
      }
    }
  }

  lemma FirstLetters(a: string, b: string)
    requires a != "" && b != ""
    ensures a <= b <==> a[0] == b[0] && a[1..] <= b[1..]
  {
    assert a == [a[0]] + a[1..] && b == [b[0]] + b[1..];
  }

  lemma TailsDiffer(a: string, b: string)
    requires a != "" && b != "" && a[0] == b[0]
    ensures SmallerWhereTheyDiffer(a, b) <==> SmallerWhereTheyDiffer(a[1..], b[1..])
  {
    if k: int :| DifferFirstAt(a, b, k) && a[k] < b[k] {
      assert a[1..][..k - 1] == a[..k][1..] && b[1..][..k - 1] == b[..k][1..];
      assert DifferFirstAt(a[1..], b[1..], k - 1);
    }
    if k: int :| DifferFirstAt(a[1..], b[1..], k) && a[1..][k] < b[1..][k] {
      assert a[..k + 1] == [a[0]] + a[1..][..k] && b[..k + 1] == [b[0]] + b[1..][..k];
      assert DifferFirstAt(a, b, k + 1);
    }
  }

  ghost predicate SmallerWhereTheyDiffer(a: string, b: string) {
    exists k :: DifferFirstAt(a, b, k) && a[k] < b[k]
  }

  ghost predicate DifferFirstAt(a: string, b: string, k: int) {
    0 <= k < |a| && k < |b| && a[..k] == b[..k] && a[k] != b[k]
  }

  /** A bucket lists the better representatives first. */
  lemma BucketIsBestFirst(s: Shelf, intent: string, ids: seq<Id>, j: nat, k: nat)
    requires ShelfOk(s) && IsBucket(s, intent, ids) && j < k < |ids|
    ensures AsGoodFor(s.candidates[ids[j]], s.candidates[ids[k]], intent)
  {
    assert Ranked(s, intent, ids[j], ids[k]);
  }

  lemma ListedIffInBucket(s: Shelf, intent: string, ids: seq<Id>, id: Id)
    requires ShelfOk(s) && IsBucket(s, intent, ids)
    ensures id in ids <==> id in s.candidates && intent in s.intents[id]
  {
    assert Times(ids, id) == Listed(s, intent, id);
    assert id in ids <==> id in multiset(ids);
    if id in s.candidates {
      assert intent in s.intents[id] <==> intent in multiset(s.intents[id]);
    }
  }

  /** `quota` kept candidates of the intent, none better represented by the removed one. */
  ghost predicate Outrank(s: Shelf, after: Shelf, quota: nat, intent: string, best: seq<Id>, id: Id)
    requires id in s.candidates && s.intents.Keys == s.candidates.Keys
  {
    && |best| == quota && ((forall x :: Listed(s, intent, x) <= 1) ==> Distinct(best))
    && forall x :: x in best ==>
         && x in after.candidates && x in s.candidates && intent in s.intents[x]
         && AsGoodFor(s.candidates[x], s.candidates[id], intent)
  }

  /** What enforcement removes is outranked by a full quota for every intent it lists. */
  lemma RemovedIsOutranked(s: Shelf, buckets: map<string, seq<Id>>, quota: nat, after: Shelf,
                           afterBuckets: map<string, seq<Id>>, id: Id, intent: string) returns (best: seq<Id>)
    requires Enforced(s, buckets, quota, after, afterBuckets)
    requires id in s.candidates && id !in after.candidates && intent in s.intents[id]
    ensures Outrank(s, after, quota, intent, best, id)
  {
    var ids := Get(buckets, intent);
    assert IsBucket(s, intent, ids);
    ListedIffInBucket(s, intent, ids, id);
    var k :| 0 <= k < |ids| && ids[k] == id;
    assert intent in buckets && id !in Top(ids, quota);
    best := ids[..quota];
    forall x | x in best
      ensures x in after.candidates && x in s.candidates && intent in s.intents[x]
      ensures AsGoodFor(s.candidates[x], s.candidates[id], intent)
    {
      var j :| 0 <= j < quota && ids[j] == x;
      assert x in Top(ids, quota) && IsKept(buckets, quota, x);
      ListedIffInBucket(s, intent, ids, x);
      BucketIsBestFirst(s, intent, ids, j, k);
    }
    if forall x :: Listed(s, intent, x) <= 1 {
      ListedOnce(s, intent, ids);
    }
  }

  /** Whatever is removed is outranked by a full quota for every intent it lists. */
  ghost predicate RemovedAreOutranked(s: Shelf, after: Shelf, quota: nat)
    requires s.intents.Keys == s.candidates.Keys
  {
    forall id, intent :: id in s.candidates && id !in after.candidates && intent in s.intents[id] ==>
      exists best :: Outrank(s, after, quota, intent, best, id)
  }

  lemma EveryRemovedIsOutranked(s: Shelf, buckets: map<string, seq<Id>>, quota: nat, after: Shelf,
                                afterBuckets: map<string, seq<Id>>)
    requires Enforced(s, buckets, quota, after, afterBuckets)
    ensures RemovedAreOutranked(s, after, quota)
  {
    forall id, intent | id in s.candidates && id !in after.candidates && intent in s.intents[id]
      ensures exists best :: Outrank(s, after, quota, intent, best, id)
    {
      var best := RemovedIsOutranked(s, buckets, quota, after, afterBuckets, id, intent);
    }
  }

  lemma ListedOnce(s: Shelf, intent: string, ids: seq<Id>)
    requires ShelfOk(s) && IsBucket(s, intent, ids) && forall x :: Listed(s, intent, x) <= 1
    ensures Distinct(ids)
  {
    forall i, j | 0 <= i < j < |ids| ensures ids[i] != ids[j] {
      assert Times(ids, ids[i]) == Listed(s, intent, ids[i]);
      assert ids == ids[..i + 1] + ids[i + 1..] && ids[..i + 1][i] == ids[i] && ids[i + 1..][j - i - 1] == ids[j];
      assert ids[i] in multiset(ids[..i + 1]) && ids[j] in multiset(ids[i + 1..]);
    }
  }

  /** What enforcement keeps has, for one of its intents, fewer than a quota of better candidates. */
  lemma KeptHasAPlace(s: Shelf, buckets: map<string, seq<Id>>, quota: nat, after: Shelf,
                      afterBuckets: map<string, seq<Id>>, id: Id) returns (intent: string, ahead: set<Id>)
    requires Enforced(s, buckets, quota, after, afterBuckets) && id in after.candidates
    ensures id in s.candidates && intent in s.intents[id]
    ensures |ahead| < quota && forall x :: IsBetter(s, intent, x, id) ==> x in ahead
  {
    assert IsKept(buckets, quota, id);
    intent :| intent in buckets && id in Top(buckets[intent], quota);
    var ids := Get(buckets, intent);
    assert IsBucket(s, intent, ids);
    ListedIffInBucket(s, intent, ids, id);
    var j :| 0 <= j < |Top(ids, quota)| && Top(ids, quota)[j] == id;
    ahead := set x | x in ids[..j];
    FewerThan(ahead, ids[..j]);
    forall x | IsBetter(s, intent, x, id) ensures x in ahead {
      BetterIsAhead(s, intent, ids, j, x);
    }
  }

  lemma BetterIsAhead(s: Shelf, intent: string, ids: seq<Id>, j: nat, x: Id)
    requires ShelfOk(s) && IsBucket(s, intent, ids) && j < |ids| && IsBetter(s, intent, x, ids[j])
    ensures x in ids[..j]
  {
    ListedIffInBucket(s, intent, ids, x);
    var m :| 0 <= m < |ids| && ids[m] == x;
    if m > j {
      BucketIsBestFirst(s, intent, ids, j, m);
    }
    assert ids[..j][m] == x;
  }

  ghost predicate IsBetter(s: Shelf, intent: string, x: Id, id: Id) {
    && x in s.candidates && id in s.candidates && x in s.intents && x != id && intent in s.intents[x]
    && !AsGoodFor(s.candidates[id], s.candidates[x], intent)
  }

  lemma {:induction false} FewerThan(xs: set<Id>, ids: seq<Id>)
    requires forall x :: x in xs ==> x in ids
    ensures |xs| <= |ids|
    decreases |ids|
  {
    if ids != [] {
      var last := ids[|ids| - 1];
      forall x | x in xs - {last} ensures x in ids[..|ids| - 1] {
        var i :| 0 <= i < |ids| && ids[i] == x;
        assert i < |ids| - 1;
      }
      FewerThan(xs - {last}, ids[..|ids| - 1]);
    } else {
      assert xs == {};
    }
  }

  /** No bucket appears or disappears. */
  lemma SameBuckets(s: Shelf, buckets: map<string, seq<Id>>, quota: nat, after: Shelf,
                    afterBuckets: map<string, seq<Id>>)
    requires Enforced(s, buckets, quota, after, afterBuckets) && quota >= 1
    ensures afterBuckets.Keys == buckets.Keys
  {
    forall intent | intent in buckets ensures intent in afterBuckets {
      TopSurvives(s, buckets, quota, after, afterBuckets, intent);
    }
    forall intent | intent in afterBuckets ensures intent in buckets {
      assert IsBucket(after, intent, Get(afterBuckets, intent)) && IsBucket(s, intent, Get(buckets, intent));
      FilteredIndex(s, buckets, after.candidates.Keys, intent, Get(afterBuckets, intent));
      FilterLength(Get(buckets, intent), after.candidates.Keys);
    }
  }

  /** Enforcing again removes nothing: the survivors are exactly what is in the top of some bucket. */
  lemma EnforcementIsFixpoint(s: Shelf, buckets: map<string, seq<Id>>, quota: nat, after: Shelf,
                              afterBuckets: map<string, seq<Id>>)
    requires Enforced(s, buckets, quota, after, afterBuckets) && quota >= 1
    ensures forall id :: id in after.candidates <==> IsKept(afterBuckets, quota, id)
    ensures afterBuckets.Keys == buckets.Keys
  {
    SameBuckets(s, buckets, quota, after, afterBuckets);
    forall id | id in after.candidates ensures IsKept(afterBuckets, quota, id) {
      var intent :| intent in buckets && id in Top(buckets[intent], quota);
      TopSurvives(s, buckets, quota, after, afterBuckets, intent);
      assert id in Top(Get(afterBuckets, intent), quota);
    }
    forall id | IsKept(afterBuckets, quota, id) ensures id in after.candidates {
      var intent :| intent in afterBuckets && id in Top(afterBuckets[intent], quota);
      TopSurvives(s, buckets, quota, after, afterBuckets, intent);
    }
  }

  ghost predicate InTopOf(buckets: map<string, seq<Id>>, quota: nat, intent: string, id: Id) {
    id in Top(Get(buckets, intent), quota)
  }

  /** At most `quota` candidates per intent. */
  lemma {:induction false} SizeIsBounded(buckets: map<string, seq<Id>>, quota: nat, intents: set<string>, ids: set<Id>)
    requires forall id :: id in ids ==> exists intent :: intent in intents && InTopOf(buckets, quota, intent, id)
    ensures |ids| <= quota * |intents|
    decreases |intents|
  {
    if intents == {} {
      assert ids == {};
    } else {
      var intent :| intent in intents;
      var top := Top(Get(buckets, intent), quota);
      var rest := set id | id in ids && id !in top;
      forall id | id in rest ensures exists i :: i in intents - {intent} && InTopOf(buckets, quota, i, id) {
        var i :| i in intents && InTopOf(buckets, quota, i, id);
        assert i in intents - {intent};
      }
      SizeIsBounded(buckets, quota, intents - {intent}, rest);
      RestIsSmaller(ids, rest, top);
      assert |top| <= quota;
      OneMoreQuota(quota, |intents| - 1);
    }
  }

  lemma OneMoreQuota(quota: nat, n: nat)
    ensures quota * (n + 1) == quota * n + quota
  {
  }

  lemma {:induction false} RestIsSmaller(ids: set<Id>, rest: set<Id>, top: seq<Id>)
    requires rest <= ids && forall id :: id in ids && id !in rest ==> id in top
    ensures |ids| <= |rest| + |top|
    decreases |top|
  {
    if top == [] {
      assert ids == rest;
    } else {
      var n := |top| - 1;
      assert forall id :: id in top <==> id in top[..n] || id == top[n];
      RestIsSmaller(ids - {top[n]}, rest - {top[n]}, top[..n]);
      if top[n] in rest { assert |rest| == |rest - {top[n]}| + 1 && |ids| == |ids - {top[n]}| + 1; }
      else { assert rest - {top[n]} == rest; }
      assert |ids| <= |ids - {top[n]}| + 1;
    }
  }

  // ---------------------------------------------------------------------------
  // Keeping the index exact
  // ---------------------------------------------------------------------------

  function Less(s: Shelf, gone: set<Id>): Shelf {
    Shelf(s.candidates - gone, s.intents - gone)
  }

  lemma MinusTwice<V>(m: map<Id, V>, a: set<Id>, b: set<Id>)
    ensures m - a - b == m - (a + b)
  {
  }

  lemma LessTwice(s: Shelf, a: set<Id>, b: set<Id>)
    ensures Less(Less(s, a), b) == Less(s, a + b)
  {
    MinusTwice(s.candidates, a, b);
    MinusTwice(s.intents, a, b);
  }

  lemma OneLessToDo(all: set<Id>, todo: set<Id>, id: Id)
    requires id in todo && todo <= all
    ensures (all - todo) + {id} == all - (todo - {id})
  {
  }

  lemma LessNothing(s: Shelf)
    ensures Less(s, {}) == s
  {
    assert s.candidates - {} == s.candidates && s.intents - {} == s.intents;
  }

  lemma RestrictIsLess(s: Shelf, gone: set<Id>)
    requires s.intents.Keys == s.candidates.Keys && gone <= s.candidates.Keys
    ensures Restrict(s, s.candidates.Keys - gone) == Less(s, gone)
  {
    assert s.candidates.Keys - (s.candidates.Keys - gone) == gone;
  }

  lemma KeptIsRestricted(s: Shelf, keep: set<Id>)
    requires s.intents.Keys == s.candidates.Keys && keep <= s.candidates.Keys
    ensures Less(s, s.candidates.Keys - keep) == Restrict(s, keep)
    ensures Restrict(s, keep).candidates.Keys == keep
  {
  }

  lemma RestrictWithoutOne(s: Shelf, id: Id)
    requires s.intents.Keys == s.candidates.Keys
    ensures Restrict(s, s.candidates.Keys - {id}) == Less(s, {id})
  {
    assert Restrict(s, s.candidates.Keys - {id}).candidates == s.candidates - {id};
    assert Restrict(s, s.candidates.Keys - {id}).intents == s.intents - {id};
  }

  ghost predicate NoneEmpty(buckets: map<string, seq<Id>>) {
    forall intent :: intent in buckets ==> buckets[intent] != []
  }

  /** The buckets outside `todo` are filtered, the others untouched. */
  ghost predicate FilteredOutside(before: map<string, seq<Id>>, keep: set<Id>, todo: set<string>,
                                  after: map<string, seq<Id>>) {
    forall intent :: Get(after, intent) ==
                     if intent in todo then Get(before, intent) else Filter(Get(before, intent), keep)
  }

  lemma FilteredOneMore(before: map<string, seq<Id>>, keep: set<Id>, todo: set<string>, after: map<string, seq<Id>>,
                        intent: string, kept: seq<Id>)
    requires FilteredOutside(before, keep, todo, after) && kept == Filter(Get(before, intent), keep)
    ensures FilteredOutside(
              before, keep, todo - {intent}, if kept != [] then after[intent := kept] else after - {intent})
  {
    var next := if kept != [] then after[intent := kept] else after - {intent};
    forall i ensures Get(next, i) == if i in todo - {intent} then Get(before, i) else Filter(Get(before, i), keep) {
      assert Get(after, i) == if i in todo then Get(before, i) else Filter(Get(before, i), keep);
    }
  }

  ghost predicate StoredOnly(buckets: map<string, seq<Id>>, ids: set<Id>) {
    forall intent, k :: intent in buckets && 0 <= k < |buckets[intent]| ==> buckets[intent][k] in ids
  }

  lemma MembersOfIndex(s: Shelf, buckets: map<string, seq<Id>>)
    requires ShelfOk(s) && Exact(s, buckets)
    ensures StoredOnly(buckets, s.candidates.Keys) && NoneEmpty(buckets)
  {
    forall intent, k | intent in buckets && 0 <= k < |buckets[intent]| ensures buckets[intent][k] in s.candidates {
      assert IsBucket(s, intent, Get(buckets, intent));
    }
  }

  /** Filtering one id out of every bucket indexes the shelf without it. */
  lemma FilteredIsBucket(s: Shelf, intent: string, ids: seq<Id>, keep: set<Id>)
    requires ShelfOk(s) && IsBucket(s, intent, ids) && ShelfOk(Restrict(s, keep))
    ensures IsBucket(Restrict(s, keep), intent, Filter(ids, keep))
  {
    var r, f := Restrict(s, keep), Filter(ids, keep);
    FilterFacts(s, intent, ids, keep);
    forall k | 0 <= k < |f| ensures f[k] in r.candidates {
      assert f[k] in f;
    }
    SortedOnRestricted(s, keep, intent, f);
    forall id ensures Times(f, id) == Listed(r, intent, id) {
      assert Times(ids, id) == Listed(s, intent, id);
    }
  }

  lemma SortedOnRestricted(s: Shelf, keep: set<Id>, intent: string, ids: seq<Id>)
    requires SortedFor(s, intent, ids) && forall k :: 0 <= k < |ids| ==> ids[k] in Restrict(s, keep).candidates
    ensures SortedFor(Restrict(s, keep), intent, ids)
  {
  }

  lemma DiscardKeepsExact(s: Shelf, b: map<string, seq<Id>>, keep: set<Id>, b': map<string, seq<Id>>)
    requires ShelfOk(s) && Exact(s, b)
    requires FilteredOutside(b, keep, {}, b') && NoneEmpty(b')
    ensures ShelfOk(Restrict(s, keep)) && Exact(Restrict(s, keep), b')
  {
    forall intent ensures IsBucket(Restrict(s, keep), intent, Get(b', intent)) {
      assert IsBucket(s, intent, Get(b, intent));
      FilteredIsBucket(s, intent, Get(b, intent), keep);
    }
  }

  function InsertId(s: Shelf, intent: string, x: Id, ids: seq<Id>): seq<Id>
    requires x in s.candidates && forall k :: 0 <= k < |ids| ==> ids[k] in s.candidates
  {
    if ids == [] || Ranked(s, intent, ids[|ids| - 1], x) then ids + [x]
    else InsertId(s, intent, x, ids[..|ids| - 1]) + [ids[|ids| - 1]]
  }

  lemma SortedAppend(s: Shelf, intent: string, ids: seq<Id>, x: Id)
    requires x in s.candidates && SortedFor(s, intent, ids)
    requires forall k :: 0 <= k < |ids| ==> Ranked(s, intent, ids[k], x)
    ensures SortedFor(s, intent, ids + [x])
  {
  }

  lemma RankedIsAnOrder(s: Shelf, intent: string, a: Id, b: Id, c: Id)
    requires a in s.candidates && b in s.candidates && c in s.candidates
    ensures Ranked(s, intent, a, b) || Ranked(s, intent, b, a)
    ensures Ranked(s, intent, a, b) && Ranked(s, intent, b, c) ==> Ranked(s, intent, a, c)
  {
    KeyOrder(KeyOf(s.candidates[c], intent), KeyOf(s.candidates[b], intent), KeyOf(s.candidates[a], intent));
    KeyOrder(KeyOf(s.candidates[a], intent), KeyOf(s.candidates[b], intent), KeyOf(s.candidates[c], intent));
  }

  lemma {:induction false} InsertIdMultiset(s: Shelf, intent: string, x: Id, ids: seq<Id>)
    requires x in s.candidates && forall k :: 0 <= k < |ids| ==> ids[k] in s.candidates
    ensures multiset(InsertId(s, intent, x, ids)) == multiset(ids) + multiset{x}
    ensures forall y :: y in InsertId(s, intent, x, ids) ==> y == x || y in ids
  {
    if ids != [] {
      InsertIdMultiset(s, intent, x, ids[..|ids| - 1]);
      assert ids == ids[..|ids| - 1] + [ids[|ids| - 1]];
    }
  }

  lemma {:induction false} InsertIdSorted(s: Shelf, intent: string, x: Id, ids: seq<Id>)
    requires x in s.candidates && SortedFor(s, intent, ids)
    ensures SortedFor(s, intent, InsertId(s, intent, x, ids))
  {
    if ids != [] {
      var n := |ids| - 1;
      if Ranked(s, intent, ids[n], x) {
        forall k | 0 <= k < |ids| ensures Ranked(s, intent, ids[k], x) {
          RankedIsAnOrder(s, intent, ids[k], ids[n], x);
        }
        SortedAppend(s, intent, ids, x);
      } else {
        InsertIdSorted(s, intent, x, ids[..n]);
        InsertIdMultiset(s, intent, x, ids[..n]);
        var r := InsertId(s, intent, x, ids[..n]);
        forall k | 0 <= k < |r| ensures Ranked(s, intent, r[k], ids[n]) {
          assert r[k] in r;
          RankedIsAnOrder(s, intent, x, ids[n], x);
          if r[k] != x {
            var i :| 0 <= i < n && ids[..n][i] == r[k];
          }
        }
        SortedAppend(s, intent, r, ids[n]);
      }
    }
  }

  /** The built-in sort by the representative key, best first. */
  method SortIds(s: Shelf, intent: string, ids: seq<Id>) returns (sorted: seq<Id>)
    requires forall k :: 0 <= k < |ids| ==> ids[k] in s.candidates
    ensures SortedFor(s, intent, sorted) && multiset(sorted) == multiset(ids)
  {
    sorted := [];
    for k := 0 to |ids|
      invariant SortedFor(s, intent, sorted) && multiset(sorted) == multiset(ids[..k])
    {
      InsertIdSorted(s, intent, ids[k], sorted);
      InsertIdMultiset(s, intent, ids[k], sorted);
      assert ids[..k + 1] == ids[..k] + [ids[k]];
      sorted := InsertId(s, intent, ids[k], sorted);
    }
    assert ids[..|ids|] == ids;
  }

  // ---------------------------------------------------------------------------
  // The archive
  // ---------------------------------------------------------------------------

  datatype Removal = Removal(id: Id, reason: string)

  function Recorded(id: Id, reason: string): Removal {
    Removal(id, if reason == "" then "removed" else reason)
  }

  function Reasons(rs: seq<Removal>): seq<string> {
    if rs == [] then [] else Reasons(rs[..|rs| - 1]) + [rs[|rs| - 1].reason]
  }

  function LastFifty(rs: seq<Removal>): seq<Removal> {
    if |rs| <= 50 then rs else rs[|rs| - 50..]
  }

  function Count(counters: map<string, nat>, reason: string): nat {
    if reason in counters then counters[reason] else 0
  }

  /** One positive counter per reason that occurs, holding how often it does. */
  ghost predicate Tallied(rs: seq<Removal>, counters: map<string, nat>) {
    && (forall r :: Occurs(Reasons(rs), r) == Count(counters, r))
    && (forall r :: r in counters ==> counters[r] > 0)
  }

  lemma TallyOneMore(rs: seq<Removal>, counters: map<string, nat>, next: Removal)
    requires Tallied(rs, counters)
    ensures Tallied(rs + [next], counters[next.reason := Count(counters, next.reason) + 1])
  {
    assert (rs + [next])[..|rs|] == rs;
    assert Reasons(rs + [next]) == Reasons(rs) + [next.reason];
    assert (Reasons(rs) + [next.reason])[..|Reasons(rs)|] == Reasons(rs);
    var more := counters[next.reason := Count(counters, next.reason) + 1];
    forall r ensures Occurs(Reasons(rs + [next]), r) == Count(more, r) {
      assert Occurs(Reasons(rs), r) == Count(counters, r);
    }
  }

  lemma LastFiftyOneMore(rs: seq<Removal>, next: Removal)
    ensures LastFifty(rs + [next]) == LastFifty(LastFifty(rs) + [next])
  {
  }

  /** The removal counters add up to the number of removals, over any listing of their keys. */
  lemma CountersAddUp(rs: seq<Removal>, counters: map<string, nat>, keys: seq<string>)
    requires Tallied(rs, counters) && Distinct(keys) && forall r :: r in keys <==> r in counters
    ensures SumOver(keys, r => Count(counters, r)) == |rs|
  {
    forall r | r in Reasons(rs) ensures r in keys {
      OccursWhenIn(Reasons(rs), r);
    }
    ReasonsLength(rs);
    OccurrencesAddUp(keys, Reasons(rs));
    SumMonotone(keys, OccursIn(Reasons(rs)), r => Count(counters, r));
    SumMonotone(keys, r => Count(counters, r), OccursIn(Reasons(rs)));
  }

  lemma {:induction false} OccursWhenIn(xs: seq<string>, x: string)
    requires x in xs
    ensures Occurs(xs, x) > 0
  {
    if xs[|xs| - 1] != x {
      OccursWhenIn(xs[..|xs| - 1], x);
    }
  }

  lemma {:induction false} ReasonsLength(rs: seq<Removal>)
    ensures |Reasons(rs)| == |rs|
  {
    if rs != [] {
      ReasonsLength(rs[..|rs| - 1]);
    }
  }

  /** Why `prune` removes a stored candidate; empty for no reason. */
  function PruneReason(c: Candidate, lastSeen: Option<int>, round: Option<int>, staleAfter: int): string {
    if TerminalFailure(c.fate) then "terminal_fate"
    else if !c.latent.frontier then "stale_not_frontier"
    else if round.Some? && lastSeen.Some? && round.value - lastSeen.value > staleAfter then "stale_age"
    else ""
  }

  /** The log is the end of the history, at most fifty records of it. */
  lemma LogIsTheEnd(rs: seq<Removal>, k: nat)
    ensures |LastFifty(rs)| == if |rs| < 50 then |rs| else 50
    ensures k < |LastFifty(rs)| ==> LastFifty(rs)[|LastFifty(rs)| - 1 - k] == rs[|rs| - 1 - k]
  {
  }

  /** When a stored candidate first came in, and when it was added last. */
  datatype Observation = Observation(added: Option<int>, lastSeen: Option<int>)

  /** Adding again keeps the round of the first addition. */
  function Refreshed(before: map<Id, Observation>, id: Id, round: int): Observation {
    var previous := if id in before then before[id].added else None;
    Observation(if previous.Some? then previous else Some(round), Some(round))
  }

  class LatentLane {
    var candidates: map<Id, Candidate>
    var intents: map<Id, seq<string>>
    var observations: map<Id, Observation>
    var buckets: map<string, seq<Id>>
    const quota: nat
    const staleAfter: int
    var removedTotal: nat
    var removalReasons: map<string, nat>
    var removalLog: seq<Removal>
    ghost var removals: seq<Removal>     // every recorded removal

    constructor (maxRepresentatives: int, staleAfter: int)
      ensures Valid() && candidates == map[] && removals == []
      ensures this.quota == (if maxRepresentatives < 1 then 1 else maxRepresentatives) && this.staleAfter == staleAfter
    {
      this.quota := if maxRepresentatives < 1 then 1 else maxRepresentatives;
      this.staleAfter := staleAfter;
      candidates, intents, observations, buckets := map[], map[], map[], map[];
      removedTotal, removalReasons, removalLog, removals := 0, map[], [], [];
    }

    ghost function Contents(): Shelf
      reads this
    {
      Shelf(candidates, intents)
    }

    /** Counters and log agree with the history of recorded removals. */
    ghost predicate Accounted()
      reads this
    {
      removedTotal == |removals| && removalLog == LastFifty(removals) && Tallied(removals, removalReasons)
    }

    ghost predicate Valid()
      reads this
    {
      && quota >= 1 && observations.Keys == candidates.Keys
      && ShelfOk(Contents()) && Exact(Contents(), buckets) && Accounted()
    }

    method RecordRemoval(id: Id, reason: string)
      requires Accounted()
      modifies this`removedTotal, this`removalReasons, this`removalLog, this`removals
      ensures Accounted() && removals == old(removals) + [Recorded(id, reason)]
    {
      var next := Recorded(id, reason);
      LastFiftyOneMore(removals, next);
      TallyOneMore(removals, removalReasons, next);
      removedTotal := removedTotal + 1;
      removalReasons := removalReasons[next.reason := Count(removalReasons, next.reason) + 1];
      removalLog := LastFifty(removalLog + [next]);
      removals := removals + [next];
    }

    /** Drops one id from every bucket, and the buckets that become empty. */
    method FilterBuckets(id: Id)
      requires ShelfOk(Contents()) && Exact(Contents(), buckets)
      modifies this`buckets
      ensures FilteredOutside(old(buckets), candidates.Keys - {id}, {}, buckets) && NoneEmpty(buckets)
    {
      MembersOfIndex(Contents(), buckets);
      ghost var before, all := buckets, candidates.Keys;
      var todo := buckets.Keys;
      while todo != {}
        invariant todo <= buckets.Keys && NoneEmpty(buckets)
        invariant FilteredOutside(before, all - {id}, todo, buckets)
        decreases todo
      {
        var intent :| intent in todo;
        assert Get(buckets, intent) == Get(before, intent);
        var kept := Without(buckets[intent], id);
        WithoutIsFilter(buckets[intent], id, all);
        FilteredOneMore(before, all - {id}, todo, buckets, intent, kept);
        todo := todo - {intent};
        buckets := if kept != [] then buckets[intent := kept] else buckets - {intent};
      }
    }

    method Discard(id: Id, reason: string, record: bool)
      requires Valid()
      modifies this
      ensures Valid() && Contents() == Less(old(Contents()), {id}) && observations == old(observations) - {id}
      ensures removals == old(removals) +
              if id in old(candidates) && record then [Recorded(id, reason)] else []
    {
      var existed := id in candidates;
      ghost var before, index := Contents(), buckets;
      FilterBuckets(id);
      candidates, intents, observations := candidates - {id}, intents - {id}, observations - {id};
      RestrictWithoutOne(before, id);
      DiscardKeepsExact(before, index, before.candidates.Keys - {id}, buckets);
      if existed && record {
        RecordRemoval(id, reason);
      }
    }

    /** Gathers every candidate under each of its intents, then sorts every bucket. */
    method RebuildIntentBuckets()
      requires ShelfOk(Contents())
      modifies this`buckets
      ensures Exact(Contents(), buckets)
    {
      var gathered: map<string, seq<Id>> := map[];
      var todo := candidates.Keys;
      while todo != {}
        invariant todo <= candidates.Keys && buckets == old(buckets)
        invariant FiledOutside(Contents(), gathered, todo) && NoneEmpty(gathered)
        decreases todo
      {
        var id :| id in todo;
        var filed := FileUnder(gathered, id, intents[id]);
        FiledOneMore(Contents(), gathered, todo, id, filed);
        gathered, todo := filed, todo - {id};
      }
      buckets := SortBuckets(Shelf(candidates, intents), gathered);
    }

    /** The lane is what it was, less the ids of `removed`, each recorded with its own reason. */
    ghost predicate Pruned(before: Shelf, pass: Pass, history: seq<Removal>, removed: seq<Id>)
      reads this
    {
      && Contents() == Less(before, Among(removed)) && observations == pass.observations - Among(removed)
      && removals == history + PruneRecords(pass, removed)
    }

    method DiscardStale(id: Id, ghost before: Shelf, pass: Pass, ghost history: seq<Removal>, ghost removed: seq<Id>)
      requires Valid() && Pruned(before, pass, history, removed) && id in before.candidates && id !in Among(removed)
      modifies this
      ensures Valid() && Pruned(before, pass, history, removed + [id])
    {
      LessTwice(before, Among(removed), {id});
      MinusTwice(pass.observations, Among(removed), {id});
      PruneOneMore(pass, removed, id);
      Discard(id, ReasonFor(pass, id), true);
    }

    /** Removes exactly the terminal, non-frontier and stale candidates, each once and with its own reason. */
    method Prune(round: Option<int>) returns (removed: seq<Id>)
      requires Valid()
      modifies this
      ensures Valid() && Pruned(old(Contents()), old(Observed(round)), old(removals), removed)
      ensures Among(removed) == Stale(old(Observed(round))) && Distinct(removed)
    {
      ghost var before, history := Contents(), removals;
      RebuildIntentBuckets();
      removed := [];
      var pass, todo := Observed(round), candidates.Keys;
      LessNothing(before);
      while todo != {}
        invariant Valid() && todo <= pass.candidates.Keys
        invariant Pruned(before, pass, history, removed)
        invariant Among(removed) == Stale(pass) - todo && Distinct(removed)
        decreases todo
      {
        var id :| id in todo;
        StaleOneMore(pass, todo, id, removed);
        todo := todo - {id};
        if ReasonFor(pass, id) != "" {
          DiscardStale(id, before, pass, history, removed);
          removed := removed + [id];
        }
      }
    }

    /** The lane is what it was, less `gone`, each of whose ids has its "intent_quota" record. */
    ghost predicate Trimmed(before: Shelf, seen: map<Id, Observation>, history: seq<Removal>, gone: set<Id>)
      reads this
    {
      Contents() == Less(before, gone) && observations == seen - gone && QuotaRecords(history, removals, gone)
    }

    method DiscardForQuota(id: Id, ghost before: Shelf, ghost seen: map<Id, Observation>, ghost history: seq<Removal>,
                           ghost gone: set<Id>)
      requires Valid() && Trimmed(before, seen, history, gone) && id in before.candidates && id !in gone
      modifies this
      ensures Valid() && Trimmed(before, seen, history, gone + {id})
    {
      LessTwice(before, gone, {id});
      MinusTwice(seen, gone, {id});
      QuotaOneMore(history, removals, gone, id);
      Discard(id, "intent_quota", true);
    }

    /** The discarding half of quota enforcement. */
    method DiscardOthers(keep: set<Id>)
      requires Valid() && keep <= candidates.Keys
      modifies this
      ensures Valid()
      ensures Trimmed(old(Contents()), old(observations), old(removals), old(candidates).Keys - keep)
    {
      ghost var before, history, seen := Contents(), removals, observations;
      var others := candidates.Keys - keep;
      var todo := others;
      LessNothing(before);
      while todo != {}
        invariant Valid() && todo <= others
        invariant Trimmed(before, seen, history, others - todo)
        decreases todo
      {
        var id :| id in todo;
        DiscardForQuota(id, before, seen, history, others - todo);
        OneLessToDo(others, todo, id);
        todo := todo - {id};
      }
      assert others - todo == others;
    }

    /** Discards whatever is in the top of none of its buckets. */
    method EnforceIntentQuotas()
      requires Valid()
      modifies this
      ensures Valid() && Enforced(old(Contents()), old(buckets), quota, Contents(), buckets)
      ensures RemovedAreOutranked(old(Contents()), Contents(), quota)
      ensures Trimmed(old(Contents()), old(observations), old(removals), old(candidates).Keys - candidates.Keys)
    {
      ghost var before, index := Contents(), buckets;
      var keep := TopIds(buckets, quota);
      KeptAreStored(before, index, quota, keep);
      DiscardOthers(keep);
      KeptIsRestricted(before, keep);
      RebuildIntentBuckets();
      EveryRemovedIsOutranked(before, index, quota, Contents(), buckets);
    }

    method Store(c: Candidate, round: int)
      requires Valid() && c.latent.intents != []
      modifies this`candidates, this`intents, this`observations, this`buckets
      ensures Valid()
      ensures Contents() == Shelf(old(candidates)[c.id := c], old(intents)[c.id := c.latent.intents])
      ensures observations == old(observations)[c.id := Refreshed(old(observations), c.id, round)]
    {
      var previous := if c.id in observations then observations[c.id].added else None;
      var added := if previous.Some? then previous else Some(round);
      candidates, intents, observations :=
        candidates[c.id := c], intents[c.id := c.latent.intents],
        observations[c.id := Observation(added, Some(round))];
      RebuildIntentBuckets();
    }

    /**
     Prunes, stores the candidate under its intents, and enforces the quotas.
     `filed` and `ranked` are the shelf and its index just before enforcement.
     */
    method Add(c: Candidate) returns (ghost filed: Shelf, ghost ranked: map<string, seq<Id>>)
      requires Valid() && c.latent.intents != []
      modifies this
      ensures Valid()
      ensures var kept := Less(old(Contents()), Stale(old(Observed(Some(ArchiveRound(c))))));
              filed == Shelf(kept.candidates[c.id := c], kept.intents[c.id := c.latent.intents])
      ensures Enforced(filed, ranked, quota, Contents(), buckets) && RemovedAreOutranked(filed, Contents(), quota)
      ensures candidates.Keys <= old(candidates).Keys + {c.id}
      ensures forall id :: id in candidates <==> IsKept(buckets, quota, id)
      ensures |candidates| <= quota * |buckets|
      ensures ObservedSince(old(Observed(Some(ArchiveRound(c)))), c.id, observations)
    {
      var round := ArchiveRound(c);
      ghost var pass := Observed(Some(round));
      var pruned := Prune(Some(round));
      Store(c, round);
      filed, ranked := Contents(), buckets;
      EnforceIntentQuotas();
      ObservationsAfter(pass, pruned, c.id, round, filed.candidates.Keys - candidates.Keys, observations);
      EnforcementIsFixpoint(filed, ranked, quota, Contents(), buckets);
      KeptIsBounded(buckets, quota, candidates.Keys);
    }

    function Observed(round: Option<int>): Pass
      reads this
    {
      Pass(candidates, observations, round, staleAfter)
    }
  }

  /** The log grew by one "intent_quota" record per id of `gone`. */
  ghost predicate QuotaRecords(before: seq<Removal>, after: seq<Removal>, gone: set<Id>) {
    && before <= after && |after| == |before| + |gone|
    && (forall k :: |before| <= k < |after| ==> after[k].reason == "intent_quota" && after[k].id in gone)
  }

  lemma QuotaOneMore(before: seq<Removal>, after: seq<Removal>, gone: set<Id>, id: Id)
    requires QuotaRecords(before, after, gone) && id !in gone
    ensures QuotaRecords(before, after + [Recorded(id, "intent_quota")], gone + {id})
  {
  }

  /** `_latent_archive_round`: the round recorded with the candidate, or its generation. */
  function ArchiveRound(c: Candidate): int {
    if c.latent.round.Some? then c.latent.round.value else c.latent.generation
  }

  lemma KeptIsBounded(buckets: map<string, seq<Id>>, quota: nat, ids: set<Id>)
    requires forall id :: id in ids ==> IsKept(buckets, quota, id)
    ensures |ids| <= quota * |buckets|
  {
    forall id | id in ids ensures exists intent :: intent in buckets.Keys && InTopOf(buckets, quota, intent, id) {
      var intent :| intent in buckets && id in Top(buckets[intent], quota);
      assert InTopOf(buckets, quota, intent, id);
    }
    SizeIsBounded(buckets, quota, buckets.Keys, ids);
    assert |buckets| == |buckets.Keys|;
  }

  /** The union of the tops of all buckets. */
  method TopIds(buckets: map<string, seq<Id>>, quota: nat) returns (keep: set<Id>)
    ensures forall id :: id in keep <==> IsKept(buckets, quota, id)
  {
    keep := {};
    var todo := buckets.Keys;
    while todo != {}
      invariant todo <= buckets.Keys
      invariant forall intent, id :: intent in buckets && intent !in todo && id in Top(buckets[intent], quota) ==>
                  id in keep
      invariant forall id :: id in keep ==> IsKept(buckets, quota, id)
      decreases todo
    {
      var intent :| intent in todo;
      keep := keep + set id | id in Top(buckets[intent], quota);
      todo := todo - {intent};
    }
  }

  lemma KeptAreStored(s: Shelf, buckets: map<string, seq<Id>>, quota: nat, keep: set<Id>)
    requires ShelfOk(s) && Exact(s, buckets) && forall id :: id in keep ==> IsKept(buckets, quota, id)
    ensures keep <= s.candidates.Keys
  {
    forall id | id in keep ensures id in s.candidates {
      var intent :| intent in buckets && id in Top(buckets[intent], quota);
      assert IsBucket(s, intent, Get(buckets, intent));
      var k :| 0 <= k < |Top(buckets[intent], quota)| && Top(buckets[intent], quota)[k] == id;
      assert buckets[intent][k] == id;
    }
  }

  lemma {:induction false} FilterIsLongIff(ids: seq<Id>, keep: set<Id>, quota: nat)
    requires forall k :: 0 <= k < |ids| && k < quota ==> ids[k] in keep
    ensures |ids| <= quota ==> |Filter(ids, keep)| == |ids|
    ensures |ids| >= quota ==> |Filter(ids, keep)| >= quota
    ensures |Filter(ids, keep)| > quota <==> exists k :: quota <= k < |ids| && ids[k] in keep
  {
    if ids != [] {
      var n := |ids| - 1;
      FilterIsLongIff(ids[..n], keep, quota);
      if k :| quota <= k < n && ids[..n][k] in keep {
        assert ids[k] in keep;
      }
      if k :| quota <= k < |ids| && ids[k] in keep {
        if k < n { assert ids[..n][k] in keep; }
      }
    }
  }

  /** A bucket stays over the quota exactly when one of its runners-up is in the top of some bucket. */
  lemma BucketExceedsQuotaIff(s: Shelf, buckets: map<string, seq<Id>>, quota: nat, after: Shelf,
                              afterBuckets: map<string, seq<Id>>, intent: string)
    requires Enforced(s, buckets, quota, after, afterBuckets) && intent in buckets
    ensures |Get(afterBuckets, intent)| > quota <==>
            exists k :: quota <= k < |buckets[intent]| && IsKept(buckets, quota, buckets[intent][k])
  {
    var keep, ids := after.candidates.Keys, buckets[intent];
    assert IsBucket(after, intent, Get(afterBuckets, intent));
    FilteredIndex(s, buckets, keep, intent, Get(afterBuckets, intent));
    forall k | 0 <= k < |ids| && k < quota ensures ids[k] in keep {
      assert Top(ids, quota)[k] == ids[k];
      assert IsKept(buckets, quota, ids[k]);
    }
    FilterIsLongIff(ids, keep, quota);
    if k :| quota <= k < |ids| && ids[k] in keep {
      assert IsKept(buckets, quota, ids[k]);
    }
  }

  /** The quota bounds what is kept, not the buckets: a runner-up of "a" stays when it leads "b". */
  lemma BucketsMayExceedQuota(x: Candidate, y: Candidate)
    requires x.id != y.id && KeyLeq(KeyOf(y, "a"), KeyOf(x, "a"))
    ensures var s := Shelf(map[x.id := x, y.id := y], map[x.id := ["a"], y.id := ["a", "b"]]);
            var buckets := map["a" := [x.id, y.id], "b" := [y.id]];
            Enforced(s, buckets, 1, s, buckets) && |buckets["a"]| == 2
  {
    var s := Shelf(map[x.id := x, y.id := y], map[x.id := ["a"], y.id := ["a", "b"]]);
    var buckets := map["a" := [x.id, y.id], "b" := [y.id]];
    assert "a"[0] != "b"[0];
    assert Get(buckets, "a") == [x.id, y.id] && Get(buckets, "b") == [y.id];
    forall intent ensures IsBucket(s, intent, Get(buckets, intent)) {
      TwoOnAShelf(x, y, s, intent);
    }
    assert Top(buckets["a"], 1) == [x.id] && Top(buckets["b"], 1) == [y.id];
    assert x.id in Top(buckets["a"], 1) && y.id in Top(buckets["b"], 1);
    assert s.candidates.Keys == {x.id, y.id};
    RestrictIsLess(s, {});
    LessNothing(s);
    assert s.candidates.Keys - {} == s.candidates.Keys;
  }

  lemma TwoOnAShelf(x: Candidate, y: Candidate, s: Shelf, intent: string)
    requires x.id != y.id && KeyLeq(KeyOf(y, "a"), KeyOf(x, "a"))
    requires s == Shelf(map[x.id := x, y.id := y], map[x.id := ["a"], y.id := ["a", "b"]])
    ensures ShelfOk(s)
    ensures IsBucket(s, intent, if intent == "a" then [x.id, y.id] else if intent == "b" then [y.id] else [])
  {
    assert "a"[0] != "b"[0];
    if intent == "a" {
      ListedIsBucket(x, y, s, intent, [x.id, y.id]);
    } else if intent == "b" {
      ListedIsBucket(x, y, s, intent, [y.id]);
    } else {
      ListedIsBucket(x, y, s, intent, []);
    }
  }

  lemma ListedIsBucket(x: Candidate, y: Candidate, s: Shelf, intent: string, ids: seq<Id>)
    requires x.id != y.id && s == Shelf(map[x.id := x, y.id := y], map[x.id := ["a"], y.id := ["a", "b"]])
    requires SortedFor(s, intent, ids)
    requires forall id :: Times(ids, id) ==
               (if id == x.id && intent == "a" then 1 else if id == y.id && (intent == "a" || intent == "b") then 1
                   else 0)
    ensures ShelfOk(s) && IsBucket(s, intent, ids)
  {
    forall id ensures Times(ids, id) == Listed(s, intent, id) {
      TwoListed(x, y, s, intent, id);
    }
  }

  lemma TwoListed(x: Candidate, y: Candidate, s: Shelf, intent: string, id: Id)
    requires x.id != y.id && s == Shelf(map[x.id := x, y.id := y], map[x.id := ["a"], y.id := ["a", "b"]])
    ensures Listed(s, intent, id) ==
            (if id == x.id && intent == "a" then 1 else if id == y.id && (intent == "a" || intent == "b") then 1 else 0)
  {
    assert "a"[0] != "b"[0];
    assert multiset(["a"]) == multiset{"a"} && multiset(["a", "b"]) == multiset{"a", "b"};
  }

  /** What one pruning pass looks at. */
  datatype Pass = Pass(
    candidates: map<Id, Candidate>, observations: map<Id, Observation>, round: Option<int>, staleAfter: int)

  function ReasonFor(p: Pass, id: Id): string {
    if id !in p.candidates then ""
    else
      var lastSeen := if id in p.observations then p.observations[id].lastSeen else None;
      PruneReason(p.candidates[id], lastSeen, p.round, p.staleAfter)
  }

  /** What a pass removes, and the reason it gives. */
  lemma StaleIff(p: Pass, id: Id)
    requires id in p.candidates && id in p.observations
    ensures var c, seen := p.candidates[id], p.observations[id].lastSeen;
            var old_ := p.round.Some? && seen.Some? && seen.value + p.staleAfter < p.round.value;
            && (id in Stale(p) <==> c.fate in {Culled, Failed} || !c.latent.frontier || old_)
            && (ReasonFor(p, id) == "terminal_fate" <==> c.fate in {Culled, Failed})
            && (ReasonFor(p, id) == "stale_not_frontier" <==> c.fate !in {Culled, Failed} && !c.latent.frontier)
            && (ReasonFor(p, id) == "stale_age" <==> c.fate !in {Culled, Failed} && c.latent.frontier && old_)
  {
    assert |"terminal_fate"| == 13 && |"stale_not_frontier"| == 18 && |"stale_age"| == 9;
  }

  /** The round in which `id` came in, unless this pass removes it or it never was there: then the current one. */
  function FirstRound(p: Pass, id: Id): Option<int> {
    if id in p.candidates && id in p.observations && ReasonFor(p, id) == "" && p.observations[id].added.Some?
    then p.observations[id].added
    else p.round
  }

  /** The added candidate carries its first and the current round; the other entries are what they were. */
  ghost predicate ObservedSince(p: Pass, id: Id, after: map<Id, Observation>) {
    && after.Keys <= p.observations.Keys + {id}
    && (id in after ==> after[id] == Observation(FirstRound(p, id), p.round))
    && (forall x :: x in after && x != id ==> after[x] == p.observations[x])
  }

  lemma ObservationsAfter(p: Pass, removed: seq<Id>, id: Id, round: int, gone: set<Id>, after: map<Id, Observation>)
    requires p.round == Some(round) && p.observations.Keys == p.candidates.Keys && Among(removed) == Stale(p)
    requires var pruned := p.observations - Among(removed);
             after == pruned[id := Refreshed(pruned, id, round)] - gone
    ensures ObservedSince(p, id, after)
  {
  }

  function Stale(p: Pass): set<Id> {
    set id | id in p.candidates && ReasonFor(p, id) != ""
  }

  /** The removal records of pruned ids, each with its own reason. */
  function PruneRecords(p: Pass, ids: seq<Id>): seq<Removal> {
    if ids == [] then []
    else PruneRecords(p, ids[..|ids| - 1]) + [Recorded(ids[|ids| - 1], ReasonFor(p, ids[|ids| - 1]))]
  }

  function Among(ids: seq<Id>): set<Id> {
    set id | id in ids
  }

  lemma PruneOneMore(p: Pass, ids: seq<Id>, id: Id)
    ensures PruneRecords(p, ids + [id]) == PruneRecords(p, ids) + [Recorded(id, ReasonFor(p, id))]
    ensures Among(ids + [id]) == Among(ids) + {id}
  {
    assert (ids + [id])[..|ids|] == ids;
  }

  lemma StaleOneMore(p: Pass, todo: set<Id>, id: Id, removed: seq<Id>)
    requires id in todo && todo <= p.candidates.Keys && Among(removed) == Stale(p) - todo && Distinct(removed)
    ensures if ReasonFor(p, id) == "" then Among(removed) == Stale(p) - (todo - {id})
            else id !in Among(removed) && Among(removed + [id]) == Stale(p) - (todo - {id}) && Distinct(removed + [id])
  {
    PruneOneMore(p, removed, id);
  }

  function Without(ids: seq<Id>, drop: Id): seq<Id> {
    if ids == [] then []
    else Without(ids[..|ids| - 1], drop) + if ids[|ids| - 1] != drop then [ids[|ids| - 1]] else []
  }

  lemma {:induction false} WithoutIsFilter(ids: seq<Id>, drop: Id, all: set<Id>)
    requires forall k :: 0 <= k < |ids| ==> ids[k] in all
    ensures Without(ids, drop) == Filter(ids, all - {drop})
  {
    if ids != [] {
      WithoutIsFilter(ids[..|ids| - 1], drop, all);
    }
  }

  ghost predicate Files(before: map<string, seq<Id>>, id: Id, its: seq<string>, after: map<string, seq<Id>>) {
    forall intent, x :: Times(Get(after, intent), x) ==
                        Times(Get(before, intent), x) + if x == id then Times(its, intent) else 0
  }

  /** Every id outside `todo` is filed under each of its intents; no other id is filed. */
  ghost predicate FiledOutside(s: Shelf, buckets: map<string, seq<Id>>, todo: set<Id>) {
    forall intent, id :: Times(Get(buckets, intent), id) == if id in todo then 0 else Listed(s, intent, id)
  }

  lemma FiledOneMore(s: Shelf, before: map<string, seq<Id>>, todo: set<Id>, id: Id, after: map<string, seq<Id>>)
    requires id in todo && id in s.candidates && id in s.intents
    requires FiledOutside(s, before, todo) && Files(before, id, s.intents[id], after)
    ensures FiledOutside(s, after, todo - {id})
  {
    forall intent, x ensures Times(Get(after, intent), x) == if x in todo - {id} then 0 else Listed(s, intent, x) {
      assert Times(Get(before, intent), x) == if x in todo then 0 else Listed(s, intent, x);
    }
  }

  function File(buckets: map<string, seq<Id>>, intent: string, id: Id): map<string, seq<Id>> {
    buckets[intent := Get(buckets, intent) + [id]]
  }

  lemma FilesNothing(buckets: map<string, seq<Id>>, id: Id, its: seq<string>)
    requires its == []
    ensures Files(buckets, id, its, buckets)
  {
    assert forall intent :: Times(its, intent) == 0;
  }

  lemma FilesOneMore(start: map<string, seq<Id>>, before: map<string, seq<Id>>, id: Id, its: seq<string>,
                     intent: string)
    requires Files(start, id, its, before)
    ensures Files(start, id, its + [intent], File(before, intent, id))
    ensures NoneEmpty(before) ==> NoneEmpty(File(before, intent, id))
  {
    var after := File(before, intent, id);
    forall i, x
      ensures Times(Get(after, i), x) == Times(Get(start, i), x) + if x == id then Times(its + [intent], i) else 0
    {
      assert Times(Get(before, i), x) == Times(Get(start, i), x) + if x == id then Times(its, i) else 0;
    }
  }

  /** Appends a candidate to the bucket of each of its intents, once per listing. */
  method FileUnder(gathered: map<string, seq<Id>>, id: Id, its: seq<string>) returns (filed: map<string, seq<Id>>)
    requires NoneEmpty(gathered)
    ensures Files(gathered, id, its, filed) && NoneEmpty(filed)
  {
    filed := gathered;
    FilesNothing(gathered, id, its[..0]);
    for k := 0 to |its|
      invariant Files(gathered, id, its[..k], filed) && NoneEmpty(filed)
    {
      FilesOneMore(gathered, filed, id, its[..k], its[k]);
      assert its[..k + 1] == its[..k] + [its[k]];
      filed := File(filed, its[k], id);
    }
    assert its[..|its|] == its;
  }

  /** Sorts every bucket, best first. */
  method SortBuckets(s: Shelf, gathered: map<string, seq<Id>>) returns (sorted: map<string, seq<Id>>)
    requires ShelfOk(s) && FiledOutside(s, gathered, {}) && NoneEmpty(gathered)
    ensures Exact(s, sorted)
  {
    sorted := gathered;
    var todo := gathered.Keys;
    while todo != {}
      invariant todo <= sorted.Keys && NoneEmpty(sorted)
      invariant forall intent :: intent in todo ==> Get(sorted, intent) == Get(gathered, intent)
      invariant forall intent :: intent !in todo ==> IsBucket(s, intent, Get(sorted, intent))
      decreases todo
    {
      var intent :| intent in todo;
      MembersAreStored(s, gathered, intent);
      var ids := SortIds(s, intent, Get(gathered, intent));
      SortedIsBucket(s, gathered, intent, ids);
      sorted, todo := sorted[intent := ids], todo - {intent};
    }
  }

  lemma MembersAreStored(s: Shelf, gathered: map<string, seq<Id>>, intent: string)
    requires FiledOutside(s, gathered, {})
    ensures forall k :: 0 <= k < |Get(gathered, intent)| ==> Get(gathered, intent)[k] in s.candidates
  {
    var ids := Get(gathered, intent);
    forall k | 0 <= k < |ids| ensures ids[k] in s.candidates {
      assert Times(ids, ids[k]) == Listed(s, intent, ids[k]) && ids[k] in multiset(ids);
    }
  }

  lemma SortedIsBucket(s: Shelf, gathered: map<string, seq<Id>>, intent: string, ids: seq<Id>)
    requires ShelfOk(s) && FiledOutside(s, gathered, {}) && NoneEmpty(gathered) && intent in gathered
    requires SortedFor(s, intent, ids) && multiset(ids) == multiset(Get(gathered, intent))
    ensures IsBucket(s, intent, ids) && ids != []
  {
    SameTimesSameLength(ids, gathered[intent]);
    forall id ensures Times(ids, id) == Listed(s, intent, id) {
      assert Times(Get(gathered, intent), id) == Listed(s, intent, id);
    }
  }
}
