/**
 Live-population compaction (archives/quality_diversity.py): the best of every
 bin, then rare material, then a greedy fill up to a target.

 Scores are numbers; the entropy score of the fill stage is an arbitrary
 function.  An id is a number whose order stands for the order of the id text.
 Bins are visited in the order given, whichever it is.
 */
module Survivors {
  import opened Numbers
  import opened Counting

  datatype Candidate = Candidate(id: nat, bin: string, quality: real, search: real, rarity: real, hasSeeds: bool)

  // ---------------------------------------------------------------------------
  // Sorting best first
  // ---------------------------------------------------------------------------

  datatype SortKey = SortKey(first: real, second: real, id: nat)

  predicate AtLeast(a: SortKey, b: SortKey) {
    a.first > b.first ||
    (a.first == b.first && (a.second > b.second || (a.second == b.second && a.id >= b.id)))
  }

  function EliteKey(c: Candidate): SortKey {
    SortKey(c.quality, c.search, c.id)
  }

  function RareKey(c: Candidate): SortKey {
    SortKey(c.rarity, c.search, c.id)
  }

  /** In the scores themselves: quality, then search quality, then id. */
  ghost predicate NoWorse(a: Candidate, b: Candidate) {
    a.quality > b.quality || (a.quality == b.quality && (a.search > b.search || (a.search == b.search && a.id >= b.id)))
  }

  function Insert(c: Candidate, cs: seq<Candidate>, key: Candidate -> SortKey): seq<Candidate> {
    if cs == [] || AtLeast(key(cs[|cs| - 1]), key(c)) then cs + [c]
    else Insert(c, cs[..|cs| - 1], key) + [cs[|cs| - 1]]
  }

  /** The built-in sort, largest key first. */
  function BestFirst(cs: seq<Candidate>, key: Candidate -> SortKey): seq<Candidate> {
    if cs == [] then [] else Insert(cs[|cs| - 1], BestFirst(cs[..|cs| - 1], key), key)
  }

  lemma {:induction false} InsertKeeps(c: Candidate, cs: seq<Candidate>, key: Candidate -> SortKey)
    ensures multiset(Insert(c, cs, key)) == multiset(cs) + multiset{c}
    ensures |Insert(c, cs, key)| == |cs| + 1
    decreases |cs|
  {
    if cs != [] && !AtLeast(key(cs[|cs| - 1]), key(c)) {
      InsertKeeps(c, cs[..|cs| - 1], key);
      assert cs == cs[..|cs| - 1] + [cs[|cs| - 1]];
    }
  }

  lemma {:induction false} BestFirstKeeps(cs: seq<Candidate>, key: Candidate -> SortKey)
    ensures multiset(BestFirst(cs, key)) == multiset(cs) && |BestFirst(cs, key)| == |cs|
  {
    if cs != [] {
      BestFirstKeeps(cs[..|cs| - 1], key);
      InsertKeeps(cs[|cs| - 1], BestFirst(cs[..|cs| - 1], key), key);
      assert cs == cs[..|cs| - 1] + [cs[|cs| - 1]];
    }
  }

  lemma {:induction false} HeadAfterInsert(c: Candidate, cs: seq<Candidate>, key: Candidate -> SortKey)
    requires forall d :: d in cs ==> AtLeast(key(cs[0]), key(d))
    ensures var r := Insert(c, cs, key);
            r != [] && AtLeast(key(r[0]), key(c)) && forall d :: d in cs ==> AtLeast(key(r[0]), key(d))
    decreases |cs|
  {
    if cs != [] && !AtLeast(key(cs[|cs| - 1]), key(c)) {
      var front, last := cs[..|cs| - 1], cs[|cs| - 1];
      assert forall d :: d in front ==> d in cs;
      assert front != [] ==> front[0] == cs[0];
      HeadAfterInsert(c, front, key);
      assert last in cs && forall d :: d in cs ==> d in front || d == last;
    } else if cs != [] {
      assert cs[|cs| - 1] in cs;
    }
  }

  /** The head of the sorted list is at least as good as every element. */
  lemma {:induction false} HeadIsBest(cs: seq<Candidate>, key: Candidate -> SortKey)
    requires cs != []
    ensures var r := BestFirst(cs, key); r != [] && r[0] in cs && forall d :: d in cs ==> AtLeast(key(r[0]), key(d))
  {
    var front, last := cs[..|cs| - 1], cs[|cs| - 1];
    var s := BestFirst(front, key);
    BestFirstKeeps(front, key);
    if front != [] {
      HeadIsBest(front, key);
    }
    assert forall d :: d in s <==> d in front by {
      assert forall d :: d in s <==> d in multiset(s);
      assert forall d :: d in front <==> d in multiset(front);
    }
    HeadAfterInsert(last, s, key);
    BestFirstKeeps(cs, key);
    var r := BestFirst(cs, key);
    assert r[0] in multiset(r) && r[0] in multiset(cs);
    assert forall d :: d in cs ==> d in front || d == last;
  }

  lemma AtLeastOrder(a: SortKey, b: SortKey, c: SortKey)
    ensures AtLeast(a, b) || AtLeast(b, a)
    ensures AtLeast(a, b) && AtLeast(b, c) ==> AtLeast(a, c)
  {
  }

  ghost predicate SortedBy(cs: seq<Candidate>, key: Candidate -> SortKey) {
    forall i, j :: 0 <= i < j < |cs| ==> AtLeast(key(cs[i]), key(cs[j]))
  }

  lemma {:induction false} InsertSorts(c: Candidate, cs: seq<Candidate>, key: Candidate -> SortKey)
    requires SortedBy(cs, key)
    ensures SortedBy(Insert(c, cs, key), key)
    decreases |cs|
  {
    if cs != [] && !AtLeast(key(cs[|cs| - 1]), key(c)) {
      var front, last := cs[..|cs| - 1], cs[|cs| - 1];
      InsertSorts(c, front, key);
      InsertKeeps(c, front, key);
      forall d | d in Insert(c, front, key) ensures AtLeast(key(d), key(last)) {
        assert d in multiset(Insert(c, front, key));
        AtLeastOrder(key(c), key(last), key(last));
        if d in front {
          var i :| 0 <= i < |front| && front[i] == d;
          assert cs[i] == d;
        }
      }
    } else {
      forall i | 0 <= i < |cs| ensures AtLeast(key(cs[i]), key(c)) {
        AtLeastOrder(key(cs[i]), key(cs[|cs| - 1]), key(c));
      }
    }
  }

  lemma {:induction false} BestFirstSorts(cs: seq<Candidate>, key: Candidate -> SortKey)
    ensures SortedBy(BestFirst(cs, key), key)
  {
    if cs != [] {
      BestFirstSorts(cs[..|cs| - 1], key);
      InsertSorts(cs[|cs| - 1], BestFirst(cs[..|cs| - 1], key), key);
    }
  }

  /** Whoever is not among the first `n` has `n` others before it. */
  lemma CutIsBest(cs: seq<Candidate>, key: Candidate -> SortKey, n: nat, c: Candidate)
    requires c in cs && c !in Cut(BestFirst(cs, key), n)
    ensures |Cut(BestFirst(cs, key), n)| == n
    ensures forall d :: d in Cut(BestFirst(cs, key), n) ==> AtLeast(key(d), key(c))
  {
    var sorted := BestFirst(cs, key);
    BestFirstKeeps(cs, key);
    BestFirstSorts(cs, key);
    assert c in multiset(cs) && c in multiset(sorted);
    var k :| 0 <= k < |sorted| && sorted[k] == c;
    assert k >= n;
    forall d | d in Cut(sorted, n) ensures AtLeast(key(d), key(c)) {
      var i :| 0 <= i < n && sorted[i] == d;
    }
  }

  // ---------------------------------------------------------------------------
  // Bins
  // ---------------------------------------------------------------------------

  function Bin(cs: seq<Candidate>, key: string): seq<Candidate> {
    if cs == [] then []
    else Bin(cs[..|cs| - 1], key) + if cs[|cs| - 1].bin == key then [cs[|cs| - 1]] else []
  }

  lemma {:induction false} BinMembers(cs: seq<Candidate>, key: string)
    ensures forall c :: c in Bin(cs, key) <==> c in cs && c.bin == key
  {
    if cs != [] {
      BinMembers(cs[..|cs| - 1], key);
      assert forall c :: c in cs <==> c in cs[..|cs| - 1] || c == cs[|cs| - 1];
    }
  }

  ghost predicate DistinctIds(cs: seq<Candidate>) {
    forall i, j :: 0 <= i < j < |cs| ==> cs[i].id != cs[j].id
  }

  lemma {:induction false} BinIsDistinct(cs: seq<Candidate>, key: string)
    requires DistinctIds(cs)
    ensures DistinctIds(Bin(cs, key))
  {
    if cs != [] {
      var front, last := cs[..|cs| - 1], cs[|cs| - 1];
      BinIsDistinct(front, key);
      BinMembers(front, key);
      assert forall c :: c in front ==> c.id != last.id;
      assert forall i :: 0 <= i < |Bin(front, key)| ==> Bin(front, key)[i] in front;
    }
  }

  function Ids(cs: seq<Candidate>): set<nat> {
    set c | c in cs :: c.id
  }

  lemma IdsAppend(cs: seq<Candidate>, c: Candidate)
    ensures Ids(cs + [c]) == Ids(cs) + {c.id}
  {
    assert c in cs + [c] && forall d :: d in cs + [c] <==> d in cs || d == c;
  }

  lemma LastIsNew(cs: seq<Candidate>)
    requires DistinctIds(cs) && cs != []
    ensures cs[|cs| - 1].id !in Ids(cs[..|cs| - 1])
  {
  }

  lemma {:induction false} DistinctIdsCount(cs: seq<Candidate>)
    requires DistinctIds(cs)
    ensures |Ids(cs)| == |cs|
  {
    if cs != [] {
      var front, last := cs[..|cs| - 1], cs[|cs| - 1];
      DistinctIdsCount(front);
      CountedOnce(front, last);
      assert cs == front + [last];
    }
  }

  lemma CountedOnce(front: seq<Candidate>, last: Candidate)
    requires DistinctIds(front + [last]) && |Ids(front)| == |front|
    ensures |Ids(front + [last])| == |front| + 1
  {
    IdsAppend(front, last);
    assert (front + [last])[..|front|] == front;
    LastIsNew(front + [last]);
  }

  lemma {:induction false} SameIdSameCandidate(cs: seq<Candidate>, c: Candidate, d: Candidate)
    requires DistinctIds(cs) && c in cs && d in cs && c.id == d.id
    ensures c == d
  {
    var i :| 0 <= i < |cs| && cs[i] == c;
    var j :| 0 <= j < |cs| && cs[j] == d;
    assert !(i < j) && !(j < i);
  }

  // ---------------------------------------------------------------------------
  // Selections: a growing list of chosen candidates
  // ---------------------------------------------------------------------------

  /** `chosen` holds candidates of the population, none twice. */
  ghost predicate Selection(cs: seq<Candidate>, chosen: seq<Candidate>, ids: set<nat>) {
    ids == Ids(chosen) && DistinctIds(chosen) && forall c :: c in chosen ==> c in cs
  }

  lemma SelectionGrows(cs: seq<Candidate>, chosen: seq<Candidate>, ids: set<nat>, c: Candidate)
    requires Selection(cs, chosen, ids) && c in cs && c.id !in ids
    ensures Selection(cs, chosen + [c], ids + {c.id})
  {
    IdsAppend(chosen, c);
    assert forall i :: 0 <= i < |chosen| ==> chosen[i].id in ids;
  }

  ghost function EliteShare(cs: seq<Candidate>, reserve: nat): string -> int {
    key => Min(reserve, |Bin(cs, key)|)
  }

  /** `order` lists every bin of the population once. */
  ghost predicate Enumerates(order: seq<string>, cs: seq<Candidate>) {
    Distinct(order) && forall key :: key in order <==> Bin(cs, key) != []
  }

  function Cut(cs: seq<Candidate>, n: int): seq<Candidate> {
    if n <= 0 then [] else if |cs| <= n then cs else cs[..n]
  }

  /** The first `reserve` of every bin, best first, bin by bin. */
  function ElitesOf(cs: seq<Candidate>, order: seq<string>, reserve: nat): seq<Candidate> {
    if order == [] then []
    else ElitesOf(cs, order[..|order| - 1], reserve) + ElitesIn(cs, order[|order| - 1], reserve)
  }

  function ElitesIn(cs: seq<Candidate>, key: string, reserve: nat): seq<Candidate> {
    Cut(BestFirst(Bin(cs, key), EliteKey), reserve)
  }

  /** Takes up to `reserve` of the best of one bin. */
  method TakeElites(cs: seq<Candidate>, key: string, reserve: nat, chosen: seq<Candidate>, ids: set<nat>)
    returns (chosen': seq<Candidate>, ids': set<nat>)
    requires DistinctIds(cs) && Selection(cs, chosen, ids) && forall c :: c in chosen ==> c.bin != key
    ensures Selection(cs, chosen', ids') && |chosen'| == |chosen| + Min(reserve, |Bin(cs, key)|)
    ensures chosen' == chosen + ElitesIn(cs, key, reserve)
    ensures forall c :: c in chosen' ==> c in chosen || c.bin == key
    ensures reserve > 0 && Bin(cs, key) != [] ==> BestOfBinIn(cs, key, chosen')
  {
    chosen', ids' := chosen, ids;
    var top := ElitesIn(cs, key, reserve);
    for k := 0 to |top|
      invariant chosen' == chosen + top[..k] && Selection(cs, chosen', ids')
    {
      TopFits(cs, key, chosen, ids', top, k);
      if top[k].id !in ids' {
        chosen', ids' := chosen' + [top[k]], ids' + {top[k].id};
      }
    }
    assert top[..|top|] == top;
    BestIsTaken(cs, key, reserve, chosen);
  }

  lemma BestIsTaken(cs: seq<Candidate>, key: string, reserve: nat, chosen: seq<Candidate>)
    ensures var taken := chosen + ElitesIn(cs, key, reserve);
            && |taken| == |chosen| + Min(reserve, |Bin(cs, key)|)
            && (forall c :: c in taken ==> c in chosen || c.bin == key)
            && (reserve > 0 && Bin(cs, key) != [] ==> BestOfBinIn(cs, key, taken))
  {
    BestFirstKeeps(Bin(cs, key), EliteKey);
    ElitesInBin(cs, key, reserve);
    if reserve > 0 && Bin(cs, key) != [] {
      assert (chosen + ElitesIn(cs, key, reserve))[|chosen|] == BestFirst(Bin(cs, key), EliteKey)[0];
    }
  }

  lemma ElitesInBin(cs: seq<Candidate>, key: string, reserve: nat)
    ensures forall c :: c in ElitesIn(cs, key, reserve) ==> c.bin == key
  {
    CutMembers(Bin(cs, key), EliteKey, reserve);
    BinMembers(cs, key);
  }

  lemma TopFits(cs: seq<Candidate>, key: string, chosen: seq<Candidate>, ids: set<nat>, top: seq<Candidate>, k: nat)
    requires DistinctIds(cs) && k < |top| && forall c :: c in chosen ==> c.bin != key
    requires top <= BestFirst(Bin(cs, key), EliteKey)
    requires Selection(cs, chosen + top[..k], ids)
    ensures top[k].id !in ids && chosen + top[..k] + [top[k]] == chosen + top[..k + 1]
    ensures Selection(cs, chosen + top[..k + 1], ids + {top[k].id})
  {
    assert forall c :: c in chosen ==> c in chosen + top[..k];
    TopIsFresh(cs, key, chosen, ids, top, k);
    SelectionGrows(cs, chosen + top[..k], ids, top[k]);
    assert chosen + top[..k] + [top[k]] == chosen + top[..k + 1];
  }

  /** The k-th best of a bin has not been chosen before it is its turn. */
  lemma TopIsFresh(cs: seq<Candidate>, key: string, chosen: seq<Candidate>, ids: set<nat>, top: seq<Candidate>, k: nat)
    requires DistinctIds(cs) && k < |top| && forall c :: c in chosen ==> c.bin != key && c in cs
    requires top <= BestFirst(Bin(cs, key), EliteKey)
    requires ids == Ids(chosen + top[..k])
    ensures top[k] in cs && top[k].bin == key && top[k].id !in ids
  {
    var sorted := BestFirst(Bin(cs, key), EliteKey);
    SortedBinMembers(cs, key);
    assert top[k] == sorted[k];
    forall d | d in chosen + top[..k] ensures d.id != top[k].id {
      if d in chosen {
        if d.id == top[k].id { SameIdSameCandidate(cs, d, top[k]); }
      } else {
        var i :| 0 <= i < k && top[i] == d;
        EarlierIsOther(cs, key, i, k);
      }
    }
  }

  lemma SortedBinMembers(cs: seq<Candidate>, key: string)
    ensures forall i :: 0 <= i < |BestFirst(Bin(cs, key), EliteKey)| ==>
              BestFirst(Bin(cs, key), EliteKey)[i] in cs && BestFirst(Bin(cs, key), EliteKey)[i].bin == key
  {
    var sorted := BestFirst(Bin(cs, key), EliteKey);
    BestFirstKeeps(Bin(cs, key), EliteKey);
    BinMembers(cs, key);
    forall i | 0 <= i < |sorted| ensures sorted[i] in cs && sorted[i].bin == key {
      assert sorted[i] in multiset(sorted) && sorted[i] in multiset(Bin(cs, key));
    }
  }

  lemma EarlierIsOther(cs: seq<Candidate>, key: string, i: nat, k: nat)
    requires DistinctIds(cs) && i < k < |BestFirst(Bin(cs, key), EliteKey)|
    ensures BestFirst(Bin(cs, key), EliteKey)[i].id != BestFirst(Bin(cs, key), EliteKey)[k].id
  {
    var sorted := BestFirst(Bin(cs, key), EliteKey);
    SortedBinMembers(cs, key);
    BestFirstKeeps(Bin(cs, key), EliteKey);
    BinIsDistinct(cs, key);
    NoRepeats(Bin(cs, key), sorted, i, k);
    if sorted[i].id == sorted[k].id {
      SameIdSameCandidate(cs, sorted[i], sorted[k]);
    }
  }

  lemma NoRepeats(a: seq<Candidate>, b: seq<Candidate>, i: nat, j: nat)
    requires DistinctIds(a) && multiset(a) == multiset(b) && i < j < |b|
    ensures b[i] != b[j]
  {
    if b[i] == b[j] {
      assert b == b[..i] + [b[i]] + b[i + 1..j] + [b[j]] + b[j + 1..];
      assert multiset(b)[b[i]] >= 2;
      AtMostOnce(a, b[i]);
    }
  }

  lemma {:induction false} AtMostOnce(a: seq<Candidate>, c: Candidate)
    requires DistinctIds(a)
    ensures multiset(a)[c] <= 1
  {
    if a != [] {
      var front, last := a[..|a| - 1], a[|a| - 1];
      AtMostOnce(front, c);
      assert a == front + [last];
      if c == last {
        assert forall i :: 0 <= i < |front| ==> front[i] != last;
        assert last !in front && last !in multiset(front);
      }
    }
  }

  /** Stage 1: the best of every bin, each bin contributing its reserve. */
  method ChooseElites(cs: seq<Candidate>, order: seq<string>, reserve: nat)
    returns (chosen: seq<Candidate>, ids: set<nat>)
    requires DistinctIds(cs) && Enumerates(order, cs)
    ensures Selection(cs, chosen, ids) && |chosen| == SumOver(order, EliteShare(cs, reserve))
    ensures chosen == ElitesOf(cs, order, reserve)
    ensures reserve > 0 ==> forall key :: key in order ==> BestOfBinIn(cs, key, chosen)
  {
    chosen, ids := [], {};
    for k := 0 to |order|
      invariant ElitesSoFar(cs, order, k, reserve, chosen, ids)
    {
      assert order[k] in order && order[k] !in order[..k];
      chosen, ids := TakeNextElites(cs, order, k, reserve, chosen, ids);
    }
    assert order[..|order|] == order;
  }

  /** After `k` bins: their reserves are chosen, and with them the best of each. */
  ghost predicate ElitesSoFar(cs: seq<Candidate>, order: seq<string>, k: nat, reserve: nat, chosen: seq<Candidate>,
                              ids: set<nat>)
    requires k <= |order|
  {
    && Selection(cs, chosen, ids) && |chosen| == SumOver(order[..k], EliteShare(cs, reserve))
    && chosen == ElitesOf(cs, order[..k], reserve) && FromBins(chosen, order[..k])
    && (reserve > 0 ==> forall m :: 0 <= m < k ==> BestOfBinIn(cs, order[m], chosen))
  }

  method TakeNextElites(cs: seq<Candidate>, order: seq<string>, k: nat, reserve: nat, chosen: seq<Candidate>,
                        ids: set<nat>)
    returns (chosen': seq<Candidate>, ids': set<nat>)
    requires DistinctIds(cs) && k < |order| && order[k] !in order[..k] && Bin(cs, order[k]) != []
    requires ElitesSoFar(cs, order, k, reserve, chosen, ids)
    ensures ElitesSoFar(cs, order, k + 1, reserve, chosen', ids')
  {
    assert order[..k + 1][..k] == order[..k];
    chosen', ids' := TakeElites(cs, order[k], reserve, chosen, ids);
    BestsStay(cs, order, k, chosen, chosen');
    FromOneMoreBin(order, k, chosen, chosen');
  }

  /** The best candidate of a bin is among the chosen. */
  ghost predicate BestOfBinIn(cs: seq<Candidate>, key: string, chosen: seq<Candidate>) {
    BestFirst(Bin(cs, key), EliteKey) != [] && BestFirst(Bin(cs, key), EliteKey)[0] in chosen
  }

  ghost predicate FromBins(chosen: seq<Candidate>, keys: seq<string>) {
    forall c :: c in chosen ==> c.bin in keys
  }

  lemma BestsStay(cs: seq<Candidate>, order: seq<string>, k: nat, before: seq<Candidate>, after: seq<Candidate>)
    requires k <= |order| && before <= after
    ensures forall m :: 0 <= m < k && BestOfBinIn(cs, order[m], before) ==> BestOfBinIn(cs, order[m], after)
  {
    assert forall c :: c in before ==> c in after;
  }

  lemma FromOneMoreBin(order: seq<string>, k: nat, before: seq<Candidate>, after: seq<Candidate>)
    requires k < |order| && FromBins(before, order[..k]) && forall c :: c in after ==> c in before || c.bin == order[k]
    ensures FromBins(after, order[..k + 1])
  {
    assert order[..k + 1] == order[..k] + [order[k]];
  }

  /** The first `reserve` unchosen rare candidates of every bin, rarest first, bin by bin. */
  function RareOf(cs: seq<Candidate>, order: seq<string>, reserve: nat, ids: set<nat>): seq<Candidate> {
    if order == [] then []
    else
      RareOf(cs, order[..|order| - 1], reserve, ids) + RareIn(cs, order[|order| - 1], reserve, ids)
  }

  function RareIn(cs: seq<Candidate>, key: string, reserve: nat, ids: set<nat>): seq<Candidate> {
    Cut(BestFirst(Unchosen(cs, key, ids), RareKey), reserve)
  }

  /** Takes up to `rareReserve` unchosen rare candidates of one bin while there is room. */
  method TakeRare(cs: seq<Candidate>, key: string, rareReserve: nat, target: nat, chosen: seq<Candidate>, ids: set<nat>)
    returns (chosen': seq<Candidate>, ids': set<nat>)
    requires DistinctIds(cs) && Selection(cs, chosen, ids) && |chosen| <= target
    ensures Selection(cs, chosen', ids') && |chosen'| <= target
    ensures chosen' == chosen + Cut(RareIn(cs, key, rareReserve, ids), target - |chosen|)
  {
    chosen', ids' := chosen, ids;
    var top := RareIn(cs, key, rareReserve, ids);
    for m := 0 to |top|
      invariant chosen' == chosen + top[..m] && Selection(cs, chosen', ids') && |chosen'| <= target
    {
      if |chosen'| >= target {
        break;
      }
      NextRareFits(cs, key, ids, chosen, ids', top, m);
      chosen', ids' := chosen' + [top[m]], ids' + {top[m].id};
    }
  }

  lemma NextRareFits(cs: seq<Candidate>, key: string, ids: set<nat>, chosen: seq<Candidate>, ids': set<nat>,
                     top: seq<Candidate>, m: nat)
    requires DistinctIds(cs) && m < |top| && top <= BestFirst(Unchosen(cs, key, ids), RareKey)
    requires ids == Ids(chosen) && Selection(cs, chosen + top[..m], ids')
    ensures chosen + top[..m] + [top[m]] == chosen + top[..m + 1]
    ensures Selection(cs, chosen + top[..m + 1], ids' + {top[m].id})
  {
    RareIsFresh(cs, key, ids, top, m);
    IdsOfBoth(chosen, top[..m]);
    SelectionGrows(cs, chosen + top[..m], ids', top[m]);
    assert chosen + top[..m] + [top[m]] == chosen + top[..m + 1];
  }

  lemma IdsOfBoth(a: seq<Candidate>, b: seq<Candidate>)
    ensures Ids(a + b) == Ids(a) + Ids(b)
  {
    assert forall c :: c in a + b <==> c in a || c in b;
  }

  /** Stage 2: unchosen rare candidates, best first, while there is room. */
  method ChooseRare(cs: seq<Candidate>, order: seq<string>, rareReserve: nat, target: nat, chosen: seq<Candidate>,
                    ids: set<nat>)
    returns (chosen': seq<Candidate>, ids': set<nat>)
    requires DistinctIds(cs) && Distinct(order) && Selection(cs, chosen, ids) && |chosen| <= target
    ensures Selection(cs, chosen', ids') && |chosen'| <= target
    ensures chosen' == chosen + Cut(RareOf(cs, order, rareReserve, ids), target - |chosen|)
  {
    chosen', ids' := chosen, ids;
    for k := 0 to |order|
      invariant RareSoFar(cs, order, k, rareReserve, target, chosen, ids, chosen', ids')
    {
      chosen', ids' := TakeNextRare(cs, order, k, rareReserve, target, chosen, ids, chosen', ids');
      if |chosen'| >= target {
        RareIsPrefix(cs, order, k + 1, rareReserve, ids);
        CutOfPrefix(RareOf(cs, order[..k + 1], rareReserve, ids), RareOf(cs, order, rareReserve, ids),
            target - |chosen|);
        return;
      }
    }
    assert order[..|order|] == order;
  }

  /** After `k` bins: their rare candidates are chosen as far as there was room. */
  ghost predicate RareSoFar(cs: seq<Candidate>, order: seq<string>, k: nat, reserve: nat, target: nat,
                            chosen: seq<Candidate>, ids: set<nat>, chosen': seq<Candidate>, ids': set<nat>)
    requires k <= |order|
  {
    && Selection(cs, chosen', ids') && |chosen'| <= target
    && chosen' == chosen + Cut(RareOf(cs, order[..k], reserve, ids), target - |chosen|)
  }

  method TakeNextRare(cs: seq<Candidate>, order: seq<string>, k: nat, rareReserve: nat, target: nat,
                      ghost start: seq<Candidate>, ghost startIds: set<nat>, chosen: seq<Candidate>, ids: set<nat>)
    returns (chosen': seq<Candidate>, ids': set<nat>)
    requires DistinctIds(cs) && Distinct(order) && k < |order| && |start| <= target && startIds == Ids(start)
    requires RareSoFar(cs, order, k, rareReserve, target, start, startIds, chosen, ids)
    ensures RareSoFar(cs, order, k + 1, rareReserve, target, start, startIds, chosen', ids')
  {
    OtherBinsDoNotMatter(cs, order, k, rareReserve, startIds, start, target - |start|, ids);
    chosen', ids' := TakeRare(cs, order[k], rareReserve, target, chosen, ids);
    RareFits(cs, order, k, rareReserve, startIds, start, target, chosen, ids, chosen');
  }

  lemma RareFits(cs: seq<Candidate>, order: seq<string>, k: nat, reserve: nat, startIds: set<nat>,
                 start: seq<Candidate>,
                 target: nat, chosen: seq<Candidate>, ids: set<nat>, chosen': seq<Candidate>)
    requires k < |order| && |start| <= target
    requires chosen == start + Cut(RareOf(cs, order[..k], reserve, startIds), target - |start|)
    requires RareIn(cs, order[k], reserve, ids) == RareIn(cs, order[k], reserve, startIds)
    requires chosen' == chosen + Cut(RareIn(cs, order[k], reserve, ids), target - |chosen|)
    ensures chosen' == start + Cut(RareOf(cs, order[..k + 1], reserve, startIds), target - |start|)
  {
    RareStep(cs, order, k, reserve, startIds);
    CutOfMore(start, RareOf(cs, order[..k], reserve, startIds), RareIn(cs, order[k], reserve, ids), target, chosen,
        chosen');
  }

  lemma RareStep(cs: seq<Candidate>, order: seq<string>, k: nat, reserve: nat, ids: set<nat>)
    requires k < |order|
    ensures RareOf(cs, order[..k + 1], reserve, ids) ==
            RareOf(cs, order[..k], reserve, ids) + RareIn(cs, order[k], reserve, ids)
  {
    assert order[..k + 1][..k] == order[..k];
  }

  lemma CutOfPrefix(a: seq<Candidate>, b: seq<Candidate>, n: int)
    requires a <= b && |Cut(a, n)| >= n
    ensures Cut(b, n) == Cut(a, n)
  {
  }

  lemma CutOfMore(start: seq<Candidate>, a: seq<Candidate>, b: seq<Candidate>, target: nat,
                  chosen: seq<Candidate>, chosen': seq<Candidate>)
    requires |start| <= target && chosen == start + Cut(a, target - |start|)
             && chosen' == chosen + Cut(b, target - |chosen|)
    ensures chosen' == start + Cut(a + b, target - |start|)
  {
    var n := target - |start|;
    assert Cut(a + b, n) == Cut(a, n) + Cut(b, n - |Cut(a, n)|);
  }

  lemma {:induction false} RareIsPrefix(cs: seq<Candidate>, order: seq<string>, k: nat, reserve: nat, ids: set<nat>)
    requires k <= |order|
    ensures RareOf(cs, order[..k], reserve, ids) <= RareOf(cs, order, reserve, ids)
    decreases |order|
  {
    if k < |order| {
      assert order[..|order| - 1][..k] == order[..k];
      RareIsPrefix(cs, order[..|order| - 1], k, reserve, ids);
    } else {
      assert order[..k] == order;
    }
  }

  lemma CutMembers(cs: seq<Candidate>, key: Candidate -> SortKey, n: int)
    ensures forall c :: c in Cut(BestFirst(cs, key), n) ==> c in cs
  {
    var sorted := BestFirst(cs, key);
    BestFirstKeeps(cs, key);
    forall c | c in Cut(sorted, n) ensures c in cs {
      assert c in multiset(sorted) && c in multiset(cs);
    }
  }

  lemma {:induction false} RareMembers(cs: seq<Candidate>, order: seq<string>, reserve: nat, ids: set<nat>)
    ensures forall c :: c in RareOf(cs, order, reserve, ids) ==> c in cs && c.bin in order
  {
    if order != [] {
      var front, last := order[..|order| - 1], order[|order| - 1];
      RareMembers(cs, front, reserve, ids);
      UnchosenAreMembers(cs, last, ids);
      CutMembers(Unchosen(cs, last, ids), RareKey, reserve);
    }
  }

  lemma {:induction false} UnchosenAreMembers(cs: seq<Candidate>, key: string, ids: set<nat>)
    ensures forall c :: c in Unchosen(cs, key, ids) ==> c in cs && c.bin == key
  {
    if cs != [] {
      UnchosenAreMembers(cs[..|cs| - 1], key, ids);
    }
  }

  lemma {:induction false} UnchosenDependsOnBin(cs: seq<Candidate>, key: string, ids: set<nat>, ids': set<nat>)
    requires forall c :: c in cs && c.bin == key ==> (c.id in ids <==> c.id in ids')
    ensures Unchosen(cs, key, ids) == Unchosen(cs, key, ids')
  {
    if cs != [] {
      assert cs[|cs| - 1] in cs;
      UnchosenDependsOnBin(cs[..|cs| - 1], key, ids, ids');
    }
  }

  /** What was taken from earlier bins does not change what is unchosen in this one. */
  lemma OtherBinsDoNotMatter(cs: seq<Candidate>, order: seq<string>, k: nat, reserve: nat, ids: set<nat>,
                             chosen: seq<Candidate>, room: int, ids': set<nat>)
    requires DistinctIds(cs) && Distinct(order) && k < |order| && ids == Ids(chosen)
    requires ids' == Ids(chosen + Cut(RareOf(cs, order[..k], reserve, ids), room))
    ensures RareIn(cs, order[k], reserve, ids') == RareIn(cs, order[k], reserve, ids)
  {
    var taken := Cut(RareOf(cs, order[..k], reserve, ids), room);
    RareMembers(cs, order[..k], reserve, ids);
    assert order[k] !in order[..k];
    forall c | c in cs && c.bin == order[k] ensures c.id in ids <==> c.id in ids' {
      if c.id in ids' && c.id !in ids {
        var d :| d in chosen + taken && d.id == c.id;
        assert d in taken && d in RareOf(cs, order[..k], reserve, ids);
        SameIdSameCandidate(cs, c, d);
      }
    }
    UnchosenDependsOnBin(cs, order[k], ids, ids');
  }

  /** Members of a bin that are rare and not chosen yet. */
  function Unchosen(cs: seq<Candidate>, key: string, ids: set<nat>): seq<Candidate> {
    if cs == [] then []
    else
      var c := cs[|cs| - 1];
      Unchosen(cs[..|cs| - 1], key, ids) +
      if c.bin == key && c.id !in ids && (c.hasSeeds || c.rarity > 0.0) then [c] else []
  }

  lemma {:induction false} UnchosenMembers(cs: seq<Candidate>, key: string, ids: set<nat>)
    requires DistinctIds(cs)
    ensures forall c :: c in Unchosen(cs, key, ids) ==> c in cs && c.id !in ids
    ensures DistinctIds(Unchosen(cs, key, ids))
  {
    if cs != [] {
      var front, last := cs[..|cs| - 1], cs[|cs| - 1];
      UnchosenMembers(front, key, ids);
      assert forall c :: c in front ==> c.id != last.id && c in cs;
      assert last in cs;
    }
  }

  lemma RareIsFresh(cs: seq<Candidate>, key: string, ids: set<nat>, top: seq<Candidate>, m: nat)
    requires DistinctIds(cs) && m < |top| && top <= BestFirst(Unchosen(cs, key, ids), RareKey)
    ensures top[m] in cs && top[m].id !in ids + Ids(top[..m])
  {
    var rare := Unchosen(cs, key, ids);
    var sorted := BestFirst(rare, RareKey);
    BestFirstKeeps(rare, RareKey);
    UnchosenMembers(cs, key, ids);
    forall i | 0 <= i < |sorted| ensures sorted[i] in rare {
      assert sorted[i] in multiset(sorted) && sorted[i] in multiset(rare);
    }
    forall d | d in top[..m] ensures d.id != top[m].id {
      var i :| 0 <= i < m && top[i] == d;
      if d.id == top[m].id {
        SameIdSameCandidate(rare, sorted[i], sorted[m]);
        NoRepeats(rare, sorted, i, m);
      }
    }
  }

  function Remaining(cs: seq<Candidate>, ids: set<nat>): seq<Candidate> {
    if cs == [] then []
    else Remaining(cs[..|cs| - 1], ids) + if cs[|cs| - 1].id !in ids then [cs[|cs| - 1]] else []
  }

  lemma {:induction false} RemainingMembers(cs: seq<Candidate>, ids: set<nat>)
    ensures forall c :: c in Remaining(cs, ids) <==> c in cs && c.id !in ids
  {
    if cs != [] {
      RemainingMembers(cs[..|cs| - 1], ids);
      assert forall c :: c in cs <==> c in cs[..|cs| - 1] || c == cs[|cs| - 1];
    }
  }

  /** The weighted score of the fill stage, given what has been chosen so far. */
  type Gain = (Candidate, seq<Candidate>) -> real

  datatype FillKey = FillKey(weighted: real, quality: real, search: real, id: nat)

  predicate FillAtLeast(a: FillKey, b: FillKey) {
    a.weighted > b.weighted ||
    (a.weighted == b.weighted && AtLeast(SortKey(a.quality, a.search, a.id), SortKey(b.quality, b.search, b.id)))
  }

  function FillKeyOf(c: Candidate, chosen: seq<Candidate>, gain: Gain): FillKey {
    FillKey(gain(c, chosen), c.quality, c.search, c.id)
  }

  method BestRemaining(remaining: seq<Candidate>, chosen: seq<Candidate>, gain: Gain) returns (best: Candidate)
    requires remaining != []
    ensures best in remaining
    ensures forall c :: c in remaining ==> FillAtLeast(FillKeyOf(best, chosen, gain), FillKeyOf(c, chosen, gain))
  {
    best := remaining[0];
    for k := 1 to |remaining|
      invariant best in remaining
      invariant forall m :: 0 <= m < k ==>
                  FillAtLeast(FillKeyOf(best, chosen, gain), FillKeyOf(remaining[m], chosen, gain))
    {
      if !FillAtLeast(FillKeyOf(best, chosen, gain), FillKeyOf(remaining[k], chosen, gain)) {
        best := remaining[k];
      }
    }
  }

  lemma SomeoneRemains(cs: seq<Candidate>, chosen: seq<Candidate>, ids: set<nat>)
    requires DistinctIds(cs) && Selection(cs, chosen, ids) && |chosen| < |cs|
    ensures Remaining(cs, ids) != []
  {
    DistinctIdsCount(cs);
    DistinctIdsCount(chosen);
    RemainingMembers(cs, ids);
    if forall c :: c in cs ==> c.id in ids {
      assert Ids(cs) <= ids;
      SubsetIsNoLarger(Ids(cs), ids);
      assert false;
    }
    var c :| c in cs && c.id !in ids;
    assert c in Remaining(cs, ids);
  }

  /** Stage 3: the best remaining candidate, one at a time, until the target is met. */
  method FillUp(cs: seq<Candidate>, target: nat, gain: Gain, chosen: seq<Candidate>, ids: set<nat>)
    returns (chosen': seq<Candidate>, ids': set<nat>)
    requires DistinctIds(cs) && Selection(cs, chosen, ids) && target <= |cs|
    ensures Selection(cs, chosen', ids') && |chosen'| == Max(|chosen|, target) && chosen <= chosen'
    ensures GreedyFrom(cs, chosen', |chosen|, gain)
  {
    chosen', ids' := chosen, ids;
    while |chosen'| < target
      invariant Selection(cs, chosen', ids') && chosen <= chosen' && GreedyFrom(cs, chosen', |chosen|, gain)
      invariant |chosen'| <= Max(|chosen|, target)
      decreases target - |chosen'|
    {
      var remaining := Remaining(cs, ids');
      SomeoneRemains(cs, chosen', ids');
      if remaining == [] {
        break;
      }
      var best := BestRemaining(remaining, chosen', gain);
      RemainingMembers(cs, ids');
      SelectionGrows(cs, chosen', ids', best);
      GreedyGrows(cs, chosen', |chosen|, gain, best);
      chosen', ids' := chosen' + [best], ids' + {best.id};
    }
  }

  /** No unchosen candidate scored better than this one when it was chosen. */
  ghost predicate BestChoice(cs: seq<Candidate>, before: seq<Candidate>, c: Candidate, gain: Gain) {
    && c in cs && c.id !in Ids(before)
    && forall d :: d in cs && d.id !in Ids(before) ==>
      gain(c, before) > gain(d, before) || (gain(c, before) == gain(d, before) && NoWorse(c, d))
  }

  ghost predicate GreedyFrom(cs: seq<Candidate>, chosen: seq<Candidate>, start: nat, gain: Gain) {
    forall k :: start <= k < |chosen| ==> BestChoice(cs, chosen[..k], chosen[k], gain)
  }

  lemma GreedyGrows(cs: seq<Candidate>, chosen: seq<Candidate>, start: nat, gain: Gain, c: Candidate)
    requires start <= |chosen| && GreedyFrom(cs, chosen, start, gain) && BestChoice(cs, chosen, c, gain)
    ensures GreedyFrom(cs, chosen + [c], start, gain)
  {
    forall k | start <= k < |chosen + [c]| ensures BestChoice(cs, (chosen + [c])[..k], (chosen + [c])[k], gain) {
      assert (chosen + [c])[..k] == chosen[..k];
      assert chosen[..|chosen|] == chosen;
    }
  }

  /** The best of its bin: no candidate of the same bin is better. */
  ghost predicate BestOfBin(cs: seq<Candidate>, c: Candidate) {
    c in cs && forall d :: d in cs && d.bin == c.bin ==> NoWorse(c, d)
  }

  /** What the first two stages choose. */
  function Protected(cs: seq<Candidate>, order: seq<string>, target: int, reserve: nat,
                     rareReserve: nat): seq<Candidate> {
    var elites := ElitesOf(cs, order, reserve);
    if |elites| < target && rareReserve > 0
    then elites + Cut(RareOf(cs, order, rareReserve, Ids(elites)), target - |elites|)
    else elites
  }

  /** The survivors start with what the first two stages choose and go on with the best choice at every point. */
  ghost predicate InStages(cs: seq<Candidate>, order: seq<string>, target: int, reserve: nat, rareReserve: nat,
                           gain: Gain,
                           survivors: seq<Candidate>) {
    var kept := Protected(cs, order, target, reserve, rareReserve);
    kept <= survivors && GreedyFrom(cs, survivors, |kept|, gain)
  }

  /**
   Survivors and compacted candidates partition the population, the best of
   every bin survives, and the number of survivors is exact.
   */
  method EntropyDiversitySurvivors(cs: seq<Candidate>, order: seq<string>, targetK: int,
                                   reserve: nat, rareReserve: nat, gain: Gain)
    returns (survivors: seq<Candidate>, compacted: seq<Candidate>)
    requires DistinctIds(cs) && Enumerates(order, cs)
    ensures multiset(survivors) + multiset(compacted) == multiset(cs) && compacted == Remaining(cs, Ids(survivors))
    ensures cs != [] ==>
              InStages(cs, order, Max(1, Min(if targetK == 0 then 1 else targetK, |cs|)), reserve, rareReserve, gain,
                  survivors)
    ensures cs != [] ==>
              |survivors| ==
                  Max(Max(1, Min(if targetK == 0 then 1 else targetK, |cs|)), SumOver(order, EliteShare(cs, reserve)))
    ensures reserve > 0 ==> forall c :: BestOfBin(cs, c) ==> c in survivors
    ensures BinsKeepTheirBest(cs, survivors, reserve)
    ensures cs != [] ==>
              RarestAreKept(cs, order, Max(1, Min(if targetK == 0 then 1 else targetK, |cs|)), reserve, rareReserve,
                            survivors)
  {
    if cs == [] {
      return [], [];
    }
    var target: nat := Max(1, Min(if targetK == 0 then 1 else targetK, |cs|));
    var chosen, ids := Protect(cs, order, target, reserve, rareReserve);
    survivors, ids := FillUp(cs, target, gain, chosen, ids);
    compacted := Remaining(cs, ids);
    SplitIsPartition(cs, survivors, ids);
    BinsAreKept(cs, order, reserve, survivors);
    RareStageKeepsTheRarest(cs, order, target, reserve, rareReserve, survivors);
    if reserve > 0 {
      BestsSurvive(cs, order, ElitesOf(cs, order, reserve), survivors);
    }
  }

  /** The first two stages. */
  method Protect(cs: seq<Candidate>, order: seq<string>, target: nat, reserve: nat, rareReserve: nat)
    returns (chosen: seq<Candidate>, ids: set<nat>)
    requires DistinctIds(cs) && Enumerates(order, cs)
    ensures Selection(cs, chosen, ids) && chosen == Protected(cs, order, target, reserve, rareReserve)
    ensures ElitesOf(cs, order, reserve) <= chosen
    ensures Max(|chosen|, target) == Max(target, SumOver(order, EliteShare(cs, reserve)))
    ensures reserve > 0 ==> forall key :: key in order ==> BestOfBinIn(cs, key, ElitesOf(cs, order, reserve))
  {
    chosen, ids := ChooseElites(cs, order, reserve);
    if |chosen| < target && rareReserve > 0 {
      chosen, ids := ChooseRare(cs, order, rareReserve, target, chosen, ids);
    }
  }

  lemma BestsSurvive(cs: seq<Candidate>, order: seq<string>, elites: seq<Candidate>, survivors: seq<Candidate>)
    requires DistinctIds(cs) && Enumerates(order, cs) && elites <= survivors
    requires forall key :: key in order ==> BestOfBinIn(cs, key, elites)
    ensures forall c :: BestOfBin(cs, c) ==> c in survivors
  {
    forall c | BestOfBin(cs, c) ensures c in survivors {
      BinMembers(cs, c.bin);
      assert c in Bin(cs, c.bin) && c.bin in order;
      HeadIsBest(Bin(cs, c.bin), EliteKey);
      var head := BestFirst(Bin(cs, c.bin), EliteKey)[0];
      assert AtLeast(EliteKey(c), EliteKey(head)) && AtLeast(EliteKey(head), EliteKey(c));
      SameIdSameCandidate(cs, c, head);
      assert head in elites;
    }
  }

  lemma SplitIsPartition(cs: seq<Candidate>, chosen: seq<Candidate>, ids: set<nat>)
    requires DistinctIds(cs) && Selection(cs, chosen, ids)
    ensures multiset(chosen) + multiset(Remaining(cs, ids)) == multiset(cs)
  {
    var rest := Remaining(cs, ids);
    RemainingMembers(cs, ids);
    RemainingIsDistinct(cs, ids);
    forall c ensures (multiset(chosen) + multiset(rest))[c] == multiset(cs)[c] {
      AtMostOnce(cs, c);
      AtMostOnce(chosen, c);
      AtMostOnce(rest, c);
      assert c in cs <==> c in multiset(cs);
      assert c in chosen <==> c in multiset(chosen);
      assert c in rest <==> c in multiset(rest);
      if c in cs && c.id in ids {
        var d :| d in chosen && d.id == c.id;
        SameIdSameCandidate(cs, c, d);
      }
    }
  }

  lemma {:induction false} RemainingIsDistinct(cs: seq<Candidate>, ids: set<nat>)
    requires DistinctIds(cs)
    ensures DistinctIds(Remaining(cs, ids))
  {
    if cs != [] {
      var front, last := cs[..|cs| - 1], cs[|cs| - 1];
      RemainingIsDistinct(front, ids);
      RemainingMembers(front, ids);
      assert forall c :: c in front ==> c.id != last.id;
    }
  }

  // ---------------------------------------------------------------------------
  // Who is compacted
  // ---------------------------------------------------------------------------

  /** `n` different survivors of the bin of `c`. */
  ghost predicate StandFor(best: seq<Candidate>, survivors: seq<Candidate>, n: nat, c: Candidate) {
    |best| == n && DistinctIds(best) && forall s :: s in best ==> s in survivors && s.bin == c.bin
  }

  /** A compacted candidate leaves a full reserve of its bin behind, none of them worse. */
  ghost predicate BinsKeepTheirBest(cs: seq<Candidate>, survivors: seq<Candidate>, reserve: nat) {
    forall c :: c in cs && c !in survivors ==>
      exists best :: StandFor(best, survivors, reserve, c) && forall s :: s in best ==> NoWorse(s, c)
  }

  lemma {:induction false} ElitesOfAll(cs: seq<Candidate>, order: seq<string>, reserve: nat, key: string)
    requires key in order
    ensures forall c :: c in ElitesIn(cs, key, reserve) ==> c in ElitesOf(cs, order, reserve)
  {
    if key != order[|order| - 1] {
      ElitesOfAll(cs, order[..|order| - 1], reserve, key);
    }
  }

  lemma CutIsDistinct(cs: seq<Candidate>, key: Candidate -> SortKey, n: nat)
    requires DistinctIds(cs)
    ensures DistinctIds(Cut(BestFirst(cs, key), n))
  {
    var sorted := BestFirst(cs, key);
    BestFirstKeeps(cs, key);
    forall i, j | 0 <= i < j < |sorted| ensures sorted[i].id != sorted[j].id {
      assert sorted[i] in multiset(sorted) && sorted[j] in multiset(sorted);
      NoRepeats(cs, sorted, i, j);
      OthersHaveOtherIds(cs, sorted[i], sorted[j]);
    }
  }

  lemma OthersHaveOtherIds(cs: seq<Candidate>, c: Candidate, d: Candidate)
    requires DistinctIds(cs) && c in cs && d in cs
    ensures c != d ==> c.id != d.id
  {
    if c.id == d.id {
      SameIdSameCandidate(cs, c, d);
    }
  }

  lemma ElitesStandFor(cs: seq<Candidate>, order: seq<string>, reserve: nat, survivors: seq<Candidate>, key: string)
    requires DistinctIds(cs) && key in order && ElitesOf(cs, order, reserve) <= survivors
    ensures DistinctIds(ElitesIn(cs, key, reserve))
    ensures forall s :: s in ElitesIn(cs, key, reserve) ==> s in survivors && s.bin == key
  {
    ElitesOfAll(cs, order, reserve, key);
    BinIsDistinct(cs, key);
    CutIsDistinct(Bin(cs, key), EliteKey, reserve);
    ElitesInBin(cs, key, reserve);
  }

  lemma CompactedIsOutdone(
    cs: seq<Candidate>, order: seq<string>, reserve: nat, survivors: seq<Candidate>, c: Candidate)
    requires DistinctIds(cs) && Enumerates(order, cs) && ElitesOf(cs, order, reserve) <= survivors
    requires c in cs && c !in survivors
    ensures var best := ElitesIn(cs, c.bin, reserve);
            StandFor(best, survivors, reserve, c) && forall s :: s in best ==> NoWorse(s, c)
  {
    BinMembers(cs, c.bin);
    assert c in Bin(cs, c.bin) && c.bin in order;
    ElitesStandFor(cs, order, reserve, survivors, c.bin);
    CutIsBest(Bin(cs, c.bin), EliteKey, reserve, c);
  }

  lemma BinsAreKept(cs: seq<Candidate>, order: seq<string>, reserve: nat, survivors: seq<Candidate>)
    requires DistinctIds(cs) && Enumerates(order, cs) && ElitesOf(cs, order, reserve) <= survivors
    ensures BinsKeepTheirBest(cs, survivors, reserve)
  {
    forall c | c in cs && c !in survivors
      ensures exists best :: StandFor(best, survivors, reserve, c) && forall s :: s in best ==> NoWorse(s, c)
    {
      CompactedIsOutdone(cs, order, reserve, survivors, c);
    }
  }

  /** Seeds, or a positive rarity score. */
  predicate IsRare(c: Candidate) {
    c.hasSeeds || c.rarity > 0.0
  }

  ghost predicate NoLessRare(a: Candidate, b: Candidate) {
    a.rarity > b.rarity || (a.rarity == b.rarity && (a.search > b.search || (a.search == b.search && a.id >= b.id)))
  }

  /**
   Unless the first two stages fill all the room, a compacted rare candidate
   leaves a full reserve of rare survivors of its bin behind, none less rare,
   and none of them one of the first `elites`.
   */
  ghost predicate BinsKeepTheirRarest(cs: seq<Candidate>, survivors: seq<Candidate>, elites: nat, reserve: nat) {
    forall c :: c in cs && c !in survivors && IsRare(c) ==>
      exists best :: StandFor(best, survivors, reserve, c) && elites <= |survivors| &&
                     forall s :: s in best ==> IsRare(s) && NoLessRare(s, c) && s.id !in Ids(survivors[..elites])
  }

  lemma {:induction false} UnchosenIff(cs: seq<Candidate>, key: string, ids: set<nat>)
    ensures forall c :: c in Unchosen(cs, key, ids) <==> c in cs && c.bin == key && c.id !in ids && IsRare(c)
  {
    if cs != [] {
      UnchosenIff(cs[..|cs| - 1], key, ids);
      assert forall c :: c in cs <==> c in cs[..|cs| - 1] || c == cs[|cs| - 1];
    }
  }

  lemma {:induction false} RareOfAll(cs: seq<Candidate>, order: seq<string>, reserve: nat, ids: set<nat>, key: string)
    requires key in order
    ensures forall c :: c in RareIn(cs, key, reserve, ids) ==> c in RareOf(cs, order, reserve, ids)
  {
    if key != order[|order| - 1] {
      RareOfAll(cs, order[..|order| - 1], reserve, ids, key);
    }
  }

  lemma CompactedIsNotChosen(cs: seq<Candidate>, chosen: seq<Candidate>, survivors: seq<Candidate>, c: Candidate)
    requires DistinctIds(cs) && chosen <= survivors && (forall s :: s in survivors ==> s in cs)
    requires c in cs && c !in survivors
    ensures c.id !in Ids(chosen)
  {
    forall d | d in chosen ensures d.id != c.id {
      assert d in survivors;
      OthersHaveOtherIds(cs, c, d);
    }
  }

  lemma CompactedIsLessRare(cs: seq<Candidate>, order: seq<string>, reserve: nat, elites: seq<Candidate>,
                            survivors: seq<Candidate>, c: Candidate)
    requires DistinctIds(cs) && Enumerates(order, cs)
    requires elites + RareOf(cs, order, reserve, Ids(elites)) <= survivors && (forall s :: s in survivors ==> s in cs)
    requires c in cs && c !in survivors && IsRare(c)
    ensures var best := RareIn(cs, c.bin, reserve, Ids(elites));
            && StandFor(best, survivors, reserve, c)
            && forall s :: s in best ==> IsRare(s) && NoLessRare(s, c) && s.id !in Ids(elites)
  {
    var ids := Ids(elites);
    var rare := Unchosen(cs, c.bin, ids);
    BinMembers(cs, c.bin);
    assert c in Bin(cs, c.bin) && c.bin in order;
    UnchosenIff(cs, c.bin, ids);
    UnchosenMembers(cs, c.bin, ids);
    CompactedIsNotChosen(cs, elites, survivors, c);
    assert forall s :: s in RareOf(cs, order, reserve, ids) ==> s in elites + RareOf(cs, order, reserve, ids);
    RareOfAll(cs, order, reserve, ids, c.bin);
    CutIsBest(rare, RareKey, reserve, c);
    CutIsDistinct(rare, RareKey, reserve);
    CutMembers(rare, RareKey, reserve);
  }

  /** What the rare stage promises, when it runs and does not fill the room. */
  ghost predicate RarestAreKept(cs: seq<Candidate>, order: seq<string>, target: int, reserve: nat, rareReserve: nat,
                                survivors: seq<Candidate>) {
    var elites := ElitesOf(cs, order, reserve);
    |elites| < target && rareReserve > 0 && |Protected(cs, order, target, reserve, rareReserve)| < target ==>
      BinsKeepTheirRarest(cs, survivors, |elites|, rareReserve)
  }

  lemma RareStageKeepsTheRarest(cs: seq<Candidate>, order: seq<string>, target: nat, reserve: nat, rareReserve: nat,
                                survivors: seq<Candidate>)
    requires DistinctIds(cs) && Enumerates(order, cs) && (forall s :: s in survivors ==> s in cs)
    requires Protected(cs, order, target, reserve, rareReserve) <= survivors
    ensures RarestAreKept(cs, order, target, reserve, rareReserve, survivors)
  {
    var elites := ElitesOf(cs, order, reserve);
    if |elites| < target && rareReserve > 0 && |Protected(cs, order, target, reserve, rareReserve)| < target {
      assert elites + RareOf(cs, order, rareReserve, Ids(elites)) <= survivors;
      assert survivors[..|elites|] == elites;
      forall c | c in cs && c !in survivors && IsRare(c)
        ensures exists best :: StandFor(best, survivors, rareReserve, c) && |elites| <= |survivors| &&
                  forall s :: s in best ==> IsRare(s) && NoLessRare(s, c) && s.id !in Ids(survivors[..|elites|])
      {
        CompactedIsLessRare(cs, order, rareReserve, elites, survivors, c);
      }
    }
  }

  // ---------------------------------------------------------------------------
  // The wrapper that derives the target
  // ---------------------------------------------------------------------------

  /** The part of a bin key before the first bar. */
  function GroupKey(key: string): string {
    if key == "" || key[0] == '|' then "" else [key[0]] + GroupKey(key[1..])
  }

  function Groups(keys: seq<string>): seq<string> {
    if keys == [] then [] else Groups(keys[..|keys| - 1]) + [GroupKey(keys[|keys| - 1])]
  }

  function BinsOf(cs: seq<Candidate>): seq<string> {
    if cs == [] then [] else BinsOf(cs[..|cs| - 1]) + [cs[|cs| - 1].bin]
  }

  function KeysOf(cs: seq<Candidate>): seq<string> {
    FirstOccurrences(BinsOf(cs))
  }

  function GroupsOf(cs: seq<Candidate>): seq<string> {
    FirstOccurrences(Groups(BinsOf(cs)))
  }

  /** What one group may keep: at least its cells, at most its candidates. */
  function GroupShare(cs: seq<Candidate>, room: int): string -> int {
    g => Max(Occurs(Groups(KeysOf(cs)), g), Min(Occurs(Groups(BinsOf(cs)), g), room))
  }

  lemma {:induction false} CellsWithinCandidates(bins: seq<string>, g: string)
    ensures Occurs(Groups(FirstOccurrences(bins)), g) <= Occurs(Groups(bins), g)
  {
    if bins != [] {
      CellsWithinCandidates(bins[..|bins| - 1], g);
      var front := FirstOccurrences(bins[..|bins| - 1]);
      GroupsAppend(front, bins[|bins| - 1]);
    }
  }

  lemma GroupsAppend(keys: seq<string>, key: string)
    ensures Groups(keys + [key]) == Groups(keys) + [GroupKey(key)]
    ensures forall g :: Occurs(Groups(keys + [key]), g) == Occurs(Groups(keys), g) + if GroupKey(key) == g then 1 else 0
  {
    assert (keys + [key])[..|keys|] == keys;
    assert (Groups(keys) + [GroupKey(key)])[..|Groups(keys)|] == Groups(keys);
  }

  lemma {:induction false} GroupMembers(keys: seq<string>)
    ensures |Groups(keys)| == |keys|
    ensures forall g :: g in Groups(keys) <==> exists k :: k in keys && GroupKey(k) == g
  {
    if keys != [] {
      var front, last := keys[..|keys| - 1], keys[|keys| - 1];
      GroupMembers(front);
      assert last in keys && forall k :: k in keys <==> k in front || k == last;
    }
  }

  lemma {:induction false} BinsCount(cs: seq<Candidate>)
    ensures |BinsOf(cs)| == |cs|
    ensures forall b :: b in BinsOf(cs) <==> Bin(cs, b) != []
  {
    if cs != [] {
      BinsCount(cs[..|cs| - 1]);
    }
  }

  /** The derived target lies between the number of bins and the size of the population. */
  lemma TargetIsInRange(cs: seq<Candidate>, room: int)
    ensures |KeysOf(cs)| <= SumOver(GroupsOf(cs), GroupShare(cs, room)) <= |cs|
  {
    var groups, bins, keys := GroupsOf(cs), BinsOf(cs), KeysOf(cs);
    FirstOccurrencesList(Groups(bins));
    FirstOccurrencesList(bins);
    GroupMembers(bins);
    GroupMembers(keys);
    BinsCount(cs);
    OccurrencesAddUp(groups, Groups(bins));
    OccurrencesAddUp(groups, Groups(keys));
    SumMonotone(groups, OccursIn(Groups(keys)), GroupShare(cs, room));
    forall g | g in groups ensures GroupShare(cs, room)(g) <= OccursIn(Groups(bins))(g) {
      CellsWithinCandidates(bins, g);
    }
    SumMonotone(groups, GroupShare(cs, room), OccursIn(Groups(bins)));
  }

  /** Any listing of the bins has as many entries as the dictionary of bins. */
  lemma EnumerationsAgree(order: seq<string>, cs: seq<Candidate>)
    requires Enumerates(order, cs)
    ensures |order| == |KeysOf(cs)|
  {
    FirstOccurrencesList(BinsOf(cs));
    BinsCount(cs);
    DistinctCount(order);
    DistinctCount(KeysOf(cs));
    assert (set k | k in order) == (set k | k in KeysOf(cs));
  }

  lemma {:induction false} ReserveOneCountsBins(cs: seq<Candidate>, order: seq<string>, n: nat)
    requires n <= |order| && forall key :: key in order ==> Bin(cs, key) != []
    ensures SumOver(order[..n], EliteShare(cs, 1)) == n
    decreases n
  {
    if n > 0 {
      ReserveOneCountsBins(cs, order, n - 1);
      assert order[..n][..n - 1] == order[..n - 1] && order[n - 1] in order;
      assert |Bin(cs, order[n - 1])| >= 1;
    }
  }

  lemma GroupsOfOneMore(cs: seq<Candidate>, k: nat)
    requires k < |cs|
    ensures var g := GroupKey(cs[k].bin);
            && GroupsOf(cs[..k + 1]) == (if g in GroupsOf(cs[..k]) then GroupsOf(cs[..k]) else GroupsOf(cs[..k]) + [g])
            && forall x :: Occurs(Groups(BinsOf(cs[..k + 1])), x) ==
                           Occurs(Groups(BinsOf(cs[..k])), x) + if x == g then 1 else 0
  {
    assert cs[..k + 1][..k] == cs[..k];
    var bins := BinsOf(cs[..k]);
    GroupsAppend(bins, cs[k].bin);
    assert BinsOf(cs[..k + 1]) == bins + [cs[k].bin];
    assert (Groups(bins) + [GroupKey(cs[k].bin)])[..|Groups(bins)|] == Groups(bins);
  }

  ghost predicate CountsOf(cs: seq<Candidate>, count: map<string, nat>) {
    forall g :: Occurs(Groups(BinsOf(cs)), g) == if g in count then count[g] else 0
  }

  lemma CountOneMore(cs: seq<Candidate>, k: nat, count: map<string, nat>)
    requires k < |cs| && CountsOf(cs[..k], count)
    ensures var g := GroupKey(cs[k].bin);
            CountsOf(cs[..k + 1], count[g := 1 + if g in count then count[g] else 0])
  {
    GroupsOfOneMore(cs, k);
  }

  /** Groups in order of first appearance, each with its count, and a zero cell counter. */
  ghost predicate Counted(cs: seq<Candidate>, groups: seq<string>, count: map<string, nat>, cells: map<string, nat>) {
    && groups == GroupsOf(cs) && CountsOf(cs, count) && count.Keys == cells.Keys
    && (forall g :: g in groups <==> g in count) && (forall g :: g in cells ==> cells[g] == 0)
  }

  lemma CountedOneMore(cs: seq<Candidate>, k: nat, groups: seq<string>, count: map<string, nat>,
                       cells: map<string, nat>)
    requires k < |cs| && Counted(cs[..k], groups, count, cells)
    ensures var g := GroupKey(cs[k].bin);
            if g in count then Counted(cs[..k + 1], groups, count[g := count[g] + 1], cells)
            else Counted(cs[..k + 1], groups + [g], count[g := 1], cells[g := 0])
  {
    GroupsOfOneMore(cs, k);
    CountOneMore(cs, k, count);
  }

  /** First loop: every candidate counts for its group; cells start at zero. */
  method CountCandidates(cs: seq<Candidate>)
      returns (groups: seq<string>, count: map<string, nat>, cells: map<string, nat>)
    ensures groups == GroupsOf(cs) && count.Keys == cells.Keys == (set g | g in groups)
    ensures forall g :: g in count ==> count[g] == Occurs(Groups(BinsOf(cs)), g) && cells[g] == 0
  {
    groups, count, cells := [], map[], map[];
    for k := 0 to |cs|
      invariant Counted(cs[..k], groups, count, cells)
    {
      var g := GroupKey(cs[k].bin);
      CountedOneMore(cs, k, groups, count, cells);
      if g !in count {
        groups, count, cells := groups + [g], count[g := 0], cells[g := 0];
      }
      ghost var seen := count;
      count := count[g := count[g] + 1];
      assert seen[g] == 0 ==> count == seen[g := 1];
    }
    assert cs[..|cs|] == cs;
  }

  /** Second loop: every bin counts once for its group. */
  method CountCells(keys: seq<string>, cells0: map<string, nat>) returns (cells: map<string, nat>)
    requires forall g :: g in cells0 ==> cells0[g] == 0
    requires forall k :: k in keys ==> GroupKey(k) in cells0
    ensures cells.Keys == cells0.Keys && forall g :: g in cells ==> cells[g] == Occurs(Groups(keys), g)
  {
    cells := cells0;
    for k := 0 to |keys|
      invariant cells.Keys == cells0.Keys
      invariant forall g :: g in cells ==> cells[g] == Occurs(Groups(keys[..k]), g)
    {
      assert keys[..k + 1] == keys[..k] + [keys[k]] && keys[k] in keys;
      GroupsAppend(keys[..k], keys[k]);
      cells := cells[GroupKey(keys[k]) := cells[GroupKey(keys[k])] + 1];
    }
    assert keys[..|keys|] == keys;
  }

  datatype Config = Config(reserve: nat, rareReserve: nat)

  method DeriveTarget(cs: seq<Candidate>, room: int) returns (target: nat)
    ensures target == SumOver(GroupsOf(cs), GroupShare(cs, room)) && |KeysOf(cs)| <= target <= |cs|
  {
    var groups, count, cells := CountCandidates(cs);
    KeysHaveGroups(cs);
    cells := CountCells(KeysOf(cs), cells);
    var sum := 0;
    for k := 0 to |groups|
      invariant sum == SumOver(groups[..k], GroupShare(cs, room))
    {
      assert groups[..k + 1][..k] == groups[..k] && groups[k] in groups;
      sum := sum + Max(cells[groups[k]], Min(count[groups[k]], room));
    }
    assert groups[..|groups|] == groups;
    TargetIsInRange(cs, room);
    target := sum;
  }

  /** Elites never exceed the derived target when one is reserved per bin. */
  lemma ElitesWithinTarget(cs: seq<Candidate>, order: seq<string>)
    requires Enumerates(order, cs) && cs != []
    ensures SumOver(order, EliteShare(cs, 1)) == |KeysOf(cs)| >= 1
  {
    EnumerationsAgree(order, cs);
    ReserveOneCountsBins(cs, order, |order|);
    assert order[..|order|] == order;
    SomeBin(cs);
  }

  /** With one reserved elite per bin the number of survivors is exactly the derived target. */
  method QualityDiversitySurvivors(cs: seq<Candidate>, order: seq<string>, binCapacity: int, rareReservePerBin: int,
                                   config: Config, gain: Gain)
    returns (survivors: seq<Candidate>, compacted: seq<Candidate>)
    requires DistinctIds(cs) && Enumerates(order, cs)
    ensures multiset(survivors) + multiset(compacted) == multiset(cs)
    ensures cs != [] ==>
              InStages(cs, order, SumOver(GroupsOf(cs), GroupShare(cs, Room(binCapacity, rareReservePerBin, config))),
                       config.reserve, config.rareReserve, gain, survivors)
    ensures config.reserve > 0 ==> forall c :: BestOfBin(cs, c) ==> c in survivors
    ensures BinsKeepTheirBest(cs, survivors, config.reserve)
    ensures config.reserve == 1 && cs != [] ==>
              |survivors| == SumOver(GroupsOf(cs), GroupShare(cs, Room(binCapacity, rareReservePerBin, config)))
  {
    var target := DeriveTarget(cs, Room(binCapacity, rareReservePerBin, config));
    if cs != [] {
      ElitesWithinTarget(cs, order);
      assert Max(1, Min(if target == 0 then 1 else target, |cs|)) == target;
    }
    survivors, compacted := EntropyDiversitySurvivors(cs, order, target, config.reserve, config.rareReserve, gain);
  }

  lemma KeysHaveGroups(cs: seq<Candidate>)
    ensures forall k :: k in KeysOf(cs) ==> GroupKey(k) in GroupsOf(cs)
  {
    FirstOccurrencesList(BinsOf(cs));
    FirstOccurrencesList(Groups(BinsOf(cs)));
    GroupMembers(BinsOf(cs));
  }

  function Room(binCapacity: int, rareReservePerBin: int, config: Config): int {
    Max(1, binCapacity) + Max(0, if rareReservePerBin != 0 then rareReservePerBin else config.rareReserve)
  }

  lemma SomeBin(cs: seq<Candidate>)
    requires cs != []
    ensures |KeysOf(cs)| >= 1
  {
    FirstOccurrencesList(BinsOf(cs));
    assert BinsOf(cs)[|BinsOf(cs)| - 1] in BinsOf(cs);
  }
}
