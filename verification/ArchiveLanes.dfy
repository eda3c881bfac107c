/**
 The lanes of the archive manager as a value (archives/manager.py, archives/registry.py):
 what one fate assignment or reactivation does to them, and what every run keeps.
 */
module ArchiveLanes {
  import opened Wrappers
  import opened Candidates
  import opened Counting

  /** Where routing reports that it has put a candidate, or refused to. */
  datatype Target =
    | ToFailures | ToLatent | ToDiversity | ToRarity | ToNovelty | ToMechanisms | ToPatches | PatchRefused
    | ToAnswers | AnswerRefused | ToAuxiliary | ToDormant | ToIncubation

  /** `targets` and `genes` are filled in when the assignment is applied. */
  datatype Assignment = Assignment(
    id: Id, fate: Fate, signature: string, condition: string, targets: seq<Target>, genes: string)

  /** The holder of a mechanism key or of a niche. */
  datatype Champion = Champion(id: Id, quality: real)

  datatype Constraint =
    | LineageFreeze(target: string, summary: string, source: Id)
    | LessonRule(target: string, lesson: string, source: Id)

  /** What `constraint_id` hashes. */
  datatype ConstraintId =
    | FreezeId(target: string, summary: string, source: Id)
    | LessonId(target: string, lesson: string)

  function IdOf(r: Constraint): ConstraintId {
    match r
    case LineageFreeze(target, summary, source) => FreezeId(target, summary, source)
    case LessonRule(target, lesson, _) => LessonId(target, lesson)
  }

  datatype Lanes = Lanes(
    fates: map<Id, Fate>,
    tombstones: map<Id, Fate>,
    failures: map<Id, string>,
    answer: map<Id, Candidate>,
    auxiliary: map<Id, Candidate>,
    dormant: seq<Candidate>,             // a dictionary in insertion order
    conditions: map<Id, string>,
    novelty: map<Id, Candidate>,
    patches: map<Id, Candidate>,
    rarity: seq<Candidate>,              // a dictionary in insertion order
    seeds: seq<string>,
    mechanisms: map<string, Champion>,
    niches: map<string, Champion>,
    latent: set<Id>,                     // the ids the latent lane holds
    constraints: seq<Constraint>)

  function NoLanes(): Lanes {
    Lanes(map[], map[], map[], map[], map[], [], map[], map[], map[], [], [], map[], map[], {}, [])
  }

  // ---------------------------------------------------------------------------
  // Ordered dictionaries of candidates
  // ---------------------------------------------------------------------------

  function IdsOf(d: seq<Candidate>): set<Id> {
    set k | 0 <= k < |d| :: d[k].id
  }

  ghost predicate IdsDistinct(d: seq<Candidate>) {
    forall i, j :: 0 <= i < j < |d| ==> d[i].id != d[j].id
  }

  /** Assignment to a key: an old key keeps its place, a new one goes last. */
  function Put(d: seq<Candidate>, c: Candidate): seq<Candidate> {
    if d == [] then [c]
    else if d[0].id == c.id then [c] + d[1..]
    else [d[0]] + Put(d[1..], c)
  }

  function Drop(d: seq<Candidate>, id: Id): seq<Candidate> {
    if d == [] then []
    else if d[0].id == id then Drop(d[1..], id)
    else [d[0]] + Drop(d[1..], id)
  }

  function AllSeeds(d: seq<Candidate>): seq<string> {
    if d == [] then [] else AllSeeds(d[..|d| - 1]) + d[|d| - 1].traits.seeds
  }

  lemma {:induction false} DropFacts(d: seq<Candidate>, id: Id)
    ensures IdsOf(Drop(d, id)) == IdsOf(d) - {id}
    ensures IdsDistinct(d) ==> IdsDistinct(Drop(d, id))
    ensures forall c :: c in Drop(d, id) ==> c in d
  {
    if d != [] {
      DropFacts(d[1..], id);
      assert d == [d[0]] + d[1..];
      assert IdsOf(d) == {d[0].id} + IdsOf(d[1..]) by {
        IdsOfCons(d[0], d[1..]);
      }
      if d[0].id != id {
        IdsOfCons(d[0], Drop(d[1..], id));
        if IdsDistinct(d) {
          HeadIsNew(d);
          DistinctCons(d[0], Drop(d[1..], id));
        }
      }
    }
  }

  lemma IdsOfCons(c: Candidate, d: seq<Candidate>)
    ensures IdsOf([c] + d) == {c.id} + IdsOf(d)
  {
    forall x | x in IdsOf(d) ensures x in IdsOf([c] + d) {
      var k :| 0 <= k < |d| && d[k].id == x;
      assert ([c] + d)[k + 1].id == x;
    }
    assert ([c] + d)[0].id == c.id;
  }

  lemma IdsOfSnoc(d: seq<Candidate>, c: Candidate)
    ensures IdsOf(d + [c]) == IdsOf(d) + {c.id}
    ensures IdsDistinct(d) && c.id !in IdsOf(d) ==> IdsDistinct(d + [c])
  {
    forall x | x in IdsOf(d) ensures x in IdsOf(d + [c]) {
      var k :| 0 <= k < |d| && d[k].id == x;
      assert (d + [c])[k].id == x;
    }
    assert (d + [c])[|d|].id == c.id;
  }

  lemma HeadIsNew(d: seq<Candidate>)
    requires d != [] && IdsDistinct(d)
    ensures d[0].id !in IdsOf(d[1..]) && IdsDistinct(d[1..])
  {
  }

  lemma DistinctCons(c: Candidate, d: seq<Candidate>)
    requires IdsDistinct(d) && c.id !in IdsOf(d)
    ensures IdsDistinct([c] + d)
  {
    forall k | 0 <= k < |d| ensures d[k].id != c.id {
      assert d[k].id in IdsOf(d);
    }
  }

  /** A key that is not held goes last. */
  lemma {:induction false} PutIsAppend(d: seq<Candidate>, c: Candidate)
    requires c.id !in IdsOf(d)
    ensures Put(d, c) == d + [c]
  {
    if d != [] {
      assert d[0].id in IdsOf(d);
      assert d == [d[0]] + d[1..];
      IdsOfCons(d[0], d[1..]);
      PutIsAppend(d[1..], c);
    }
  }

  // ---------------------------------------------------------------------------
  // Champions
  // ---------------------------------------------------------------------------

  function ChampionIds(m: map<string, Champion>): set<Id> {
    set key | key in m :: m[key].id
  }

  function WithoutChampion(m: map<string, Champion>, id: Id): map<string, Champion> {
    map key | key in m && m[key].id != id :: m[key]
  }

  /** The candidate takes every named niche that is free or whose score it reaches. */
  function Compete(niches: map<string, Champion>, names: seq<string>, c: Champion): map<string, Champion> {
    if names == [] then niches
    else
      var before := Compete(niches, names[..|names| - 1], c);
      var name := names[|names| - 1];
      if name !in before || c.quality >= before[name].quality then before[name := c] else before
  }

  /** A mechanism changes hands only for strictly better quality. */
  predicate Wins(m: map<string, Champion>, key: string, c: Champion) {
    key != "" && (key !in m || c.quality > m[key].quality)
  }

  function Enthrone(m: map<string, Champion>, key: string, c: Champion): map<string, Champion> {
    if Wins(m, key, c) then m[key := c] else m
  }

  lemma {:induction false} CompeteIds(niches: map<string, Champion>, names: seq<string>, c: Champion)
    ensures ChampionIds(Compete(niches, names, c)) <= ChampionIds(niches) + {c.id}
  {
    if names != [] {
      CompeteIds(niches, names[..|names| - 1], c);
    }
  }

  // ---------------------------------------------------------------------------
  // Removal, routing, constraints
  // ---------------------------------------------------------------------------

  function Remove(l: Lanes, id: Id): Lanes {
    l.(answer := l.answer - {id}, novelty := l.novelty - {id}, latent := l.latent - {id}, patches := l.patches - {id},
       rarity := Drop(l.rarity, id), auxiliary := l.auxiliary - {id},
       dormant := Drop(l.dormant, id), conditions := l.conditions - {id},
       failures := l.failures - {id}, tombstones := l.tombstones - {id},
       niches := WithoutChampion(l.niches, id), mechanisms := WithoutChampion(l.mechanisms - {id}, id),
       seeds := FirstOccurrences(AllSeeds(Drop(l.rarity, id))))
  }

  function Joined(lessons: seq<string>): string {
    if lessons == [] then "" else if |lessons| == 1 then lessons[0] else lessons[0] + "; " + Joined(lessons[1..])
  }

  /** Lessons are joined by a semicolon and a blank between any two of them. */
  lemma {:induction false} JoinedIs(a: seq<string>, b: seq<string>, x: string)
    ensures Joined([]) == "" && Joined([x]) == x
    ensures a != [] && b != [] ==> Joined(a + b) == Joined(a) + "; " + Joined(b)
    decreases |a|
  {
    if |a| > 1 && b != [] {
      JoinedIs(a[1..], b, x);
      assert (a + b)[1..] == a[1..] + b;
      assert a[0] + "; " + (Joined(a[1..]) + "; " + Joined(b)) == (a[0] + "; " + Joined(a[1..])) + "; " + Joined(b);
    } else if |a| == 1 && b != [] {
      assert (a + b)[1..] == b;
    }
  }

  function FailureSignature(c: Candidate, a: Assignment): string {
    if a.signature != "" then a.signature
    else if Joined(c.failures.lessons) != "" then Joined(c.failures.lessons)
    else "culled_without_specific_signature"
  }

  predicate GoesToFailure(c: Candidate, a: Assignment) {
    TerminalFailure(a.fate) || c.traits.negativeOnly
  }

  function ParkingCondition(a: Assignment): string {
    if a.condition != "" then a.condition else "reactivate_when_search_needs_diversity_or_complementarity"
  }

  function NicheScore(t: Traits): real {
    if t.finalQuality >= t.searchQuality then t.finalQuality else t.searchQuality
  }

  /** The lanes every live candidate competes for, whatever its fate. */
  function Explore(l: Lanes, c: Candidate): Lanes {
    var t := c.traits;
    l.(niches := Compete(l.niches, t.niches, Champion(c.id, NicheScore(t))),
       rarity := if t.rare then Put(l.rarity, c) else l.rarity,
       seeds := if t.rare then FirstOccurrences(l.seeds + t.seeds) else l.seeds,
       novelty := if t.novel then l.novelty[c.id := c] else l.novelty,
       mechanisms := Enthrone(l.mechanisms, t.mechanism, Champion(c.id, t.finalQuality)),
       patches := if t.isPatch && !t.sourceBlocked then l.patches[c.id := c] else l.patches)
  }

  /** The one lane the fate names. */
  function Place(l: Lanes, c: Candidate, a: Assignment): Lanes {
    l.(answer := if a.fate == Elite && !c.traits.sourceBlocked then l.answer[c.id := c] else l.answer,
       auxiliary := if a.fate == Auxiliary then l.auxiliary[c.id := c] else l.auxiliary,
       dormant := if a.fate == Dormant then Put(l.dormant, c) else l.dormant,
       conditions := if a.fate == Dormant then l.conditions[c.id := ParkingCondition(a)] else l.conditions)
  }

  /** `route_candidate`, apart from the latent lane. */
  function Route(l: Lanes, c: Candidate, a: Assignment): Lanes {
    if GoesToFailure(c, a) then l.(failures := l.failures[c.id := FailureSignature(c, a)])
    else Place(Explore(l, c), c, a)
  }

  function NewConstraints(c: Candidate, a: Assignment): seq<Constraint> {
    var f := c.failures;
    (if (a.signature != "" || f.lessons != []) && f.structurallyBlocked && TerminalFailure(a.fate) && !f.hasDelta
     then [LineageFreeze(f.target, f.summary, c.id)] else []) +
    seq(|f.lessons|, k requires 0 <= k < |f.lessons| => LessonRule(f.target, f.lessons[k], c.id))
  }

  predicate Known(rs: seq<Constraint>, id: ConstraintId) {
    exists k :: 0 <= k < |rs| && IdOf(rs[k]) == id
  }

  /** Records are appended unless their id is already there. */
  function AddConstraints(rs: seq<Constraint>, more: seq<Constraint>): seq<Constraint> {
    if more == [] then rs
    else
      var before := AddConstraints(rs, more[..|more| - 1]);
      var last := more[|more| - 1];
      if Known(before, IdOf(last)) then before else before + [last]
  }

  ghost predicate UniqueIds(rs: seq<Constraint>) {
    forall i, j :: 0 <= i < j < |rs| ==> IdOf(rs[i]) != IdOf(rs[j])
  }

  /** Old constraints stay where they are, new ids are all present, and no id is there twice. */
  lemma {:induction false} ConstraintsAreUnique(rs: seq<Constraint>, more: seq<Constraint>)
    requires UniqueIds(rs)
    ensures rs <= AddConstraints(rs, more) && UniqueIds(AddConstraints(rs, more))
    ensures forall id :: Known(AddConstraints(rs, more), id) <==> Known(rs, id) || Known(more, id)
  {
    if more != [] {
      var front, last := more[..|more| - 1], more[|more| - 1];
      ConstraintsAreUnique(rs, front);
      assert more == front + [last];
      KnownSnoc(front, last);
      KnownSnoc(AddConstraints(rs, front), last);
    }
  }

  lemma KnownSnoc(rs: seq<Constraint>, r: Constraint)
    ensures forall id :: Known(rs + [r], id) <==> Known(rs, id) || id == IdOf(r)
  {
    forall id | Known(rs, id) ensures Known(rs + [r], id) {
      var k :| 0 <= k < |rs| && IdOf(rs[k]) == id;
      assert IdOf((rs + [r])[k]) == id;
    }
    assert IdOf((rs + [r])[|rs|]) == IdOf(r);
  }

  // ---------------------------------------------------------------------------
  // One assignment, one reactivation
  // ---------------------------------------------------------------------------

  function Marked(c: Candidate, a: Assignment): Candidate {
    c.(fate := a.fate)
  }

  function Bury(l: Lanes, c: Candidate, a: Assignment): Lanes {
    if TerminalFailure(a.fate) then l.(tombstones := l.tombstones[c.id := a.fate]) else l
  }

  /** The new fate indexed, old memberships gone, a tombstone if the fate is terminal. */
  function Cleared(l: Lanes, c: Candidate, a: Assignment): Lanes {
    Bury(Remove(l.(fates := l.fates[c.id := a.fate]), c.id), c, a)
  }

  function One(reported: bool, t: Target): seq<Target> {
    if reported then [t] else []
  }

  function ExploringTargets(l: Lanes, c: Candidate): seq<Target> {
    var t := c.traits;
    Explored(c.latent.frontier, t.rare, t.novel, Wins(l.mechanisms, t.mechanism, Champion(c.id, t.finalQuality)),
             t.isPatch, t.sourceBlocked)
  }

  function Explored(latent: bool, rare: bool, novel: bool, wins: bool, patch: bool, blocked: bool): seq<Target> {
    One(latent, ToLatent) + [ToDiversity] + One(rare, ToRarity) + One(novel, ToNovelty) + One(wins, ToMechanisms)
    + One(patch, if blocked then PatchRefused else ToPatches)
  }

  function FateTargets(c: Candidate, a: Assignment): seq<Target> {
    match a.fate
    case Elite => [if c.traits.sourceBlocked then AnswerRefused else ToAnswers]
    case Auxiliary => [ToAuxiliary]
    case Dormant => [ToDormant]
    case Incubating => [ToIncubation]
    case _ => []
  }

  /** What `route_candidate` reports when it starts from the lanes `l`. */
  function TargetsOf(l: Lanes, c: Candidate, a: Assignment): seq<Target> {
    if GoesToFailure(c, a) then [ToFailures] else ExploringTargets(l, c) + FateTargets(c, a)
  }

  function NonEmpty(parts: seq<string>): seq<string> {
    if parts == [] then [] else (if parts[0] != "" then [parts[0]] else []) + NonEmpty(parts[1..])
  }

  function Genes(c: Candidate): string {
    Joined(NonEmpty([c.failures.claim] + c.traits.seeds + c.failures.lessons))
  }

  /** The assignment as it is returned and kept in the history. */
  function Reported(l: Lanes, c: Candidate, a: Assignment): Assignment {
    a.(targets := a.targets + TargetsOf(Cleared(l, c, a), Marked(c, a), a),
       genes := if a.genes != "" then a.genes else Genes(c))
  }

  function Settled(l: Lanes, c: Candidate, a: Assignment): Lanes {
    Route(Cleared(l, c, a), Marked(c, a), a).(constraints := AddConstraints(l.constraints, NewConstraints(c, a)))
  }

  /** What the latent lane may hold afterwards: its own quotas decide the rest. */
  predicate LatentMoves(before: set<Id>, c: Candidate, a: Assignment, after: set<Id>) {
    if !GoesToFailure(c, a) && c.latent.frontier then after <= before + {c.id} else after == before - {c.id}
  }

  /** `update` for one assignment of a known candidate. */
  predicate Applied(l: Lanes, c: Candidate, a: Assignment, l': Lanes) {
    LatentMoves(l.latent, c, a, l'.latent) && l' == Settled(l, c, a).(latent := l'.latent)
  }

  function Reactivated(l: Lanes, id: Id): Lanes {
    Remove(l, id).(fates := l.fates[id := Active])
  }

  predicate Frozen(rs: seq<Constraint>, target: string) {
    exists k :: 0 <= k < |rs| && rs[k].LineageFreeze? && rs[k].target == target
  }

  predicate ReactivationAllowed(rs: seq<Constraint>, c: Candidate) {
    !Frozen(rs, c.failures.target) || !c.failures.structurallyBlocked || c.failures.hasDelta
  }

  function FirstAllowed(d: seq<Candidate>, rs: seq<Constraint>): Option<Candidate> {
    if d == [] then None
    else if ReactivationAllowed(rs, d[0]) then Some(d[0])
    else FirstAllowed(d[1..], rs)
  }

  function Find(d: seq<Candidate>, id: Id): Option<Candidate> {
    if d == [] then None else if d[0].id == id then Some(d[0]) else Find(d[1..], id)
  }

  /** Which parked candidate `reactivate_dormant` takes.  An empty id takes the first one, unchecked. */
  function Chosen(l: Lanes, choice: Option<Id>): Option<Candidate> {
    match choice
    case None => FirstAllowed(l.dormant, l.constraints)
    case Some(id) =>
      if id == "" then (if l.dormant == [] then None else Some(l.dormant[0]))
      else if Find(l.dormant, id).Some? && ReactivationAllowed(l.constraints, Find(l.dormant, id).value)
      then Find(l.dormant, id)
      else None
  }

  // ---------------------------------------------------------------------------
  // Consistency
  // ---------------------------------------------------------------------------

  datatype Standing = Standing(
    fate: Option<Fate>, tombstone: Option<Fate>,
    answer: bool, auxiliary: bool, dormant: bool, failure: bool, live: bool)

  /** Held by a lane that feeds the search: latent, novelty, patches, rarity, mechanisms, niches. */
  predicate Live(l: Lanes, id: Id) {
    || id in l.latent || id in l.novelty || id in l.patches || id in IdsOf(l.rarity)
    || id in ChampionIds(l.mechanisms) || id in ChampionIds(l.niches)
  }

  function StandingOf(l: Lanes, id: Id): Standing {
    Standing(if id in l.fates then Some(l.fates[id]) else None,
             if id in l.tombstones then Some(l.tombstones[id]) else None,
             id in l.answer, id in l.auxiliary, id in IdsOf(l.dormant), id in l.failures, Live(l, id))
  }

  predicate Sound(st: Standing) {
    && (st.tombstone.Some? <==> st.fate.Some? && TerminalFailure(st.fate.value))
    && (st.tombstone.Some? ==> st.tombstone == st.fate && st.failure)
    && (st.answer ==> st.fate == Some(Elite))
    && (st.auxiliary ==> st.fate == Some(Auxiliary))
    && (st.dormant ==> st.fate == Some(Dormant))
    && (st.failure ==> !st.answer && !st.auxiliary && !st.dormant && !st.live)
    && (st.failure || st.live ==> st.fate.Some?)
  }

  /** The parts of consistency that are about whole lanes. */
  ghost predicate InShape(l: Lanes) {
    && IdsDistinct(l.dormant) && l.conditions.Keys == IdsOf(l.dormant)
    && (forall c :: c in l.dormant ==> c.fate == Dormant && c.id != "")
    && IdsDistinct(l.rarity) && l.seeds == FirstOccurrences(AllSeeds(l.rarity))
  }

  ghost predicate Consistent(l: Lanes) {
    (forall id :: Sound(StandingOf(l, id))) && InShape(l) && UniqueIds(l.constraints)
  }

  /** Consistency in terms of whole lanes. */
  lemma ConsistentMeans(l: Lanes)
    requires Consistent(l)
    ensures forall id :: id in l.tombstones <==> id in l.fates && TerminalFailure(l.fates[id])
    ensures l.tombstones.Keys <= l.failures.Keys
    ensures l.answer.Keys !! l.auxiliary.Keys !! IdsOf(l.dormant) !! l.failures.Keys
    ensures forall id :: Live(l, id) ==> id !in l.failures
    ensures forall id :: Live(l, id) || id in l.failures ==> id in l.fates
  {
    forall id ensures Placed(l, id) {
      assert Sound(StandingOf(l, id));
    }
    forall id ensures id in l.tombstones <==> id in l.fates && TerminalFailure(l.fates[id]) { assert Placed(l, id); }
    forall id | id in l.tombstones ensures id in l.failures { assert Placed(l, id); }
    forall id | id in l.failures ensures id in l.fates && !Live(l, id) { assert Placed(l, id); }
    forall id | Live(l, id) ensures id in l.fates && id !in l.failures { assert Placed(l, id); }
    forall id | id in l.answer ensures id in l.fates && id !in l.auxiliary && id !in l.failures {
      assert Placed(l, id);
    }
    forall id | id in l.auxiliary ensures id in l.fates && id !in l.failures { assert Placed(l, id); }
    forall id | id in IdsOf(l.dormant)
      ensures id in l.fates && id !in l.answer && id !in l.auxiliary && id !in l.failures
    {
      assert Placed(l, id);
    }
  }

  predicate Placed(l: Lanes, id: Id) {
    && (id in l.tombstones <==> id in l.fates && TerminalFailure(l.fates[id]))
    && (id in l.tombstones ==> id in l.failures)
    && (id in l.answer ==> id in l.fates && l.fates[id] == Elite)
    && (id in l.auxiliary ==> id in l.fates && l.fates[id] == Auxiliary)
    && (id in IdsOf(l.dormant) ==> id in l.fates && l.fates[id] == Dormant)
    && (id in l.failures || Live(l, id) ==> id in l.fates)
    && (id in l.failures ==> id !in l.answer && id !in l.auxiliary && id !in IdsOf(l.dormant) && !Live(l, id))
  }

  /** Losing live lanes, and nothing else, keeps an id sound. */
  predicate Quieter(before: Standing, after: Standing) {
    after == before.(live := after.live) && (after.live ==> before.live)
  }

  lemma RemoveForgets(l: Lanes, x: Id)
    ensures StandingOf(Remove(l, x), x) ==
            Standing(if x in l.fates then Some(l.fates[x]) else None, None, false, false, false, false, false)
    ensures forall id :: id != x ==> Quieter(StandingOf(l, id), StandingOf(Remove(l, x), id))
  {
    DropFacts(l.rarity, x);
    DropFacts(l.dormant, x);
  }

  lemma PutIds(d: seq<Candidate>, c: Candidate)
    requires c.id !in IdsOf(d)
    ensures Put(d, c) == d + [c] && IdsOf(Put(d, c)) == IdsOf(d) + {c.id}
    ensures IdsDistinct(d) ==> IdsDistinct(Put(d, c))
  {
    PutIsAppend(d, c);
    IdsOfSnoc(d, c);
  }

  lemma EnthroneIds(m: map<string, Champion>, key: string, c: Champion)
    ensures ChampionIds(Enthrone(m, key, c)) <= ChampionIds(m) + {c.id}
  {
  }

  lemma ExploreTouchesOne(l: Lanes, c: Candidate, id: Id)
    requires c.id !in IdsOf(l.rarity) && id != c.id
    ensures Live(Explore(l, c), id) ==> Live(l, id)
  {
    PutIds(l.rarity, c);
    CompeteIds(l.niches, c.traits.niches, Champion(c.id, NicheScore(c.traits)));
    EnthroneIds(l.mechanisms, c.traits.mechanism, Champion(c.id, c.traits.finalQuality));
  }

  lemma PlaceTouchesOne(l: Lanes, c: Candidate, a: Assignment, id: Id)
    requires c.id !in IdsOf(l.dormant)
    ensures Live(Place(l, c, a), id) == Live(l, id)
    ensures id != c.id ==> StandingOf(Place(l, c, a), id) == StandingOf(l, id)
  {
    PlaceIsNotLive(l, c, a, id);
    ParkingTouchesOne(l.dormant, c, id);
  }

  lemma PlaceIsNotLive(l: Lanes, c: Candidate, a: Assignment, id: Id)
    ensures Live(Place(l, c, a), id) == Live(l, id)
  {
  }

  lemma ParkingTouchesOne(d: seq<Candidate>, c: Candidate, id: Id)
    requires c.id !in IdsOf(d)
    ensures id != c.id ==> (id in IdsOf(Put(d, c)) <==> id in IdsOf(d))
  {
    PutIds(d, c);
  }

  /** Routing one candidate only ever costs another a live lane. */
  lemma RouteTouchesOne(l: Lanes, c: Candidate, a: Assignment, id: Id)
    requires c.id !in IdsOf(l.rarity) && c.id !in IdsOf(l.dormant) && id != c.id
    ensures Quieter(StandingOf(l, id), StandingOf(Route(l, c, a), id))
  {
    if !GoesToFailure(c, a) {
      ExploreTouchesOne(l, c, id);
      PlaceTouchesOne(Explore(l, c), c, a, id);
    }
  }

  lemma PlaceStands(l: Lanes, c: Candidate, a: Assignment)
    requires c.id !in IdsOf(l.dormant) && c.id !in l.answer && c.id !in l.auxiliary
    ensures var r := Place(l, c, a);
            && (c.id in r.answer <==> a.fate == Elite && !c.traits.sourceBlocked)
            && (c.id in r.auxiliary <==> a.fate == Auxiliary)
            && (c.id in IdsOf(r.dormant) <==> a.fate == Dormant)
  {
    PutIds(l.dormant, c);
  }

  /** Where a freshly removed candidate stands after routing. */
  lemma RouteStands(l: Lanes, c: Candidate, a: Assignment)
    requires c.id !in IdsOf(l.dormant)
    requires StandingOf(l, c.id) == Standing(Some(a.fate), if TerminalFailure(a.fate) then Some(a.fate) else None,
                                             false, false, false, false, false)
    ensures BelongsAs(StandingOf(Route(l, c, a), c.id), c, a)
  {
    if GoesToFailure(c, a) {
      assert Live(Route(l, c, a), c.id) == Live(l, c.id);
    } else {
      PlaceStands(Explore(l, c), c, a);
    }
  }

  lemma PutKeepsSeeds(d: seq<Candidate>, c: Candidate)
    requires c.id !in IdsOf(d)
    ensures FirstOccurrences(FirstOccurrences(AllSeeds(d)) + c.traits.seeds) == FirstOccurrences(AllSeeds(Put(d, c)))
  {
    PutIds(d, c);
    assert (d + [c])[..|d|] == d;
    FirstOccurrencesAppend(AllSeeds(d), c.traits.seeds);
  }

  lemma RemoveKeepsShape(l: Lanes, id: Id)
    requires InShape(l)
    ensures InShape(Remove(l, id)) && id !in IdsOf(Remove(l, id).dormant) && id !in IdsOf(Remove(l, id).rarity)
  {
    DropFacts(l.dormant, id);
    DropFacts(l.rarity, id);
  }

  lemma ExploreKeepsShape(l: Lanes, c: Candidate)
    requires InShape(l) && c.id !in IdsOf(l.rarity)
    ensures InShape(Explore(l, c))
  {
    PutIds(l.rarity, c);
    PutKeepsSeeds(l.rarity, c);
  }

  lemma PlaceKeepsShape(l: Lanes, c: Candidate, a: Assignment)
    requires InShape(l) && c.id !in IdsOf(l.dormant) && c.fate == a.fate && c.id != ""
    ensures InShape(Place(l, c, a))
  {
    PutIds(l.dormant, c);
  }

  lemma RouteKeepsShape(l: Lanes, c: Candidate, a: Assignment)
    requires InShape(l) && c.id !in IdsOf(l.rarity) && c.id !in IdsOf(l.dormant) && c.fate == a.fate && c.id != ""
    ensures InShape(Route(l, c, a))
  {
    if !GoesToFailure(c, a) {
      ExploreKeepsShape(l, c);
      PlaceKeepsShape(Explore(l, c), c, a);
    }
  }

  lemma ClearedStands(l: Lanes, c: Candidate, a: Assignment)
    ensures c.id !in IdsOf(Cleared(l, c, a).dormant) && c.id !in IdsOf(Cleared(l, c, a).rarity)
    ensures Cleared(l, c, a).latent == l.latent - {c.id}
    ensures StandingOf(Cleared(l, c, a), c.id) ==
            Standing(
              Some(a.fate), if TerminalFailure(a.fate) then Some(a.fate) else None, false, false, false, false, false)
  {
    var fated := l.(fates := l.fates[c.id := a.fate]);
    RemoveForgets(fated, c.id);
    DropFacts(l.dormant, c.id);
    DropFacts(l.rarity, c.id);
    assert Live(Cleared(l, c, a), c.id) == Live(Remove(fated, c.id), c.id);
  }

  lemma BuryTouchesOne(l: Lanes, c: Candidate, a: Assignment, id: Id)
    requires id != c.id
    ensures StandingOf(Bury(l, c, a), id) == StandingOf(l, id)
  {
    assert Live(Bury(l, c, a), id) == Live(l, id);
  }

  lemma RemoveTouchesOne(l: Lanes, x: Id, id: Id)
    requires id != x
    ensures Quieter(StandingOf(l, id), StandingOf(Remove(l, x), id))
  {
    RemoveForgets(l, x);
  }

  lemma ClearedTouchesOne(l: Lanes, c: Candidate, a: Assignment, id: Id)
    requires id != c.id
    ensures Quieter(StandingOf(l, id), StandingOf(Cleared(l, c, a), id))
  {
    var fated := l.(fates := l.fates[c.id := a.fate]);
    assert Live(fated, id) == Live(l, id);
    RemoveTouchesOne(fated, c.id, id);
    BuryTouchesOne(Remove(fated, c.id), c, a, id);
  }

  lemma ClearedKeepsShape(l: Lanes, c: Candidate, a: Assignment)
    requires InShape(l)
    ensures InShape(Cleared(l, c, a))
  {
    RemoveKeepsShape(l.(fates := l.fates[c.id := a.fate]), c.id);
  }

  /** The latent lane and the constraints can only change whether an id is live. */
  lemma LatentChange(l: Lanes, latent: set<Id>, constraints: seq<Constraint>, id: Id)
    ensures var l' := l.(latent := latent, constraints := constraints);
            && StandingOf(l', id) == StandingOf(l, id).(live := Live(l', id))
            && (Live(l', id) ==> Live(l, id) || id in latent)
            && (id in l.latent || id !in latent ==> Live(l', id) ==> Live(l, id))
  {
  }

  /** Where an assigned candidate belongs. */
  predicate BelongsAs(st: Standing, c: Candidate, a: Assignment) {
    && st.fate == Some(a.fate) && st.tombstone == (if TerminalFailure(a.fate) then Some(a.fate) else None)
    && (st.failure <==> GoesToFailure(c, a))
    && (st.answer <==> a.fate == Elite && !c.traits.sourceBlocked && !c.traits.negativeOnly)
    && (st.auxiliary <==> a.fate == Auxiliary && !c.traits.negativeOnly)
    && (st.dormant <==> a.fate == Dormant && !c.traits.negativeOnly)
    && (st.live ==> !GoesToFailure(c, a))
  }

  /** Where `update` puts the candidate it assigns. */
  lemma AssignedCandidateStands(l: Lanes, c: Candidate, a: Assignment, l': Lanes)
    requires Applied(l, c, a, l')
    ensures BelongsAs(StandingOf(l', c.id), c, a)
  {
    ClearedStands(l, c, a);
    RouteStands(Cleared(l, c, a), Marked(c, a), a);
    LatentChange(Route(Cleared(l, c, a), Marked(c, a), a), l'.latent, l'.constraints, c.id);
  }

  // ---------------------------------------------------------------------------
  // Champions, causes of failure, freezes
  // ---------------------------------------------------------------------------

  lemma {:induction false} CompeteIff(niches: map<string, Champion>, names: seq<string>, c: Champion, n: string)
    ensures n in Compete(niches, names, c) <==> n in niches || n in names
    ensures n in names && (n !in niches || c.quality >= niches[n].quality) ==> Compete(niches, names, c)[n] == c
    ensures n in niches && !(n in names && c.quality >= niches[n].quality) ==>
              Compete(niches, names, c)[n] == niches[n]
    decreases |names|
  {
    if names != [] {
      CompeteIff(niches, names[..|names| - 1], c, n);
      assert forall x :: x in names <==> x in names[..|names| - 1] || x == names[|names| - 1];
    }
  }

  /** The better of the two qualities. */
  predicate IsBetterQuality(q: real, t: Traits) {
    q >= t.finalQuality && q >= t.searchQuality && (q == t.finalQuality || q == t.searchQuality)
  }

  /**
   A live candidate takes each niche it names unless another holds it with a
   better score; every other niche stays with its holder, and no niche stays
   with a candidate that no longer competes for it.
   */
  lemma NicheAfter(l: Lanes, c: Candidate, a: Assignment, l': Lanes, n: string)
    requires Applied(l, c, a, l') && !GoesToFailure(c, a)
    ensures var held := n in l.niches && l.niches[n].id != c.id;
            var best := NicheScore(c.traits);
            && IsBetterQuality(best, c.traits)
            && (n in l'.niches <==> held || n in c.traits.niches)
            && (n in c.traits.niches && (held ==> best >= l.niches[n].quality) ==> l'.niches[n] == Champion(c.id, best))
            && (held && !(n in c.traits.niches && best >= l.niches[n].quality) ==> l'.niches[n] == l.niches[n])
  {
    CompeteIff(WithoutChampion(l.niches, c.id), c.traits.niches, Champion(c.id, NicheScore(c.traits)), n);
  }

  /** A mechanism goes to a live candidate only for a strictly better quality than that of another holder. */
  lemma MechanismAfter(l: Lanes, c: Candidate, a: Assignment, l': Lanes)
    requires Applied(l, c, a, l') && !GoesToFailure(c, a) && c.traits.mechanism !in {"", c.id}
    ensures var key := c.traits.mechanism;
            var held := key in l.mechanisms && l.mechanisms[key].id != c.id;
            && key in l'.mechanisms
            && l'.mechanisms[key] == if held && c.traits.finalQuality <= l.mechanisms[key].quality
                                     then l.mechanisms[key] else Champion(c.id, c.traits.finalQuality)
  {
  }

  /** Failures are the culled, the failed and those that may only be recorded negatively; tombstones the first two. */
  lemma FailureIff(l: Lanes, c: Candidate, a: Assignment, l': Lanes)
    requires Applied(l, c, a, l')
    ensures c.id in l'.failures <==> a.fate in {Culled, Failed} || c.traits.negativeOnly
    ensures c.id in l'.tombstones <==> a.fate in {Culled, Failed}
    ensures c.id in l'.answer <==> a.fate == Elite && !c.traits.sourceBlocked && !c.traits.negativeOnly
  {
    AssignedCandidateStands(l, c, a, l');
    StandingTells(l', c.id);
  }

  lemma StandingTells(l: Lanes, id: Id)
    ensures StandingOf(l, id).failure == (id in l.failures) && StandingOf(l, id).answer == (id in l.answer)
    ensures StandingOf(l, id).tombstone.Some? == (id in l.tombstones)
  {
  }

  /** A failure is recorded under the signature it was given, or under another nonempty one. */
  lemma FailureHasSignature(l: Lanes, c: Candidate, a: Assignment, l': Lanes)
    requires Applied(l, c, a, l') && (a.fate in {Culled, Failed} || c.traits.negativeOnly)
    ensures c.id in l'.failures && l'.failures[c.id] != ""
    ensures a.signature != "" ==> l'.failures[c.id] == a.signature
  {
    RouteFails(Cleared(l, c, a), Marked(c, a), a);
  }

  lemma RouteFails(l: Lanes, c: Candidate, a: Assignment)
    requires a.fate in {Culled, Failed} || c.traits.negativeOnly
    ensures var failures := Route(l, c, a).failures;
            && c.id in failures && failures[c.id] != "" && (a.signature != "" ==> failures[c.id] == a.signature)
  {
    assert |"culled_without_specific_signature"| == 33;
  }

  /** A parked candidate waits for the condition it was given, or for a stock one. */
  lemma ParkedWithCondition(l: Lanes, c: Candidate, a: Assignment, l': Lanes)
    requires Applied(l, c, a, l') && a.fate == Dormant && !c.traits.negativeOnly
    ensures c.id in l'.conditions && l'.conditions[c.id] != ""
    ensures a.condition != "" ==> l'.conditions[c.id] == a.condition
  {
    RouteParks(Cleared(l, c, a), Marked(c, a), a);
  }

  lemma RouteParks(l: Lanes, c: Candidate, a: Assignment)
    requires a.fate == Dormant && !c.traits.negativeOnly
    ensures var conditions := Route(l, c, a).conditions;
            && c.id in conditions && conditions[c.id] != "" && (a.condition != "" ==> conditions[c.id] == a.condition)
  {
    assert |"reactivate_when_search_needs_diversity_or_complementarity"| == 57;
  }

  /** One assignment freezes a lineage exactly when it rejects a blocked member of it that brought lessons only. */
  lemma FreezeIff(l: Lanes, c: Candidate, a: Assignment, l': Lanes, target: string)
    requires UniqueIds(l.constraints) && Applied(l, c, a, l')
    ensures Frozen(l'.constraints, target) <==>
              || Frozen(l.constraints, target)
              || (&& target == c.failures.target && a.fate in {Culled, Failed} && c.failures.structurallyBlocked
                  && !c.failures.hasDelta && (a.signature != "" || c.failures.lessons != []))
  {
    var more := NewConstraints(c, a);
    ConstraintsAreUnique(l.constraints, more);
    FrozenIffKnown(l.constraints, target);
    FrozenIffKnown(more, target);
    FrozenIffKnown(l'.constraints, target);
    FreezeOfNew(c, a, target);
  }

  lemma FrozenIffKnown(rs: seq<Constraint>, target: string)
    ensures Frozen(rs, target) <==> exists summary, source :: Known(rs, FreezeId(target, summary, source))
  {
    if k: int :| 0 <= k < |rs| && rs[k].LineageFreeze? && rs[k].target == target {
      assert IdOf(rs[k]) == FreezeId(target, rs[k].summary, rs[k].source);
      assert Known(rs, IdOf(rs[k]));
    }
  }

  lemma FreezeOfNew(c: Candidate, a: Assignment, target: string)
    ensures Frozen(NewConstraints(c, a), target) <==>
              && target == c.failures.target && TerminalFailure(a.fate) && c.failures.structurallyBlocked
              && !c.failures.hasDelta && (a.signature != "" || c.failures.lessons != [])
  {
    var more := NewConstraints(c, a);
    if (a.signature != "" || c.failures.lessons != []) && c.failures.structurallyBlocked && TerminalFailure(a.fate)
       && !c.failures.hasDelta {
      assert more[0] == LineageFreeze(c.failures.target, c.failures.summary, c.id);
    } else {
      assert forall k :: 0 <= k < |more| ==> more[k].LessonRule?;
    }
  }

  /** Every lesson of an assigned candidate is on record as a rule for its lineage. */
  lemma LessonsAreRecorded(l: Lanes, c: Candidate, a: Assignment, l': Lanes, lesson: string)
    requires UniqueIds(l.constraints) && Applied(l, c, a, l') && lesson in c.failures.lessons
    ensures Known(l'.constraints, LessonId(c.failures.target, lesson))
  {
    var more := NewConstraints(c, a);
    ConstraintsAreUnique(l.constraints, more);
    var k :| 0 <= k < |c.failures.lessons| && c.failures.lessons[k] == lesson;
    var shift := |more| - |c.failures.lessons|;
    assert IdOf(more[shift + k]) == LessonId(c.failures.target, lesson);
    assert Known(more, LessonId(c.failures.target, lesson));
  }

  /** The live lanes a candidate is in are the reported ones; a niche may be lost to another. */
  ghost predicate TellsLive(ts: seq<Target>, l: Lanes, id: Id) {
    && (ToRarity in ts <==> id in IdsOf(l.rarity)) && (ToNovelty in ts <==> id in l.novelty)
    && (ToPatches in ts <==> id in l.patches) && (ToMechanisms in ts <==> id in ChampionIds(l.mechanisms))
    && (id in ChampionIds(l.niches) ==> ToDiversity in ts)
  }

  ghost predicate TellsPlace(ts: seq<Target>, l: Lanes, id: Id) {
    && (ToFailures in ts <==> id in l.failures) && (ToAnswers in ts <==> id in l.answer)
    && (ToAuxiliary in ts <==> id in l.auxiliary) && (ToDormant in ts <==> id in IdsOf(l.dormant))
  }

  lemma InOneOfSix(a: seq<Target>, b: seq<Target>, c: seq<Target>, d: seq<Target>, e: seq<Target>, f: seq<Target>)
    ensures forall t :: t in a + b + c + d + e + f <==> t in a || t in b || t in c || t in d || t in e || t in f
  {
  }

  lemma ExploredMembers(latent: bool, rare: bool, novel: bool, wins: bool, patch: bool, blocked: bool)
    ensures forall t :: t in Explored(latent, rare, novel, wins, patch, blocked) <==>
              || (latent && t == ToLatent) || t == ToDiversity || (rare && t == ToRarity) || (novel && t == ToNovelty)
              || (wins && t == ToMechanisms) || (patch && t == if blocked then PatchRefused else ToPatches)
  {
    InOneOfSix(One(latent, ToLatent), [ToDiversity], One(rare, ToRarity), One(novel, ToNovelty),
               One(wins, ToMechanisms), One(patch, if blocked then PatchRefused else ToPatches));
  }

  lemma ExploringMembers(l: Lanes, c: Candidate)
    ensures var t, wins := c.traits, Wins(l.mechanisms, c.traits.mechanism, Champion(c.id, c.traits.finalQuality));
            forall x :: x in ExploringTargets(l, c) <==>
              || (c.latent.frontier && x == ToLatent) || x == ToDiversity || (t.rare && x == ToRarity)
              || (t.novel && x == ToNovelty) || (wins && x == ToMechanisms)
              || (t.isPatch && x == if t.sourceBlocked then PatchRefused else ToPatches)
  {
    var t := c.traits;
    ExploredMembers(c.latent.frontier, t.rare, t.novel,
                    Wins(l.mechanisms, t.mechanism, Champion(c.id, t.finalQuality)), t.isPatch, t.sourceBlocked);
  }

  lemma FateMembers(c: Candidate, a: Assignment)
    ensures var ts := FateTargets(c, a);
            && (ToAnswers in ts <==> a.fate == Elite && !c.traits.sourceBlocked)
            && (ToAuxiliary in ts <==> a.fate == Auxiliary) && (ToDormant in ts <==> a.fate == Dormant)
            && forall t :: t in ts ==> t in {ToAnswers, AnswerRefused, ToAuxiliary, ToDormant, ToIncubation}
  {
  }

  lemma EnthronedIff(m: map<string, Champion>, key: string, c: Champion)
    requires c.id !in ChampionIds(m)
    ensures c.id in ChampionIds(Enthrone(m, key, c)) <==> Wins(m, key, c)
  {
    if Wins(m, key, c) {
      assert Enthrone(m, key, c)[key] == c;
    }
  }

  lemma ExploringTells(l: Lanes, c: Candidate)
    requires c.id !in IdsOf(l.rarity) && !Live(l, c.id)
    ensures TellsLive(ExploringTargets(l, c), Explore(l, c), c.id)
  {
    ExploringMembers(l, c);
    PutIds(l.rarity, c);
    EnthronedIff(l.mechanisms, c.traits.mechanism, Champion(c.id, c.traits.finalQuality));
  }

  lemma LiveTold(l: Lanes, c: Candidate, a: Assignment)
    requires c.id !in IdsOf(l.rarity) && !Live(l, c.id)
    ensures TellsLive(TargetsOf(l, c, a), Route(l, c, a), c.id)
  {
    if !GoesToFailure(c, a) {
      ExploringTells(l, c);
      FateMembers(c, a);
    }
  }

  lemma PlaceTold(l: Lanes, c: Candidate, a: Assignment)
    requires c.id !in IdsOf(l.dormant) && c.id !in l.answer && c.id !in l.auxiliary && c.id !in l.failures
    ensures TellsPlace(TargetsOf(l, c, a), Route(l, c, a), c.id)
  {
    if !GoesToFailure(c, a) {
      ExploringMembers(l, c);
      FateMembers(c, a);
      PlaceStands(Explore(l, c), c, a);
    }
  }

  lemma LatentTold(l: Lanes, c: Candidate, a: Assignment)
    ensures ToLatent in TargetsOf(l, c, a) <==> !GoesToFailure(c, a) && c.latent.frontier
  {
    ExploringMembers(l, c);
    FateMembers(c, a);
  }

  /** The report tells the lanes: the candidate is in every reported lane and, apart from niches, in no other. */
  lemma ReportTellsTheLanes(l: Lanes, c: Candidate, a: Assignment, l': Lanes)
    requires Applied(l, c, a, l')
    ensures var ts := TargetsOf(Cleared(l, c, a), Marked(c, a), a);
            TellsLive(ts, l', c.id) && TellsPlace(ts, l', c.id) && (c.id in l'.latent ==> ToLatent in ts)
  {
    var cleared := Cleared(l, c, a);
    ClearedStands(l, c, a);
    assert StandingOf(cleared, c.id).live == Live(cleared, c.id);
    LiveTold(cleared, Marked(c, a), a);
    PlaceTold(cleared, Marked(c, a), a);
    LatentTold(cleared, Marked(c, a), a);
    SameApartFromLatent(Route(cleared, Marked(c, a), a), l', TargetsOf(cleared, Marked(c, a), a), c.id);
  }

  /** A report keeps the given targets and the given gene summary, and else joins what the candidate has. */
  lemma ReportKeepsWhatWasGiven(l: Lanes, c: Candidate, a: Assignment)
    ensures a.targets <= Reported(l, c, a).targets
    ensures a.genes != "" ==> Reported(l, c, a).genes == a.genes
    ensures a.genes == "" && c.failures.claim != "" && c.traits.seeds == [] && c.failures.lessons == [] ==>
              Reported(l, c, a).genes == c.failures.claim
  {
    var parts := [c.failures.claim] + c.traits.seeds + c.failures.lessons;
    if c.traits.seeds == [] && c.failures.lessons == [] {
      assert parts == [c.failures.claim];
      NonEmptyIs(parts);
    }
  }

  /** Empty parts are passed over, the others stay in order. */
  lemma {:induction false} NonEmptyIs(parts: seq<string>)
    ensures forall p :: p in NonEmpty(parts) <==> p in parts && p != ""
    ensures (forall p :: p in parts ==> p != "") ==> NonEmpty(parts) == parts
  {
    if parts != [] {
      assert parts == [parts[0]] + parts[1..] && parts[0] in parts && forall p :: p in parts[1..] ==> p in parts;
      NonEmptyIs(parts[1..]);
    }
  }

  lemma SameApartFromLatent(r: Lanes, l': Lanes, ts: seq<Target>, id: Id)
    requires l' == r.(latent := l'.latent, constraints := l'.constraints)
    ensures TellsLive(ts, l', id) == TellsLive(ts, r, id) && TellsPlace(ts, l', id) == TellsPlace(ts, r, id)
  {
  }

  /** An assignment to one candidate never moves another, except out of a live lane. */
  lemma OthersStand(l: Lanes, c: Candidate, a: Assignment, l': Lanes, id: Id)
    requires Applied(l, c, a, l') && id != c.id
    ensures Quieter(StandingOf(l, id), StandingOf(l', id))
  {
    RoutedStands(l, c, a, id);
    SettledStands(Route(Cleared(l, c, a), Marked(c, a), a), l', id);
    assert id in l'.latent ==> id in l.latent;
    LatentIsLive(l, id);
  }

  lemma RoutedStands(l: Lanes, c: Candidate, a: Assignment, id: Id)
    requires id != c.id
    ensures Quieter(StandingOf(l, id), StandingOf(Route(Cleared(l, c, a), Marked(c, a), a), id))
  {
    ClearedStands(l, c, a);
    ClearedTouchesOne(l, c, a, id);
    RouteTouchesOne(Cleared(l, c, a), Marked(c, a), a, id);
  }

  lemma LatentIsLive(l: Lanes, id: Id)
    ensures id in l.latent ==> StandingOf(l, id).live
  {
  }

  lemma SettledStands(r: Lanes, l': Lanes, id: Id)
    requires l' == r.(latent := l'.latent, constraints := l'.constraints)
    ensures StandingOf(l', id) == StandingOf(r, id).(live := StandingOf(l', id).live)
    ensures StandingOf(l', id).live ==> StandingOf(r, id).live || id in l'.latent
  {
    LatentChange(r, l'.latent, l'.constraints, id);
  }

  lemma AssignmentKeepsShape(l: Lanes, c: Candidate, a: Assignment, l': Lanes)
    requires InShape(l) && UniqueIds(l.constraints) && Applied(l, c, a, l') && c.id != ""
    ensures InShape(l') && UniqueIds(l'.constraints) && l.constraints <= l'.constraints
  {
    ClearedStands(l, c, a);
    ClearedKeepsShape(l, c, a);
    RouteKeepsShape(Cleared(l, c, a), Marked(c, a), a);
    ConstraintsAreUnique(l.constraints, NewConstraints(c, a));
  }

  /** `update` keeps the lanes consistent, one assignment at a time. */
  lemma AssignmentKeepsConsistent(l: Lanes, c: Candidate, a: Assignment, l': Lanes)
    requires Consistent(l) && Applied(l, c, a, l') && c.id != ""
    ensures Consistent(l')
  {
    AssignmentKeepsShape(l, c, a, l');
    forall id ensures Sound(StandingOf(l', id)) {
      assert Sound(StandingOf(l, id));
      StaysSound(l, c, a, l', id);
    }
  }

  lemma StaysSound(l: Lanes, c: Candidate, a: Assignment, l': Lanes, id: Id)
    requires Applied(l, c, a, l') && Sound(StandingOf(l, id))
    ensures Sound(StandingOf(l', id))
  {
    if id == c.id {
      AssignedCandidateStands(l, c, a, l');
    } else {
      OthersStand(l, c, a, l', id);
    }
  }

  lemma ReactivatedStands(l: Lanes, x: Id, id: Id)
    ensures id == x ==>
              StandingOf(Reactivated(l, x), id) == Standing(Some(Active), None, false, false, false, false, false)
    ensures id != x ==> Quieter(StandingOf(l, id), StandingOf(Reactivated(l, x), id))
  {
    RemoveForgets(l, x);
    assert Live(Reactivated(l, x), id) == Live(Remove(l, x), id);
  }

  /** `reactivate_dormant` keeps the lanes consistent. */
  lemma ReactivationKeepsConsistent(l: Lanes, x: Id)
    requires Consistent(l)
    ensures Consistent(Reactivated(l, x))
  {
    RemoveKeepsShape(l, x);
    forall id ensures Sound(StandingOf(Reactivated(l, x), id)) {
      assert Sound(StandingOf(l, id));
      StaysSoundWithout(l, x, id);
    }
  }

  lemma StaysSoundWithout(l: Lanes, x: Id, id: Id)
    requires Sound(StandingOf(l, id))
    ensures Sound(StandingOf(Reactivated(l, x), id))
  {
    ReactivatedStands(l, x, id);
  }

  // ---------------------------------------------------------------------------
  // Whole runs
  // ---------------------------------------------------------------------------

  datatype Event = Assign(candidate: Candidate, assignment: Assignment) | Reactivate(choice: Option<Id>)

  predicate Step(l: Lanes, e: Event, l': Lanes) {
    match e
    case Assign(c, a) => c.id == a.id && c.id != "" && Applied(l, c, a, l')
    case Reactivate(choice) =>
      match Chosen(l, choice)
      case None => l' == l
      case Some(c) => l' == Reactivated(l, c.id)
  }

  ghost predicate Run(states: seq<Lanes>, events: seq<Event>) {
    |states| == |events| + 1 && forall k :: 0 <= k < |events| ==> Step(states[k], events[k], states[k + 1])
  }

  lemma StepKeepsConsistent(l: Lanes, e: Event, l': Lanes)
    requires Consistent(l) && Step(l, e, l')
    ensures Consistent(l') && l.constraints <= l'.constraints
  {
    match e
    case Assign(c, a) =>
      AssignmentKeepsShape(l, c, a, l');
      AssignmentKeepsConsistent(l, c, a, l');
    case Reactivate(choice) =>
      if Chosen(l, choice).Some? {
        ReactivationKeepsConsistent(l, Chosen(l, choice).value.id);
      }
  }

  /** Every run from empty lanes is consistent throughout, and never loses a constraint. */
  lemma {:induction false} EveryRunIsConsistent(states: seq<Lanes>, events: seq<Event>, k: nat)
    requires Run(states, events) && states[0] == NoLanes() && k < |states|
    ensures Consistent(states[k])
    ensures k > 0 ==> states[k - 1].constraints <= states[k].constraints
  {
    if k > 0 {
      EveryRunIsConsistent(states, events, k - 1);
      StepKeepsConsistent(states[k - 1], events[k - 1], states[k]);
    } else {
      assert FirstOccurrences(AllSeeds([])) == [];
    }
  }

  // ---------------------------------------------------------------------------
  // Reactivation and the lineage freeze
  // ---------------------------------------------------------------------------

  /** Asking for any candidate takes the first parked one that is allowed, and none exactly if none is. */
  lemma {:induction false} FirstAllowedIsFirst(d: seq<Candidate>, rs: seq<Constraint>)
    ensures FirstAllowed(d, rs).Some? ==>
              exists k :: 0 <= k < |d| && d[k] == FirstAllowed(d, rs).value && ReactivationAllowed(rs, d[k]) &&
                          forall j :: 0 <= j < k ==> !ReactivationAllowed(rs, d[j])
    ensures FirstAllowed(d, rs).None? <==> forall j :: 0 <= j < |d| ==> !ReactivationAllowed(rs, d[j])
  {
    if d != [] && !ReactivationAllowed(rs, d[0]) {
      FirstAllowedIsFirst(d[1..], rs);
      if FirstAllowed(d[1..], rs).Some? {
        var k :| 0 <= k < |d[1..]| && d[1..][k] == FirstAllowed(d, rs).value && ReactivationAllowed(rs, d[1..][k]) &&
                 forall j :: 0 <= j < k ==> !ReactivationAllowed(rs, d[1..][j]);
        assert d[k + 1] == d[1..][k];
        forall j | 0 <= j < k + 1 ensures !ReactivationAllowed(rs, d[j]) {
          if j > 0 { assert d[j] == d[1..][j - 1]; }
        }
      } else {
        forall j | 0 <= j < |d| ensures !ReactivationAllowed(rs, d[j]) {
          if j > 0 { assert d[j] == d[1..][j - 1]; }
        }
      }
    }
  }

  lemma {:induction false} FindIsHeld(d: seq<Candidate>, id: Id)
    ensures Find(d, id).Some? <==> id in IdsOf(d)
    ensures Find(d, id).Some? ==> Find(d, id).value in d && Find(d, id).value.id == id
  {
    if d != [] {
      FindIsHeld(d[1..], id);
      IdsOfCons(d[0], d[1..]);
      assert d == [d[0]] + d[1..];
    }
  }

  /** No freeze of the lineage is on record, or it does not apply to this candidate. */
  ghost predicate MayReturn(rs: seq<Constraint>, c: Candidate) {
    || c.failures.hasDelta || !c.failures.structurallyBlocked
    || forall k :: 0 <= k < |rs| && rs[k].LineageFreeze? ==> rs[k].target != c.failures.target
  }

  /** A named candidate comes back exactly when it is parked and allowed; the empty name skips the check. */
  lemma ReactivationIff(l: Lanes, id: Id)
    requires Consistent(l)
    ensures id != "" ==> (Chosen(l, Some(id)).Some? <==>
                          exists c :: c in l.dormant && c.id == id && MayReturn(l.constraints, c))
    ensures id == "" ==> (Chosen(l, Some(id)).Some? <==> l.dormant != [])
    ensures Chosen(l, Some(id)).Some? && id != "" ==> Chosen(l, Some(id)).value.id == id
  {
    FindIsHeld(l.dormant, id);
    forall c | c in l.dormant && c.id == id ensures Find(l.dormant, id) == Some(c) {
      FoundIsUnique(l.dormant, c);
    }
  }

  /** A parked candidate asked for by name comes back exactly when no freeze on record holds it. */
  lemma ComesBackIff(l: Lanes, c: Candidate)
    requires Consistent(l) && c in l.dormant
    ensures Chosen(l, Some(c.id)) == Some(c) <==> MayReturn(l.constraints, c)
  {
    FoundIsUnique(l.dormant, c);
  }

  /** Asking for anyone brings back the first parked candidate that no freeze on record holds. */
  lemma AnyoneComesBackIff(l: Lanes, k: nat)
    requires Consistent(l) && k < |l.dormant|
    ensures Chosen(l, None) == Some(l.dormant[k]) <==>
              && MayReturn(l.constraints, l.dormant[k])
              && forall j :: 0 <= j < k ==> !MayReturn(l.constraints, l.dormant[j])
    ensures Chosen(l, None) == None <==> forall j :: 0 <= j < |l.dormant| ==> !MayReturn(l.constraints, l.dormant[j])
  {
    var d, rs := l.dormant, l.constraints;
    FirstAllowedIsFirst(d, rs);
    assert forall j :: 0 <= j < |d| ==> (ReactivationAllowed(rs, d[j]) <==> MayReturn(rs, d[j]));
    if FirstAllowed(d, rs).Some? {
      var m :| 0 <= m < |d| && d[m] == FirstAllowed(d, rs).value && ReactivationAllowed(rs, d[m]) &&
               forall j :: 0 <= j < m ==> !ReactivationAllowed(rs, d[j]);
      assert m == k || d[m].id != d[k].id;
    }
  }

  lemma {:induction false} FoundIsUnique(d: seq<Candidate>, c: Candidate)
    requires IdsDistinct(d) && c in d
    ensures Find(d, c.id) == Some(c)
  {
    if d[0] != c {
      HeadIsNew(d);
      assert c in d[1..];
      FindIsHeld(d[1..], c.id);
      FoundIsUnique(d[1..], c);
    }
  }

  /** A rejected structurally blocked candidate that taught a lesson freezes its lineage. */
  lemma RejectionFreezesLineage(l: Lanes, c: Candidate, a: Assignment, l': Lanes)
    requires Consistent(l) && Applied(l, c, a, l') && TerminalFailure(a.fate)
    requires c.failures.structurallyBlocked && !c.failures.hasDelta && (a.signature != "" || c.failures.lessons != [])
    ensures Frozen(l'.constraints, c.failures.target)
  {
    var f := c.failures;
    var freeze := LineageFreeze(f.target, f.summary, c.id);
    ConstraintsAreUnique(l.constraints, NewConstraints(c, a));
    assert NewConstraints(c, a)[0] == freeze;
    assert Known(NewConstraints(c, a), IdOf(freeze));
    var k :| 0 <= k < |l'.constraints| && IdOf(l'.constraints[k]) == IdOf(freeze);
    assert l'.constraints[k].LineageFreeze? && l'.constraints[k].target == f.target;
  }

  lemma FrozenGrows(rs: seq<Constraint>, more: seq<Constraint>, target: string)
    requires Frozen(rs, target) && rs <= more
    ensures Frozen(more, target)
  {
    var k :| 0 <= k < |rs| && rs[k].LineageFreeze? && rs[k].target == target;
    assert more[k] == rs[k];
  }

  ghost predicate NeverShrink(logs: seq<seq<Constraint>>) {
    forall k :: 0 < k < |logs| ==> logs[k - 1] <= logs[k]
  }

  function ConstraintsOf(states: seq<Lanes>): (logs: seq<seq<Constraint>>)
    ensures |logs| == |states| && forall k :: 0 <= k < |states| ==> logs[k] == states[k].constraints
  {
    seq(|states|, k requires 0 <= k < |states| => states[k].constraints)
  }

  lemma {:induction false} FrozenInEveryLater(logs: seq<seq<Constraint>>, i: nat, j: nat, target: string)
    requires NeverShrink(logs) && i <= j < |logs| && Frozen(logs[i], target)
    ensures Frozen(logs[j], target)
    decreases j
  {
    if i < j {
      FrozenInEveryLater(logs, i, j - 1, target);
      FrozenGrows(logs[j - 1], logs[j], target);
    }
  }

  /** In every later state of a run, no blocked candidate of a frozen lineage without new evidence is allowed back. */
  lemma FrozenStaysFrozen(states: seq<Lanes>, events: seq<Event>, i: nat, j: nat, c: Candidate)
    requires Run(states, events) && states[0] == NoLanes() && i <= j < |states|
    requires Frozen(states[i].constraints, c.failures.target) && c.failures.structurallyBlocked && !c.failures.hasDelta
    ensures !ReactivationAllowed(states[j].constraints, c)
  {
    var logs := ConstraintsOf(states);
    forall k | 0 < k < |logs| ensures logs[k - 1] <= logs[k] {
      EveryRunIsConsistent(states, events, k);
    }
    FrozenInEveryLater(logs, i, j, c.failures.target);
  }

  /**
   Exactly when a candidate comes back that the check refuses: the request is
   the empty id, and the first parked candidate is a refused one.
   */
  lemma RefusedComesBackIff(l: Lanes, choice: Option<Id>)
    requires Consistent(l)
    ensures (Chosen(l, choice).Some? && !ReactivationAllowed(l.constraints, Chosen(l, choice).value)) <==>
            (choice == Some("") && l.dormant != [] && !ReactivationAllowed(l.constraints, l.dormant[0]))
  {
    if choice == None {
      FirstAllowedIsFirst(l.dormant, l.constraints);
    }
  }

  const ANY_LATENT := Latent(false, None, 0, ["unknown_intent"], map[], 0.0, 0.0, 0.0)
  const ANY_TRAITS := Traits(false, false, false, false, false, [], ["general"], "core", 0.0, 0.0)
  const BLOCKED := Lessons(["lesson"], "root", "core; lesson", true, false, "core")
  const REJECTED := Candidate("a", Active, ANY_LATENT, ANY_TRAITS, BLOCKED)
  const PARKED := Candidate("b", Active, ANY_LATENT, ANY_TRAITS, BLOCKED)
  const REJECTION := Assignment("a", Failed, "", "", [], "")
  const PARKING := Assignment("b", Dormant, "", "", [], "")

  function AfterRejection(): Lanes {
    Settled(NoLanes(), REJECTED, REJECTION).(latent := {})
  }

  function AfterParking(): Lanes {
    Settled(AfterRejection(), PARKED, PARKING).(latent := {})
  }

  lemma RejectThenPark() returns (states: seq<Lanes>, events: seq<Event>)
    ensures events == [Assign(REJECTED, REJECTION), Assign(PARKED, PARKING)]
    ensures states == [NoLanes(), AfterRejection(), AfterParking()] && Run(states, events)
  {
    states := [NoLanes(), AfterRejection(), AfterParking()];
    events := [Assign(REJECTED, REJECTION), Assign(PARKED, PARKING)];
    SettlingIsAStep(NoLanes(), REJECTED, REJECTION);
    SettlingIsAStep(AfterRejection(), PARKED, PARKING);
    TwoSteps(NoLanes(), events[0], AfterRejection(), events[1], AfterParking());
  }

  lemma TwoSteps(s0: Lanes, e0: Event, s1: Lanes, e1: Event, s2: Lanes)
    requires Step(s0, e0, s1) && Step(s1, e1, s2)
    ensures Run([s0, s1, s2], [e0, e1])
  {
  }

  lemma SettlingIsAStep(l: Lanes, c: Candidate, a: Assignment)
    requires l.latent == {} && c.id == a.id && c.id != ""
    ensures Step(l, Assign(c, a), Settled(l, c, a).(latent := {}))
  {
    assert l.latent - {c.id} == {};
  }

  /** A run from empty lanes, one rejection and one parking, that reaches such a lane. */
  lemma EmptyIdSkipsTheFreeze() returns (states: seq<Lanes>, events: seq<Event>)
    ensures events == [Assign(REJECTED, REJECTION), Assign(PARKED, PARKING)]
    ensures Run(states, events) && states[0] == NoLanes()
    ensures var l := states[2];
            && Chosen(l, None) == None && Chosen(l, Some("b")) == None
            && Chosen(l, Some("")) == Some(Marked(PARKED, PARKING))
            && !ReactivationAllowed(l.constraints, Marked(PARKED, PARKING))
  {
    states, events := RejectThenPark();
    EveryRunIsConsistent(states, events, 0);
    EveryRunIsConsistent(states, events, 2);
    assert Step(states[0], events[0], states[1]);
    RejectionFreezesLineage(states[0], REJECTED, REJECTION, states[1]);
    FrozenStaysFrozen(states, events, 1, 2, Marked(PARKED, PARKING));
    OnlyOneParked();
    RefusedStaysBehind(states[2], Marked(PARKED, PARKING));
  }

  /** A single parked candidate that is refused comes back by no other request. */
  lemma RefusedStaysBehind(l: Lanes, c: Candidate)
    requires Consistent(l) && l.dormant == [c] && c.id != "" && !ReactivationAllowed(l.constraints, c)
    ensures Chosen(l, None) == None && Chosen(l, Some(c.id)) == None && Chosen(l, Some("")) == Some(c)
  {
    FirstAllowedIsFirst(l.dormant, l.constraints);
    assert c in l.dormant;
    FoundIsUnique(l.dormant, c);
  }

  lemma OnlyOneParked()
    ensures AfterParking().dormant == [Marked(PARKED, PARKING)]
  {
    assert AfterRejection().dormant == [];
  }
}
