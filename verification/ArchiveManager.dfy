/**
 The archive manager as it updates its lanes in place (archives/manager.py,
 archives/registry.py), proved against the lanes as a value.
 */
module ArchiveManagement {
  import opened Wrappers
  import opened Candidates
  import opened Counting
  import opened ArchiveLanes
  import LatentArchive

  /** `update` takes assignments, or candidates standing for their own current fate. */
  datatype Item = Given(assignment: Assignment) | Carried(candidate: Candidate)

  function Normalized(items: seq<Item>): seq<Assignment> {
    if items == [] then []
    else
      Normalized(items[..|items| - 1]) +
      match items[|items| - 1]
      case Given(a) => [a]
      case Carried(c) => [Assignment(c.id, c.fate, "", "", [], "")]
  }

  function CarriedOf(items: seq<Item>): seq<Candidate> {
    if items == [] then []
    else CarriedOf(items[..|items| - 1]) + if items[|items| - 1].Carried? then [items[|items| - 1].candidate] else []
  }

  /** Later candidates replace earlier ones with the same id. */
  function Index(cs: seq<Candidate>): map<Id, Candidate> {
    if cs == [] then map[] else Index(cs[..|cs| - 1])[cs[|cs| - 1].id := cs[|cs| - 1]]
  }

  /** What can be stored: an id, and at least one latent intent. */
  predicate Storable(c: Candidate) {
    c.id != "" && c.latent.intents != []
  }

  lemma {:induction false} IndexedAreStorable(cs: seq<Candidate>)
    requires forall c :: c in cs ==> Storable(c)
    ensures forall id :: id in Index(cs) ==> Storable(Index(cs)[id]) && Index(cs)[id].id == id
  {
    if cs != [] {
      IndexedAreStorable(cs[..|cs| - 1]);
    }
  }

  /** One event per assignment whose candidate is known. */
  function EventsOf(assignments: seq<Assignment>, byId: map<Id, Candidate>): seq<Event> {
    if assignments == [] then []
    else
      var last := assignments[|assignments| - 1];
      EventsOf(assignments[..|assignments| - 1], byId) + if last.id in byId then [Assign(byId[last.id], last)] else []
  }

  function LatentRemovalReason(c: Candidate, fate: Fate): string {
    if TerminalFailure(fate) then "terminal_fate" else if !c.latent.frontier then "stale_not_frontier" else ""
  }

  /** A candidate leaves the latent lane for a terminal fate, or when it is off the frontier. */
  lemma LeavesIff(c: Candidate, fate: Fate)
    ensures LatentRemovalReason(c, fate) == "" <==> fate !in {Culled, Failed} && c.latent.frontier
    ensures LatentRemovalReason(c, fate) == "terminal_fate" <==> fate in {Culled, Failed}
  {
    assert |"terminal_fate"| == 13 && |"stale_not_frontier"| == 18;
  }

  /** An assignment is applied to the last candidate given under its id. */
  lemma {:induction false} IndexIsLast(cs: seq<Candidate>, id: Id)
    ensures id in Index(cs) <==> exists k :: 0 <= k < |cs| && cs[k].id == id
    ensures id in Index(cs) ==> exists k :: 0 <= k < |cs| && cs[k] == Index(cs)[id] && IsLastOf(cs, k, id)
  {
    if cs != [] {
      var n := |cs| - 1;
      IndexIsLast(cs[..n], id);
      if cs[n].id == id {
        assert IsLastOf(cs, n, id);
      } else if id in Index(cs[..n]) {
        var k :| 0 <= k < n && cs[..n][k] == Index(cs[..n])[id] && IsLastOf(cs[..n], k, id);
        assert cs[k] == Index(cs)[id] && IsLastOf(cs, k, id);
      }
    }
  }

  ghost predicate IsLastOf(cs: seq<Candidate>, k: nat, id: Id) {
    k < |cs| && cs[k].id == id && forall m :: k < m < |cs| ==> cs[m].id != id
  }

  class ArchiveManager {
    var fates: map<Id, Fate>
    var tombstones: map<Id, Fate>
    var failures: map<Id, string>
    var answer: map<Id, Candidate>
    var auxiliary: map<Id, Candidate>
    var dormant: seq<Candidate>
    var conditions: map<Id, string>
    var novelty: map<Id, Candidate>
    var patches: map<Id, Candidate>
    var rarity: seq<Candidate>
    var seeds: seq<string>
    var mechanisms: map<string, Champion>
    var niches: map<string, Champion>
    var constraints: seq<Constraint>
    var history: seq<seq<Assignment>>        // the applied assignments of every update
    const latent: LatentArchive.LatentLane

    constructor ()
      ensures Valid() && fresh(latent) && Snapshot() == NoLanes() && history == []
      ensures latent.quota == 3 && latent.staleAfter == 6
    {
      fates, tombstones, failures, answer, auxiliary := map[], map[], map[], map[], map[];
      dormant, conditions, novelty, patches, rarity, seeds := [], map[], map[], map[], [], [];
      mechanisms, niches, constraints, history := map[], map[], [], [];
      latent := new LatentArchive.LatentLane(3, 6);
    }

    function Snapshot(): Lanes
      reads this, latent
    {
      Lanes(fates, tombstones, failures, answer, auxiliary, dormant, conditions, novelty, patches, rarity, seeds,
            mechanisms, niches, latent.candidates.Keys, constraints)
    }

    ghost predicate Valid()
      reads this, latent
    {
      latent.Valid() && Consistent(Snapshot())
    }

    method AddSeeds(more: seq<string>)
      requires Distinct(seeds)
      modifies this`seeds
      ensures seeds == FirstOccurrences(old(seeds) + more)
    {
      DistinctIsItsOwn(seeds);
      assert seeds + more[..0] == seeds;
      for k := 0 to |more|
        invariant seeds == FirstOccurrences(old(seeds) + more[..k])
      {
        assert (old(seeds) + more[..k + 1])[..|old(seeds)| + k] == old(seeds) + more[..k];
        if more[k] !in seeds {
          seeds := seeds + [more[k]];
        }
      }
      assert more[..|more|] == more;
    }

    method RebuildRaritySeeds()
      modifies this`seeds
      ensures seeds == FirstOccurrences(AllSeeds(rarity))
    {
      seeds := [];
      for k := 0 to |rarity|
        invariant seeds == FirstOccurrences(AllSeeds(rarity[..k]))
      {
        FirstOccurrencesList(AllSeeds(rarity[..k]));
        FirstOccurrencesAppend(AllSeeds(rarity[..k]), rarity[k].traits.seeds);
        assert rarity[..k + 1][..k] == rarity[..k];
        AddSeeds(rarity[k].traits.seeds);
      }
      assert rarity[..|rarity|] == rarity;
    }

    method RemoveFromNiches(id: Id)
      modifies this`niches
      ensures niches == WithoutChampion(old(niches), id)
    {
      var stale := set niche | niche in niches && niches[niche].id == id;
      niches := niches - stale;
    }

    method RemoveFromMechanisms(id: Id)
      modifies this`mechanisms
      ensures mechanisms == WithoutChampion(old(mechanisms) - {id}, id)
    {
      var stale := set key | key in mechanisms && (key == id || mechanisms[key].id == id);
      mechanisms := mechanisms - stale;
    }

    /** Pops an id from every lane keyed by id, apart from the latent lane. */
    method PopEverywhere(id: Id)
      modifies this`answer, this`novelty, this`patches, this`rarity, this`auxiliary,
               this`dormant, this`conditions, this`failures, this`tombstones
      ensures answer == old(answer) - {id} && novelty == old(novelty) - {id} && patches == old(patches) - {id}
      ensures auxiliary == old(auxiliary) - {id} && failures == old(failures) - {id}
              && tombstones == old(tombstones) - {id}
      ensures rarity == Drop(old(rarity), id) && dormant == Drop(old(dormant), id)
              && conditions == old(conditions) - {id}
    {
      answer, novelty, patches := answer - {id}, novelty - {id}, patches - {id};
      rarity, auxiliary := Drop(rarity, id), auxiliary - {id};
      dormant, conditions := Drop(dormant, id), conditions - {id};
      failures, tombstones := failures - {id}, tombstones - {id};
    }

    /** Removes every membership outside the latent lane. */
    method RemoveMemberships(id: Id)
      modifies this
      ensures fates == old(fates) && constraints == old(constraints) && history == old(history)
      ensures answer == old(answer) - {id} && novelty == old(novelty) - {id} && patches == old(patches) - {id}
      ensures auxiliary == old(auxiliary) - {id} && failures == old(failures) - {id}
              && tombstones == old(tombstones) - {id}
      ensures rarity == Drop(old(rarity), id) && dormant == Drop(old(dormant), id)
              && conditions == old(conditions) - {id}
      ensures niches == WithoutChampion(old(niches), id) && mechanisms == WithoutChampion(old(mechanisms) - {id}, id)
      ensures seeds == FirstOccurrences(AllSeeds(rarity))
    {
      PopEverywhere(id);
      RemoveFromNiches(id);
      RemoveFromMechanisms(id);
      RebuildRaritySeeds();
    }

    /** Removes every membership of an id, before it is routed again. */
    method RemoveCandidateFromArchives(id: Id)
      requires latent.Valid()
      modifies this, latent
      ensures latent.Valid() && latent.removals == old(latent.removals) && history == old(history)
      ensures Snapshot() == Remove(old(Snapshot()), id)
    {
      ghost var before := Snapshot();
      latent.Discard(id, "removed", false);
      assert latent.candidates.Keys == before.latent - {id};
      RemoveMemberships(id);
      RemoveFieldByField(before, id, Snapshot());
    }

    /** The lanes a live candidate competes for. */
    method ExploreLanes(c: Candidate) returns (won: bool)
      requires Distinct(seeds)
      modifies this`niches, this`rarity, this`seeds, this`novelty, this`mechanisms, this`patches
      ensures won == Wins(old(mechanisms), c.traits.mechanism, Champion(c.id, c.traits.finalQuality))
      ensures niches == Compete(old(niches), c.traits.niches, Champion(c.id, NicheScore(c.traits)))
      ensures rarity == (if c.traits.rare then Put(old(rarity), c) else old(rarity))
      ensures seeds == (if c.traits.rare then FirstOccurrences(old(seeds) + c.traits.seeds) else old(seeds))
      ensures novelty == (if c.traits.novel then old(novelty)[c.id := c] else old(novelty))
      ensures mechanisms == Enthrone(old(mechanisms), c.traits.mechanism, Champion(c.id, c.traits.finalQuality))
      ensures patches == (if c.traits.isPatch && !c.traits.sourceBlocked then old(patches)[c.id := c] else old(patches))
    {
      CompeteForNiches(c);
      if c.traits.rare {
        rarity := Put(rarity, c);
        AddSeeds(c.traits.seeds);
      }
      if c.traits.novel {
        novelty := novelty[c.id := c];
      }
      won := ContendForMechanism(c);
      if c.traits.isPatch && !c.traits.sourceBlocked {
        patches := patches[c.id := c];
      }
    }

    method ContendForMechanism(c: Candidate) returns (won: bool)
      modifies this`mechanisms
      ensures won == Wins(old(mechanisms), c.traits.mechanism, Champion(c.id, c.traits.finalQuality))
      ensures mechanisms == Enthrone(old(mechanisms), c.traits.mechanism, Champion(c.id, c.traits.finalQuality))
    {
      var key := c.traits.mechanism;
      won := key != "" && (key !in mechanisms || c.traits.finalQuality > mechanisms[key].quality);
      if won {
        mechanisms := mechanisms[key := Champion(c.id, c.traits.finalQuality)];
      }
    }

    method CompeteForNiches(c: Candidate)
      modifies this`niches
      ensures niches == Compete(old(niches), c.traits.niches, Champion(c.id, NicheScore(c.traits)))
    {
      var names, entry := c.traits.niches, Champion(c.id, NicheScore(c.traits));
      for k := 0 to |names|
        invariant niches == Compete(old(niches), names[..k], entry)
      {
        assert names[..k + 1][..k] == names[..k];
        if names[k] !in niches || entry.quality >= niches[names[k]].quality {
          niches := niches[names[k] := entry];
        }
      }
      assert names[..|names|] == names;
    }

    method PlaceByFate(c: Candidate, a: Assignment)
      modifies this`answer, this`auxiliary, this`dormant, this`conditions
      ensures answer == (if a.fate == Elite && !c.traits.sourceBlocked then old(answer)[c.id := c] else old(answer))
      ensures auxiliary == (if a.fate == Auxiliary then old(auxiliary)[c.id := c] else old(auxiliary))
      ensures dormant == (if a.fate == Dormant then Put(old(dormant), c) else old(dormant))
      ensures conditions ==
                (if a.fate == Dormant then old(conditions)[c.id := ParkingCondition(a)] else old(conditions))
    {
      if a.fate == Elite && !c.traits.sourceBlocked {
        answer := answer[c.id := c];
      } else if a.fate == Auxiliary {
        auxiliary := auxiliary[c.id := c];
      } else if a.fate == Dormant {
        dormant, conditions := Put(dormant, c), conditions[c.id := ParkingCondition(a)];
      }
    }

    /**
     Terminal and negative-only candidates are only recorded as failures; the
     others enter the live lanes.  Returns what is appended to the targets.
     */
    method RouteCandidate(c: Candidate, a: Assignment) returns (targets: seq<Target>)
      requires latent.Valid() && Storable(c) && Distinct(seeds)
      modifies this, latent
      ensures latent.Valid() && history == old(history) && targets == TargetsOf(old(Snapshot()), c, a)
      ensures Snapshot() == Route(old(Snapshot()), c, a).(latent := Snapshot().latent)
      ensures if !GoesToFailure(c, a) && c.latent.frontier then Snapshot().latent <= old(Snapshot()).latent + {c.id}
              else Snapshot().latent == old(Snapshot()).latent
    {
      if GoesToFailure(c, a) {
        failures := failures[c.id := FailureSignature(c, a)];
        targets := [ToFailures];
      } else {
        var t := c.traits;
        EnterLatentLane(c);
        label entered:
        var won := RouteLiveLanes(c, a);
        targets := Explored(c.latent.frontier, t.rare, t.novel, won, t.isPatch, t.sourceBlocked) + FateTargets(c, a);
        RouteIgnoresLatent(old(Snapshot()), old@entered(Snapshot()).latent, c, a);
      }
    }

    method EnterLatentLane(c: Candidate)
      requires latent.Valid() && Storable(c)
      modifies latent
      ensures latent.Valid()
      ensures Snapshot() == old(Snapshot()).(latent := Snapshot().latent)
      ensures if c.latent.frontier then Snapshot().latent <= old(Snapshot()).latent + {c.id}
              else Snapshot().latent == old(Snapshot()).latent
    {
      if c.latent.frontier {
        ghost var _, _ := latent.Add(c);
      }
    }

    method RouteLiveLanes(c: Candidate, a: Assignment) returns (won: bool)
      requires Distinct(seeds) && !GoesToFailure(c, a)
      modifies this
      ensures won == Wins(old(mechanisms), c.traits.mechanism, Champion(c.id, c.traits.finalQuality))
      ensures history == old(history)
      ensures Snapshot() == Route(old(Snapshot()), c, a)
    {
      won := RouteLive(c, a);
      RouteFieldByField(old(Snapshot()), c, a, Snapshot());
    }

    method RouteLive(c: Candidate, a: Assignment) returns (won: bool)
      requires Distinct(seeds)
      modifies this
      ensures won == Wins(old(mechanisms), c.traits.mechanism, Champion(c.id, c.traits.finalQuality))
      ensures history == old(history)
      ensures fates == old(fates) && tombstones == old(tombstones) && failures == old(failures)
              && constraints == old(constraints)
      ensures niches == Compete(old(niches), c.traits.niches, Champion(c.id, NicheScore(c.traits)))
      ensures rarity == (if c.traits.rare then Put(old(rarity), c) else old(rarity))
      ensures seeds == (if c.traits.rare then FirstOccurrences(old(seeds) + c.traits.seeds) else old(seeds))
      ensures novelty == (if c.traits.novel then old(novelty)[c.id := c] else old(novelty))
      ensures mechanisms == Enthrone(old(mechanisms), c.traits.mechanism, Champion(c.id, c.traits.finalQuality))
      ensures patches == (if c.traits.isPatch && !c.traits.sourceBlocked then old(patches)[c.id := c] else old(patches))
      ensures answer == (if a.fate == Elite && !c.traits.sourceBlocked then old(answer)[c.id := c] else old(answer))
      ensures auxiliary == (if a.fate == Auxiliary then old(auxiliary)[c.id := c] else old(auxiliary))
      ensures dormant == (if a.fate == Dormant then Put(old(dormant), c) else old(dormant))
      ensures conditions ==
                (if a.fate == Dormant then old(conditions)[c.id := ParkingCondition(a)] else old(conditions))
    {
      won := ExploreLanes(c);
      PlaceByFate(c, a);
    }

    method RecordConstraints(c: Candidate, a: Assignment)
      modifies this`constraints
      ensures constraints == AddConstraints(old(constraints), NewConstraints(c, a))
    {
      var records := NewConstraints(c, a);
      for k := 0 to |records|
        invariant constraints == AddConstraints(old(constraints), records[..k])
      {
        assert records[..k + 1][..k] == records[..k];
        if !Known(constraints, IdOf(records[k])) {
          constraints := constraints + [records[k]];
        }
      }
      assert records[..|records|] == records;
    }

    /** One assignment of `update`; the report carries the gene summary and the targets. */
    method ApplyAssignment(c: Candidate, a: Assignment) returns (report: Assignment)
      requires latent.Valid() && Storable(c)
      modifies this, latent
      ensures latent.Valid() && Applied(old(Snapshot()), c, a, Snapshot())
      ensures report == Reported(old(Snapshot()), c, a) && history == old(history)
    {
      var genes := if a.genes != "" then a.genes else Genes(c);
      ClearForRouting(c, a);
      ghost var cleared := Snapshot();
      var targets := RouteAndRecord(c, a);
      report := a.(targets := a.targets + targets, genes := genes);
      AssignmentInStages(old(Snapshot()), c, a, cleared, Snapshot());
    }

    /** Indexes the fate, removes every old membership, and buries a terminal candidate. */
    method ClearForRouting(c: Candidate, a: Assignment)
      requires latent.Valid()
      modifies this, latent
      ensures latent.Valid() && Snapshot() == Cleared(old(Snapshot()), c, a) && Distinct(seeds)
      ensures history == old(history)
    {
      fates := fates[c.id := a.fate];
      LeaveLatentLane(c, a.fate);
      RemoveIgnoresLatent(old(Snapshot()).(fates := fates), Snapshot().latent, c.id);
      RemoveCandidateFromArchives(c.id);
      if TerminalFailure(a.fate) {
        tombstones := tombstones[c.id := a.fate];
      }
      FirstOccurrencesList(AllSeeds(rarity));
    }

    method RouteAndRecord(c: Candidate, a: Assignment) returns (targets: seq<Target>)
      requires latent.Valid() && Storable(c) && Distinct(seeds)
      modifies this, latent
      ensures latent.Valid() && history == old(history)
      ensures targets == TargetsOf(old(Snapshot()), Marked(c, a), a)
      ensures var l, l' := old(Snapshot()), Snapshot();
              && l' == Route(l, Marked(c, a), a).(
                         constraints := AddConstraints(l.constraints, NewConstraints(c, a)), latent := l'.latent)
              && if !GoesToFailure(c, a) && c.latent.frontier then l'.latent <= l.latent + {c.id}
                 else l'.latent == l.latent
    {
      targets := RouteCandidate(Marked(c, a), a);
      assert constraints == old(constraints);
      RecordConstraints(c, a);
    }

    /** A reason to leave the latent lane is recorded there before the quiet removal. */
    method LeaveLatentLane(c: Candidate, fate: Fate)
      requires latent.Valid()
      modifies latent
      ensures latent.Valid()
      ensures Snapshot() == old(Snapshot()).(latent := Snapshot().latent)
      ensures Snapshot().latent - {c.id} == old(Snapshot()).latent - {c.id}
      ensures latent.removals == old(latent.removals) +
              if LatentRemovalReason(c, fate) != "" && c.id in old(latent.candidates)
              then [LatentArchive.Recorded(c.id, LatentRemovalReason(c, fate))] else []
    {
      var reason := LatentRemovalReason(c, fate);
      if reason != "" && c.id in latent.candidates {
        latent.Discard(c.id, reason, true);
      }
    }

    /** The lanes are where the run `states` of `events` has led. */
    ghost predicate Reached(states: seq<Lanes>, events: seq<Event>, start: Lanes)
      reads this, latent
    {
      Run(states, events) && states[0] == start && states[|states| - 1] == Snapshot()
    }

    method ApplyKnown(c: Candidate, a: Assignment, ghost states: seq<Lanes>, ghost events: seq<Event>,
                      ghost start: Lanes)
      returns (report: Assignment, ghost more: seq<Lanes>)
      requires Valid() && Storable(c) && c.id == a.id && Reached(states, events, start)
      modifies this, latent
      ensures Valid() && history == old(history) && Reached(more, events + [Assign(c, a)], start)
      ensures ReportsOf(more, events + [Assign(c, a)]) == ReportsOf(states, events) + [report]
    {
      ghost var before := Snapshot();
      report := ApplyAssignment(c, a);
      AssignmentKeepsConsistent(before, c, a, Snapshot());
      RunOneMore(states, events, Assign(c, a), Snapshot());
      more := states + [Snapshot()];
    }

    /**
     Applies the assignments whose candidate is known, in order, and keeps the
     reports in the history.  `states` is the run of lanes it goes through.
     */
    method Update(items: seq<Item>, population: seq<Candidate>)
        returns (applied: seq<Assignment>, ghost states: seq<Lanes>)
      requires Valid() && forall c :: c in population + CarriedOf(items) ==> Storable(c)
      modifies this, latent
      ensures Valid()
      ensures Reached(states, EventsOf(Normalized(items), Index(population + CarriedOf(items))), old(Snapshot()))
      ensures applied == ReportsOf(states, EventsOf(Normalized(items), Index(population + CarriedOf(items))))
      ensures history == old(history) + [applied]
    {
      var assignments := NormalizeAssignments(items);
      var byId := CandidatesById(population + CarriedOf(items));
      IndexedAreStorable(population + CarriedOf(items));
      applied := [];
      states := [Snapshot()];
      ghost var events: seq<Event> := [];
      for k := 0 to |assignments|
        invariant Valid() && Reached(states, events, old(Snapshot()))
        invariant events == EventsOf(assignments[..k], byId) && history == old(history)
        invariant |states| == |events| + 1 && applied == ReportsOf(states, events)
      {
        var a := assignments[k];
        assert assignments[..k + 1][..k] == assignments[..k];
        if a.id in byId {
          var report;
          report, states := ApplyKnown(byId[a.id], a, states, events, old(Snapshot()));
          applied, events := applied + [report], events + [Assign(byId[a.id], a)];
        }
      }
      assert assignments[..|assignments|] == assignments;
      history := history + [applied];
    }

    /** Pops the named parked candidate, or the first one when no name is given. */
    method PopDormant(choice: Id) returns (r: Option<Candidate>)
      modifies this`dormant, this`conditions
      ensures r == Popped(old(dormant), choice)
      ensures r.Some? ==> dormant == Drop(old(dormant), r.value.id) && conditions == old(conditions) - {r.value.id}
      ensures r.None? ==> dormant == old(dormant) && conditions == old(conditions)
    {
      var key := if choice != "" then choice else if dormant != [] then dormant[0].id else "";
      if key == "" || Find(dormant, key).None? {
        return None;
      }
      r := Find(dormant, key);
      FindIsHeld(dormant, key);
      dormant, conditions := Drop(dormant, key), conditions - {key};
    }

    /** Takes an allowed parked candidate out of every lane and marks it active. */
    method ReactivateDormant(choice: Option<Id>) returns (r: Option<Candidate>)
      requires Valid()
      modifies this, latent
      ensures Valid() && Step(old(Snapshot()), Reactivate(choice), Snapshot()) && history == old(history)
      ensures r == match Chosen(old(Snapshot()), choice) { case None => None case Some(c) => Some(c.(fate := Active)) }
      ensures choice.Some? && choice.value != "" ==>
                (r.Some? <==> exists c :: c in old(dormant) && c.id == choice.value && MayReturn(old(constraints), c))
      ensures choice == None ==> (r.Some? <==> exists c :: c in old(dormant) && MayReturn(old(constraints), c))
    {
      ghost var before := Snapshot();
      SomeoneComesBackIff(before, choice);
      r := TakeParked(choice);
      if r.Some? {
        var id := r.value.id;
        ReturnToActive(id, before);
        r := Some(r.value.(fate := Active));
      }
    }

    /** The popped candidate leaves every lane and becomes active. */
    method ReturnToActive(id: Id, ghost before: Lanes)
      requires latent.Valid() && Consistent(before)
      requires Snapshot() == before.(dormant := Drop(before.dormant, id), conditions := before.conditions - {id})
      modifies this, latent
      ensures Valid() && Snapshot() == Reactivated(before, id) && history == old(history)
    {
      RemoveAfterPop(before, Snapshot(), id);
      ReactivationKeepsConsistent(before, id);
      RemoveCandidateFromArchives(id);
      fates := fates[id := Active];
    }

    /** Checks the named candidate, or looks for the first allowed one, and pops it. */
    method TakeParked(choice: Option<Id>) returns (r: Option<Candidate>)
      requires Consistent(Snapshot())
      modifies this`dormant, this`conditions
      ensures r == Chosen(old(Snapshot()), choice)
      ensures var l := old(Snapshot());
              Snapshot() == if r.None? then l
                            else l.(dormant := Drop(l.dormant, r.value.id), conditions := l.conditions - {r.value.id})
    {
      if choice.Some? {
        ChosenIsPopped(Snapshot(), choice.value);
        var preview := Find(dormant, choice.value);
        if preview.Some? && !ReactivationAllowed(constraints, preview.value) {
          return None;
        }
        r := PopDormant(choice.value);
      } else {
        r := FirstAllowedParked();
        if r.Some? {
          FirstIsPopped(Snapshot(), r.value);
          r := PopDormant(r.value.id);
        }
      }
    }

    method FirstAllowedParked() returns (r: Option<Candidate>)
      ensures r == FirstAllowed(dormant, constraints)
    {
      for k := 0 to |dormant|
        invariant FirstAllowed(dormant, constraints) == FirstAllowed(dormant[k..], constraints)
      {
        if ReactivationAllowed(constraints, dormant[k]) {
          return Some(dormant[k]);
        }
        assert dormant[k..][1..] == dormant[k + 1..];
      }
      return None;
    }
  }

  method NormalizeAssignments(items: seq<Item>) returns (assignments: seq<Assignment>)
    ensures assignments == Normalized(items)
  {
    assignments := [];
    for k := 0 to |items|
      invariant assignments == Normalized(items[..k])
    {
      assert items[..k + 1][..k] == items[..k];
      match items[k]
      case Given(a) => assignments := assignments + [a];
      case Carried(c) => assignments := assignments + [Assignment(c.id, c.fate, "", "", [], "")];
    }
    assert items[..|items|] == items;
  }

  method CandidatesById(cs: seq<Candidate>) returns (byId: map<Id, Candidate>)
    ensures byId == Index(cs)
  {
    byId := map[];
    for k := 0 to |cs|
      invariant byId == Index(cs[..k])
    {
      assert cs[..k + 1][..k] == cs[..k];
      byId := byId[cs[k].id := cs[k]];
    }
    assert cs[..|cs|] == cs;
  }

  /** The report of every assignment of a run, made where the run stood. */
  function ReportsOf(states: seq<Lanes>, events: seq<Event>): seq<Assignment>
    requires |states| == |events| + 1
    decreases |events|
  {
    if events == [] then []
    else
      var n := |events| - 1;
      ReportsOf(states[..n + 1], events[..n]) +
      if events[n].Assign? then [Reported(states[n], events[n].candidate, events[n].assignment)] else []
  }

  lemma RunOneMore(states: seq<Lanes>, events: seq<Event>, e: Event, l: Lanes)
    requires Run(states, events) && Step(states[|states| - 1], e, l)
    ensures Run(states + [l], events + [e])
    ensures e.Assign? ==>
              ReportsOf(states + [l], events + [e]) ==
              ReportsOf(states, events) + [Reported(states[|states| - 1], e.candidate, e.assignment)]
  {
    assert (events + [e])[..|events|] == events && (states + [l])[..|events| + 1] == states;
    forall k | 0 <= k < |events + [e]| ensures Step((states + [l])[k], (events + [e])[k], (states + [l])[k + 1]) {
      if k < |events| {
        assert Step(states[k], events[k], states[k + 1]);
      }
    }
  }

  lemma SomeoneComesBackIff(l: Lanes, choice: Option<Id>)
    requires Consistent(l)
    ensures choice.Some? && choice.value != "" ==>
              (Chosen(l, choice).Some? <==>
                 exists c :: c in l.dormant && c.id == choice.value && MayReturn(l.constraints, c))
    ensures choice == None ==>
              (Chosen(l, choice).Some? <==> exists c :: c in l.dormant && MayReturn(l.constraints, c))
  {
    if choice.Some? {
      ReactivationIff(l, choice.value);
    } else if l.dormant != [] {
      AnyoneComesBackIff(l, 0);
      forall c | c in l.dormant && MayReturn(l.constraints, c) ensures Chosen(l, None).Some? {
        var k :| 0 <= k < |l.dormant| && l.dormant[k] == c;
      }
      if forall j :: 0 <= j < |l.dormant| ==> !MayReturn(l.constraints, l.dormant[j]) {
        assert forall c :: c in l.dormant ==> !MayReturn(l.constraints, c);
      }
    }
  }

  /** `DormantArchive.reactivate`: an empty name stands for the first parked candidate. */
  function Popped(d: seq<Candidate>, choice: Id): Option<Candidate> {
    var key := if choice != "" then choice else if d != [] then d[0].id else "";
    if key == "" then None else Find(d, key)
  }

  lemma ChosenIsPopped(l: Lanes, id: Id)
    requires Consistent(l)
    ensures Find(l.dormant, id).Some? && !ReactivationAllowed(l.constraints, Find(l.dormant, id).value) ==>
              Chosen(l, Some(id)) == None
    ensures !(Find(l.dormant, id).Some? && !ReactivationAllowed(l.constraints, Find(l.dormant, id).value)) ==>
              Chosen(l, Some(id)) == Popped(l.dormant, id)
  {
    FindIsHeld(l.dormant, id);
    if l.dormant != [] {
      assert l.dormant[0] in l.dormant;
    }
  }

  lemma FirstIsPopped(l: Lanes, c: Candidate)
    requires Consistent(l) && FirstAllowed(l.dormant, l.constraints) == Some(c)
    ensures Popped(l.dormant, c.id) == Some(c)
  {
    FirstAllowedIsFirst(l.dormant, l.constraints);
    assert c in l.dormant;
    FoundIsUnique(l.dormant, c);
  }

  lemma {:induction false} DropTwice(d: seq<Candidate>, id: Id)
    ensures Drop(Drop(d, id), id) == Drop(d, id)
  {
    if d != [] {
      DropTwice(d[1..], id);
    }
  }

  lemma RemoveAfterPop(l: Lanes, popped: Lanes, id: Id)
    requires popped == l.(dormant := Drop(l.dormant, id), conditions := l.conditions - {id})
    ensures Remove(popped, id) == Remove(l, id)
  {
    DropTwice(l.dormant, id);
    assert l.conditions - {id} - {id} == l.conditions - {id};
  }

  /** The fate the last applied assignment gives an id. */
  function LastFate(events: seq<Event>, id: Id, before: Option<Fate>): Option<Fate> {
    if events == [] then before
    else
      var e := events[|events| - 1];
      if e.Assign? && e.assignment.id == id then Some(e.assignment.fate)
          else LastFate(events[..|events| - 1], id, before)
  }

  /** After an update every id has the fate of its last applied assignment, or the one it had. */
  lemma {:induction false} LastAssignmentDecides(states: seq<Lanes>, events: seq<Event>, id: Id)
    requires Run(states, events) && forall k :: 0 <= k < |events| ==> events[k].Assign?
    ensures StandingOf(states[|events|], id).fate == LastFate(events, id, StandingOf(states[0], id).fate)
  {
    if events != [] {
      var n := |events| - 1;
      assert Run(states[..|states| - 1], events[..n]) by {
        forall k | 0 <= k < n
          ensures Step(states[..|states| - 1][k], events[..n][k], states[..|states| - 1][k + 1])
        {
          assert Step(states[k], events[k], states[k + 1]);
        }
      }
      LastAssignmentDecides(states[..|states| - 1], events[..n], id);
      assert Step(states[n], events[n], states[n + 1]);
      var Assign(c, a) := events[n];
      if c.id == id {
        AssignedCandidateStands(states[n], c, a, states[n + 1]);
      } else {
        OthersStand(states[n], c, a, states[n + 1], id);
      }
    }
  }

  lemma AssignmentInStages(l: Lanes, c: Candidate, a: Assignment, cleared: Lanes, l': Lanes)
    requires cleared == Cleared(l, c, a)
    requires l' == Route(cleared, Marked(c, a), a).(
                     constraints := AddConstraints(cleared.constraints, NewConstraints(c, a)), latent := l'.latent)
    requires if !GoesToFailure(c, a) && c.latent.frontier then l'.latent <= cleared.latent + {c.id}
             else l'.latent == cleared.latent
    ensures Applied(l, c, a, l')
  {
    assert cleared.constraints == l.constraints && cleared.latent == l.latent - {c.id};
  }

  lemma RemoveIgnoresLatent(l: Lanes, latent: set<Id>, id: Id)
    requires latent - {id} == l.latent - {id}
    ensures Remove(l.(latent := latent), id) == Remove(l, id)
  {
  }

  lemma RouteIgnoresLatent(l: Lanes, latent: set<Id>, c: Candidate, a: Assignment)
    ensures Route(l.(latent := latent), c, a) == Route(l, c, a).(latent := latent)
  {
    var l' := l.(latent := latent);
    if !GoesToFailure(c, a) {
      assert Explore(l', c) == Explore(l, c).(latent := latent);
      PlaceIgnoresLatent(Explore(l, c), latent, c, a);
    }
  }

  lemma PlaceIgnoresLatent(l: Lanes, latent: set<Id>, c: Candidate, a: Assignment)
    ensures Place(l.(latent := latent), c, a) == Place(l, c, a).(latent := latent)
  {
  }

  lemma RouteFieldByField(l: Lanes, c: Candidate, a: Assignment, l': Lanes)
    requires !GoesToFailure(c, a)
    requires l'.fates == l.fates && l'.tombstones == l.tombstones && l'.failures == l.failures
    requires l'.constraints == l.constraints && l'.latent == l.latent
    requires l'.niches == Compete(l.niches, c.traits.niches, Champion(c.id, NicheScore(c.traits)))
    requires l'.rarity == if c.traits.rare then Put(l.rarity, c) else l.rarity
    requires l'.seeds == if c.traits.rare then FirstOccurrences(l.seeds + c.traits.seeds) else l.seeds
    requires l'.novelty == if c.traits.novel then l.novelty[c.id := c] else l.novelty
    requires l'.mechanisms == Enthrone(l.mechanisms, c.traits.mechanism, Champion(c.id, c.traits.finalQuality))
    requires l'.patches == if c.traits.isPatch && !c.traits.sourceBlocked then l.patches[c.id := c] else l.patches
    requires l'.answer == if a.fate == Elite && !c.traits.sourceBlocked then l.answer[c.id := c] else l.answer
    requires l'.auxiliary == if a.fate == Auxiliary then l.auxiliary[c.id := c] else l.auxiliary
    requires l'.dormant == if a.fate == Dormant then Put(l.dormant, c) else l.dormant
    requires l'.conditions == if a.fate == Dormant then l.conditions[c.id := ParkingCondition(a)] else l.conditions
    ensures l' == Route(l, c, a)
  {
  }

  lemma RemoveFieldByField(l: Lanes, id: Id, l': Lanes)
    requires l'.fates == l.fates && l'.constraints == l.constraints && l'.latent == l.latent - {id}
    requires l'.answer == l.answer - {id} && l'.novelty == l.novelty - {id} && l'.patches == l.patches - {id}
    requires l'.auxiliary == l.auxiliary - {id} && l'.failures == l.failures - {id}
             && l'.tombstones == l.tombstones - {id}
    requires l'.rarity == Drop(l.rarity, id) && l'.dormant == Drop(l.dormant, id)
             && l'.conditions == l.conditions - {id}
    requires l'.niches == WithoutChampion(l.niches, id) && l'.mechanisms == WithoutChampion(l.mechanisms - {id}, id)
    requires l'.seeds == FirstOccurrences(AllSeeds(l'.rarity))
    ensures l' == Remove(l, id)
  {
  }
}
