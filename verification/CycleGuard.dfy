/**
 The guard that keeps circular values out of checkpoints (durable/file_lock.py).
 It looks inside dictionaries and lists, not inside dataclass instances.
 */
module CycleGuard {
  import opened ContainerGraphs

  predicate IsRecord(h: Heap, id: nat) {
    id in h && h[id].kind == Record
  }

  /** What the guard sees: a dataclass instance has no children. */
  function ContainerView(h: Heap): (g: Heap)
    ensures g.Keys == h.Keys
  {
    map id | id in h :: if h[id].kind == Record then h[id].(items := []) else h[id]
  }

  /** The two shared sets threaded through the recursion, and a log of visits. */
  class Marks {
    var active: set<nat>
    var seen: set<nat>
    ghost var visits: seq<nat>

    constructor ()
      ensures active == {} && seen == {} && visits == []
    {
      active, seen, visits := {}, {}, [];
    }

    /** No container is expanded twice, and all expanded ones are marked. */
    ghost predicate VisitedOnce()
      reads this
    {
      && (forall i, j :: 0 <= i < j < |visits| ==> visits[i] != visits[j])
      && (forall id :: id in visits <==> id in active + seen)
    }
  }

  ghost predicate OnTrail(g: Heap, trail: seq<nat>, active: set<nat>, v: Value) {
    && (forall id :: id in active <==> id in trail)
    && active <= g.Keys
    && (trail != [] ==> IsWalk(g, trail) && (v.Ref? ==> Edge(g, trail[|trail| - 1], v.id)))
  }

  /**
   Depth-first search with an active set and a seen set.  `trail` is the path of
   calls in progress.  The answer is exact whatever the marks hold, as long as
   every seen container is known to be free of cycles.
   */
  method HasCycle(h: Heap, v: Value, marks: Marks, ghost trail: seq<nat>) returns (found: bool)
    requires Closed(h) && Known(h, v) && marks.VisitedOnce()
    requires OnTrail(ContainerView(h), trail, marks.active, v)
    requires forall id :: id in marks.seen ==> !CycleFrom(ContainerView(h), id)
    modifies marks
    ensures found <==> v.Ref? && CycleFrom(ContainerView(h), v.id)
    ensures marks.active == old(marks.active) && old(marks.seen) <= marks.seen
    ensures marks.VisitedOnce()
    ensures !found ==> forall id :: id in marks.seen ==> !CycleFrom(ContainerView(h), id)
    decreases h.Keys - marks.active
  {
    ghost var g := ContainerView(h);
    if v.Scalar? {
      return false;
    }
    var id := v.id;
    if IsRecord(h, id) {
      NoCycleIfNoneBelow(g, id);
      return false;
    }
    if id in marks.active {
      ghost var i :| 0 <= i < |trail| && trail[i] == id;
      TrailCloses(g, trail, i);
      return true;
    }
    if id in marks.seen {
      return false;
    }
    assert id !in marks.visits;
    marks.active := marks.active + {id};
    marks.visits := marks.visits + [id];
    ghost var deeper := trail + [id];
    assert IsWalk(g, deeper) by {
      forall k | 0 < k < |deeper| ensures Edge(g, deeper[k - 1], deeper[k]) {
        if k < |trail| { assert Edge(g, trail[k - 1], trail[k]); }
      }
    }
    found := false;
    var k := 0;
    while k < |h[id].items| && !found
      invariant 0 <= k <= |h[id].items|
      invariant marks.active == old(marks.active) + {id} && old(marks.seen) <= marks.seen
      invariant marks.VisitedOnce()
      invariant found ==> CycleFrom(g, id)
      invariant !found ==> forall s :: s in marks.seen ==> !CycleFrom(g, s)
      invariant !found ==> forall m, w :: 0 <= m < k && h[id].items[m] == Ref(w) ==> !CycleFrom(g, w)
    {
      assert Known(h, h[id].items[k]);
      if h[id].items[k].Ref? {
        assert Edge(g, id, h[id].items[k].id);
      }
      found := HasCycle(h, h[id].items[k], marks, deeper);
      if found {
        CycleAlongEdge(g, id, h[id].items[k].id);
      }
      k := k + 1;
    }
    if !found {
      NoCycleIfNoneBelow(g, id);
    }
    marks.active := marks.active - {id};
    marks.seen := marks.seen + {id};
  }

  /** The guard sees exactly the cycles that can be closed without passing through a record. */
  lemma GuardSees(h: Heap, id: nat)
    requires Closed(h) && id in h
    ensures CycleFrom(ContainerView(h), id) <==>
            exists p :: IsWalk(h, p) && p[0] == id && Repeats(p) &&
                        forall k :: 0 <= k < |p| - 1 ==> !IsRecord(h, p[k])
  {
    var g := ContainerView(h);
    if CycleFrom(g, id) {
      var p :| IsWalk(g, p) && p[0] == id && Repeats(p);
      forall k | 0 <= k < |p| - 1 ensures !IsRecord(h, p[k]) && Edge(h, p[k], p[k + 1]) {
        assert Edge(g, p[k + 1 - 1], p[k + 1]);
      }
      forall k | 0 < k < |p| ensures Edge(h, p[k - 1], p[k]) {
        assert Edge(g, p[k - 1], p[k]);
      }
      assert IsWalk(h, p);
    }
    forall p | IsWalk(h, p) && p[0] == id && Repeats(p) &&
               forall k :: 0 <= k < |p| - 1 ==> !IsRecord(h, p[k])
      ensures IsWalk(g, p)
    {
      forall k | 0 < k < |p| ensures Edge(g, p[k - 1], p[k]) {
        assert Edge(h, p[k - 1], p[k]);
      }
    }
  }
}
