/** The low-dimensional Pareto frontier of a population (archives/quality_diversity.py). */
module ParetoFrontier {
  import opened Numbers

  type Vector = seq<real>

  /** `scores` holds the multi-head scores; `hasSeeds` says whether edge knowledge seeds are present. */
  datatype Candidate = Candidate(id: string, scores: map<string, real>, hasSeeds: bool)

  function Score(c: Candidate, axis: string): real {
    if axis !in c.scores then 0.0
    else if c.scores[axis] < 0.0 then 0.0
    else if c.scores[axis] > 1.0 then 1.0
    else c.scores[axis]
  }

  /** 0 means that no axis count was given. */
  function AxisCount(maxAxes: int): (n: nat)
    ensures 1 <= n <= 3 && (1 <= maxAxes <= 3 ==> n == maxAxes) && (maxAxes >= 3 || maxAxes == 0 ==> n == 3)
  {
    if maxAxes == 0 || maxAxes > 3 then 3 else if maxAxes < 1 then 1 else maxAxes
  }

  function VectorOf(c: Candidate, maxAxes: int): (v: Vector)
    ensures |v| == AxisCount(maxAxes)
  {
    [RealMax(Score(c, "evidence_progress"), RealMax(Score(c, "proof_progress"), Score(c, "tool_progress"))),
     (Score(c, "objective_alignment") + Score(c, "answer_likelihood")) / 2.0,
     RealMax(Score(c, "novelty"), RealMax(Score(c, "rarity"), if c.hasSeeds then 1.0 else 0.0))][..AxisCount(maxAxes)]
  }

  predicate Dominates(a: Vector, b: Vector)
    requires |a| == |b|
  {
    (forall k :: 0 <= k < |a| ==> a[k] >= b[k]) && (exists k :: 0 <= k < |a| && a[k] > b[k])
  }

  /** Dominance in the axes themselves: nowhere lower, somewhere higher. */
  lemma DominatesIff(a: Vector, b: Vector)
    requires |a| == |b|
    ensures Dominates(a, b) <==> (!exists k :: 0 <= k < |a| && a[k] < b[k]) && a != b
  {
  }

  const PROGRESS := {"evidence_progress", "proof_progress", "tool_progress"}

  /** The axes: the best progress, the mean quality, and the diversity, each within [0, 1]. */
  lemma AxesAre(c: Candidate, maxAxes: int)
    ensures var v := VectorOf(c, maxAxes);
            && (forall axis :: axis in PROGRESS ==> Score(c, axis) <= v[0])
            && (exists axis :: axis in PROGRESS && Score(c, axis) == v[0])
            && (|v| > 1 ==> v[1] + v[1] == Score(c, "objective_alignment") + Score(c, "answer_likelihood"))
            && (|v| > 2 ==> Score(c, "novelty") <= v[2] && Score(c, "rarity") <= v[2] && (c.hasSeeds ==> v[2] == 1.0))
            && (|v| > 2 && !c.hasSeeds ==> v[2] == Score(c, "novelty") || v[2] == Score(c, "rarity"))
            && forall k :: 0 <= k < |v| ==> 0.0 <= v[k] <= 1.0
  {
    assert "evidence_progress" in PROGRESS && "proof_progress" in PROGRESS && "tool_progress" in PROGRESS;
  }

  /** A score is clamped to [0, 1], and a missing one is 0. */
  lemma ScoreIs(c: Candidate, axis: string)
    ensures 0.0 <= Score(c, axis) <= 1.0
    ensures axis !in c.scores ==> Score(c, axis) == 0.0
    ensures axis in c.scores && 0.0 <= c.scores[axis] <= 1.0 ==> Score(c, axis) == c.scores[axis]
    ensures axis in c.scores && c.scores[axis] < 0.0 ==> Score(c, axis) == 0.0
    ensures axis in c.scores && c.scores[axis] > 1.0 ==> Score(c, axis) == 1.0
  {
  }

  function VectorsOf(cs: seq<Candidate>, maxAxes: int): (m: map<string, Vector>)
    ensures forall id :: id in m ==> |m[id]| == AxisCount(maxAxes)
    ensures forall c :: c in cs ==> c.id in m
  {
    if cs == [] then map[]
    else
      var last := cs[|cs| - 1];
      assert forall c :: c in cs <==> c in cs[..|cs| - 1] || c == last;
      VectorsOf(cs[..|cs| - 1], maxAxes)[last.id := VectorOf(last, maxAxes)]
  }

  /** Some candidate with another id dominates the one with this id. */
  ghost predicate DominatedIn(cs: seq<Candidate>, axes: map<string, Vector>, id: string, n: nat)
    requires id in axes && (forall c :: c in cs ==> c.id in axes)
    requires forall i, j :: i in axes && j in axes ==> |axes[i]| == |axes[j]|
  {
    exists k :: 0 <= k < n <= |cs| && cs[k].id != id && Dominates(axes[cs[k].id], axes[id])
  }

  method ParetoFrontierIds(cs: seq<Candidate>, maxAxes: int) returns (frontier: set<string>)
    ensures var axes := VectorsOf(cs, maxAxes);
            forall id :: id in frontier <==>
              exists i :: 0 <= i < |cs| && cs[i].id == id && !DominatedIn(cs, axes, id, |cs|)
  {
    var axes := VectorsOf(cs, maxAxes);
    frontier := {};
    for i := 0 to |cs|
      invariant forall id :: id in frontier <==>
                  exists m :: 0 <= m < i && cs[m].id == id && !DominatedIn(cs, axes, id, |cs|)
    {
      var vector := axes[cs[i].id];
      var dominated := false;
      for j := 0 to |cs|
        invariant !dominated && !DominatedIn(cs, axes, cs[i].id, j)
      {
        if cs[j].id == cs[i].id {
          continue;
        }
        if Dominates(axes[cs[j].id], vector) {
          dominated := true;
          break;
        }
      }
      if !dominated {
        frontier := frontier + {cs[i].id};
      }
    }
  }

  // ---------------------------------------------------------------------------
  // What the frontier is, for distinct ids
  // ---------------------------------------------------------------------------

  ghost predicate DistinctIds(cs: seq<Candidate>) {
    forall i, j :: 0 <= i < j < |cs| ==> cs[i].id != cs[j].id
  }

  lemma {:induction false} VectorsAreOwn(cs: seq<Candidate>, maxAxes: int, i: nat)
    requires DistinctIds(cs) && i < |cs|
    ensures VectorsOf(cs, maxAxes)[cs[i].id] == VectorOf(cs[i], maxAxes)
  {
    if i < |cs| - 1 {
      VectorsAreOwn(cs[..|cs| - 1], maxAxes, i);
    }
  }

  predicate Beats(a: Candidate, b: Candidate, maxAxes: int) {
    Dominates(VectorOf(a, maxAxes), VectorOf(b, maxAxes))
  }

  predicate Undominated(cs: seq<Candidate>, c: Candidate, maxAxes: int) {
    forall k :: 0 <= k < |cs| ==> !Beats(cs[k], c, maxAxes)
  }

  lemma BeatsIsAStrictOrder(a: Candidate, b: Candidate, c: Candidate, maxAxes: int)
    ensures !Beats(a, a, maxAxes)
    ensures Beats(a, b, maxAxes) && Beats(b, c, maxAxes) ==> Beats(a, c, maxAxes)
  {
    if Beats(a, b, maxAxes) && Beats(b, c, maxAxes) {
      var u, v, w := VectorOf(a, maxAxes), VectorOf(b, maxAxes), VectorOf(c, maxAxes);
      var k :| 0 <= k < |u| && u[k] > v[k];
      assert u[k] > w[k];
    }
  }

  /** For distinct ids the frontier is the set of undominated candidates. */
  lemma FrontierIsUndominated(cs: seq<Candidate>, maxAxes: int, i: nat)
    requires DistinctIds(cs) && i < |cs|
    ensures !DominatedIn(cs, VectorsOf(cs, maxAxes), cs[i].id, |cs|) <==> Undominated(cs, cs[i], maxAxes)
  {
    VectorsAreOwn(cs, maxAxes, i);
    forall k | 0 <= k < |cs| ensures VectorsOf(cs, maxAxes)[cs[k].id] == VectorOf(cs[k], maxAxes) {
      VectorsAreOwn(cs, maxAxes, k);
    }
    BeatsIsAStrictOrder(cs[i], cs[i], cs[i], maxAxes);
  }

  function Betters(cs: seq<Candidate>, c: Candidate, maxAxes: int): set<Candidate> {
    set d | d in cs && Beats(d, c, maxAxes)
  }

  /** Climbing from a dominated candidate to a better one ends at an undominated one. */
  lemma {:induction false} SomeUndominatedBeats(cs: seq<Candidate>, c: Candidate, maxAxes: int) returns (top: Candidate)
    requires c in cs && !Undominated(cs, c, maxAxes)
    ensures top in cs && Undominated(cs, top, maxAxes) && Beats(top, c, maxAxes)
    decreases |Betters(cs, c, maxAxes)|
  {
    var k :| 0 <= k < |cs| && Beats(cs[k], c, maxAxes);
    top := cs[k];
    if !Undominated(cs, top, maxAxes) {
      forall d | d in Betters(cs, top, maxAxes) ensures d in Betters(cs, c, maxAxes) {
        BeatsIsAStrictOrder(d, top, c, maxAxes);
      }
      BeatsIsAStrictOrder(top, top, top, maxAxes);
      assert top in Betters(cs, c, maxAxes) && top !in Betters(cs, top, maxAxes);
      ProperSubsetIsSmaller(Betters(cs, top, maxAxes), Betters(cs, c, maxAxes));
      var d := SomeUndominatedBeats(cs, top, maxAxes);
      BeatsIsAStrictOrder(d, top, c, maxAxes);
      top := d;
    }
  }

  lemma ProperSubsetIsSmaller<T>(a: set<T>, b: set<T>)
    requires a < b
    ensures |a| < |b|
  {
    assert |b| == |a| + |b - a|;
  }

  ghost predicate OnFrontier(cs: seq<Candidate>, frontier: set<string>, c: Candidate) {
    c in cs && c.id in frontier
  }

  /**
   Main result for the returned set: it is not empty, no member dominates
   another, and every candidate left out is dominated by some member.
   */
  lemma FrontierCovers(cs: seq<Candidate>, maxAxes: int, frontier: set<string>)
    requires DistinctIds(cs)
    requires var axes := VectorsOf(cs, maxAxes);
             forall id :: id in frontier <==>
               exists i :: 0 <= i < |cs| && cs[i].id == id && !DominatedIn(cs, axes, id, |cs|)
    ensures cs != [] ==> frontier != {}
    ensures forall a, b :: OnFrontier(cs, frontier, a) && OnFrontier(cs, frontier, b) ==> !Beats(a, b, maxAxes)
    ensures forall c :: c in cs && c.id !in frontier ==>
              exists top :: OnFrontier(cs, frontier, top) && Beats(top, c, maxAxes)
  {
    forall i | 0 <= i < |cs| ensures cs[i].id in frontier <==> Undominated(cs, cs[i], maxAxes) {
      FrontierIsUndominated(cs, maxAxes, i);
    }
    forall c | c in cs && c.id !in frontier
      ensures exists top :: OnFrontier(cs, frontier, top) && Beats(top, c, maxAxes)
    {
      var top := SomeUndominatedBeats(cs, c, maxAxes);
      assert OnFrontier(cs, frontier, top);
    }
    forall a, b | OnFrontier(cs, frontier, a) && OnFrontier(cs, frontier, b) ensures !Beats(a, b, maxAxes) {
      var i :| 0 <= i < |cs| && cs[i] == a;
      var j :| 0 <= j < |cs| && cs[j] == b;
    }
    if cs != [] && cs[0].id !in frontier {
      var top := SomeUndominatedBeats(cs, cs[0], maxAxes);
      assert OnFrontier(cs, frontier, top);
    }
  }
}
