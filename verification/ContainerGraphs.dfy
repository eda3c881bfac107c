/**
 Values with sharing and cycles.  A value is a scalar or a reference into a
 finite heap of containers: `id(value)` is the reference; `dict`,
 `list`/`tuple`/`set` and dataclass instances are the three kinds of container.
 */
module ContainerGraphs {
  datatype Value = Scalar(text: string) | Ref(id: nat)

  datatype Kind = Dict | List | Record

  datatype Node = Node(kind: Kind, keys: seq<string>, items: seq<Value>)

  type Heap = map<nat, Node>

  predicate Known(h: Heap, v: Value) {
    v.Ref? ==> v.id in h
  }

  ghost predicate Closed(h: Heap) {
    forall id, k :: id in h && 0 <= k < |h[id].items| ==> Known(h, h[id].items[k])
  }

  // ---------------------------------------------------------------------------
  // Reference definitions: walks, cycles, finite unfoldings
  // ---------------------------------------------------------------------------

  ghost predicate Edge(h: Heap, u: nat, w: nat) {
    u in h && w in h && Ref(w) in h[u].items
  }

  ghost predicate IsWalk(h: Heap, p: seq<nat>) {
    && p != [] && p[0] in h
    && forall k :: 0 < k < |p| ==> Edge(h, p[k - 1], p[k])
  }

  ghost predicate Repeats(p: seq<nat>) {
    exists i, j :: 0 <= i < j < |p| && p[i] == p[j]
  }

  /** Some walk from `id` comes back to a container it has already passed. */
  ghost predicate CycleFrom(h: Heap, id: nat) {
    exists p :: IsWalk(h, p) && p[0] == id && Repeats(p)
  }

  lemma CycleAlongEdge(h: Heap, u: nat, w: nat)
    requires Edge(h, u, w) && CycleFrom(h, w)
    ensures CycleFrom(h, u)
  {
    var p :| IsWalk(h, p) && p[0] == w && Repeats(p);
    var i, j :| 0 <= i < j < |p| && p[i] == p[j];
    var q := [u] + p;
    assert q[i + 1] == q[j + 1];
    assert forall k :: 0 < k < |q| ==> q[k] == p[k - 1];
    assert IsWalk(h, q);
  }

  lemma CycleBelow(h: Heap, u: nat) returns (w: nat)
    requires CycleFrom(h, u)
    ensures Edge(h, u, w) && CycleFrom(h, w)
  {
    var p :| IsWalk(h, p) && p[0] == u && Repeats(p);
    var i, j :| 0 <= i < j < |p| && p[i] == p[j];
    assert Edge(h, p[0], p[1]);
    w := p[1];
    if i > 0 {
      var q := p[1..];
      assert q[i - 1] == q[j - 1];
      assert IsWalk(h, q);
    } else {
      var q := p[1..j + 1] + [p[1]];
      assert q[0] == q[j];
      forall k | 0 < k < |q| ensures Edge(h, q[k - 1], q[k]) {
        assert q[k - 1] == p[k];
        if k == j { assert p[j] == u; } else { assert q[k] == p[k + 1]; }
      }
      assert IsWalk(h, q);
    }
  }

  lemma NoCycleIfNoneBelow(h: Heap, u: nat)
    requires forall w :: Edge(h, u, w) ==> !CycleFrom(h, w)
    ensures !CycleFrom(h, u)
  {
    if CycleFrom(h, u) {
      var _ := CycleBelow(h, u);
    }
  }

  /** Closing the current path: an edge from its end back into it is a cycle. */
  lemma TrailCloses(h: Heap, trail: seq<nat>, i: nat)
    requires IsWalk(h, trail) && i < |trail| && Edge(h, trail[|trail| - 1], trail[i])
    ensures CycleFrom(h, trail[i])
  {
    var q := trail[i..] + [trail[i]];
    assert q[0] == q[|q| - 1];
    forall k | 0 < k < |q| ensures Edge(h, q[k - 1], q[k]) {
      assert q[k - 1] == trail[i + k - 1];
      if k < |q| - 1 { assert q[k] == trail[i + k]; }
    }
    assert IsWalk(h, q);
  }
}
