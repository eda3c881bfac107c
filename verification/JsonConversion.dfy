/**
 The conversion that cuts cycles and looks inside all three kinds of container
 (core/serialization.py), and the guarded file write (durable/file_lock.py).
 */
module JsonConversion {
  import opened ContainerGraphs
  import opened CycleGuard
  import opened Wrappers

  datatype Json =
    | JScalar(text: string)
    | JCircular                                      // the string "[CIRCULAR]"
    | JNode(isArray: bool, keys: seq<string>, items: seq<Json>)

  /** `_json_ready` as a function of the path set it is called with. */
  function Unfold(h: Heap, v: Value, path: set<nat>): (j: Json)
    requires Closed(h) && Known(h, v)
    decreases h.Keys - path, 0
  {
    match v
    case Scalar(t) => JScalar(t)
    case Ref(id) =>
      if id in path then JCircular
      else
        assert h.Keys - (path + {id}) < h.Keys - path by {
          assert id in h.Keys - path && id !in h.Keys - (path + {id});
        }
        assert forall k :: 0 <= k < |h[id].items| ==> Known(h, h[id].items[k]);
        JNode(h[id].kind == List, h[id].keys, UnfoldAll(h, h[id].items, path + {id}))
  }

  function UnfoldAll(h: Heap, items: seq<Value>, path: set<nat>): (js: seq<Json>)
    requires Closed(h) && forall k :: 0 <= k < |items| ==> Known(h, items[k])
    ensures |js| == |items|
    ensures forall k :: 0 <= k < |items| ==> js[k] == Unfold(h, items[k], path)
    decreases h.Keys - path, |items| + 1
  {
    if items == [] then []
    else UnfoldAll(h, items[..|items| - 1], path) + [Unfold(h, items[|items| - 1], path)]
  }

  ghost predicate HasMarker(j: Json) {
    match j
    case JScalar(_) => false
    case JCircular => true
    case JNode(_, _, items) => exists k :: 0 <= k < |items| && HasMarker(items[k])
  }

  /** `j` is the full, marker-free unfolding of `v`, defined on `j` alone. */
  ghost predicate IsUnfolding(h: Heap, v: Value, j: Json)
    decreases j
  {
    match j
    case JScalar(t) => v == Scalar(t)
    case JCircular => false
    case JNode(isArray, keys, items) =>
      && v.Ref? && v.id in h
      && isArray == (h[v.id].kind == List) && keys == h[v.id].keys
      && |items| == |h[v.id].items|
      && forall k :: 0 <= k < |items| ==> IsUnfolding(h, h[v.id].items[k], items[k])
  }

  /** A walk from `id` runs into the path or into itself. */
  ghost predicate Blocked(h: Heap, id: nat, path: set<nat>) {
    exists p, j :: IsWalk(h, p) && p[0] == id && 0 <= j < |p| && (p[j] in path || p[j] in p[..j])
  }

  lemma BlockedBelow(h: Heap, id: nat, path: set<nat>)
    requires id in h && id !in path
    ensures Blocked(h, id, path) <==> exists w :: Edge(h, id, w) && Blocked(h, w, path + {id})
  {
    if Blocked(h, id, path) {
      var p, j :| IsWalk(h, p) && p[0] == id && 0 <= j < |p| && (p[j] in path || p[j] in p[..j]);
      var q := p[1..];
      assert Edge(h, p[0], p[1]);
      assert IsWalk(h, q) && q[j - 1] == p[j];
      if p[j] !in path {
        var i :| 0 <= i < j && p[i] == p[j];
        if i > 0 { assert q[..j - 1][i - 1] == p[j]; }
      }
      assert Blocked(h, p[1], path + {id});
    }
    forall w | Edge(h, id, w) && Blocked(h, w, path + {id}) ensures Blocked(h, id, path) {
      var q, j :| IsWalk(h, q) && q[0] == w && 0 <= j < |q| && (q[j] in path + {id} || q[j] in q[..j]);
      var p := [id] + q;
      forall k | 0 < k < |p| ensures Edge(h, p[k - 1], p[k]) {
        if k > 1 { assert Edge(h, q[k - 2], q[k - 1]); }
      }
      assert IsWalk(h, p) && p[j + 1] == q[j];
      if q[j] in q[..j] {
        var i :| 0 <= i < j && q[i] == q[j];
        assert p[..j + 1][i + 1] == q[j];
      } else if q[j] == id {
        assert p[..j + 1][0] == id;
      }
    }
  }

  lemma {:induction false} MarkerIffBlocked(h: Heap, id: nat, path: set<nat>)
    requires Closed(h) && id in h
    ensures HasMarker(Unfold(h, Ref(id), path)) <==> Blocked(h, id, path)
    decreases h.Keys - path
  {
    if id in path {
      assert IsWalk(h, [id]) && [id][0] in path;
    } else {
      BlockedBelow(h, id, path);
      var items := h[id].items;
      var js := UnfoldAll(h, items, path + {id});
      assert Unfold(h, Ref(id), path) == JNode(h[id].kind == List, h[id].keys, js);
      forall k | 0 <= k < |items| && items[k].Ref?
        ensures Edge(h, id, items[k].id)
        ensures HasMarker(js[k]) <==> Blocked(h, items[k].id, path + {id})
      {
        assert Known(h, items[k]);
        assert id in h.Keys - path && id !in h.Keys - (path + {id});
        MarkerIffBlocked(h, items[k].id, path + {id});
      }
      if Blocked(h, id, path) {
        var w :| Edge(h, id, w) && Blocked(h, w, path + {id});
        var k :| 0 <= k < |items| && items[k] == Ref(w);
        assert HasMarker(js[k]);
      }
    }
  }

  /** The marker is inserted exactly when a cycle is reachable from the root. */
  lemma MarkerIffCycle(h: Heap, id: nat)
    requires Closed(h) && id in h
    ensures HasMarker(Unfold(h, Ref(id), {})) <==> CycleFrom(h, id)
  {
    MarkerIffBlocked(h, id, {});
    if CycleFrom(h, id) {
      var p :| IsWalk(h, p) && p[0] == id && Repeats(p);
      var i, j :| 0 <= i < j < |p| && p[i] == p[j];
      assert p[..j][i] == p[j];
    }
  }

  lemma {:induction false} MarkerFreeIsUnfolding(h: Heap, v: Value, path: set<nat>)
    requires Closed(h) && Known(h, v)
    requires !HasMarker(Unfold(h, v, path))
    ensures IsUnfolding(h, v, Unfold(h, v, path))
    decreases h.Keys - path
  {
    if v.Ref? {
      var items := h[v.id].items;
      var js := UnfoldAll(h, items, path + {v.id});
      assert Unfold(h, v, path) == JNode(h[v.id].kind == List, h[v.id].keys, js);
      assert v.id in h.Keys - path && v.id !in h.Keys - (path + {v.id});
      forall k | 0 <= k < |items| ensures IsUnfolding(h, items[k], js[k]) {
        assert Known(h, items[k]);
        MarkerFreeIsUnfolding(h, items[k], path + {v.id});
      }
    }
  }

  lemma {:induction false} UnfoldingIsUnique(h: Heap, v: Value, j: Json, j': Json)
    requires IsUnfolding(h, v, j) && IsUnfolding(h, v, j')
    ensures j == j'
    decreases j
  {
    if j.JNode? {
      forall k | 0 <= k < |j.items| ensures j.items[k] == j'.items[k] {
        UnfoldingIsUnique(h, h[v.id].items[k], j.items[k], j'.items[k]);
      }
    }
  }

  lemma {:induction false} UnfoldingExcludesCycle(h: Heap, id: nat, j: Json)
    requires IsUnfolding(h, Ref(id), j)
    ensures !CycleFrom(h, id)
    decreases j
  {
    forall w | Edge(h, id, w) ensures !CycleFrom(h, w) {
      var k :| 0 <= k < |h[id].items| && h[id].items[k] == Ref(w);
      UnfoldingExcludesCycle(h, w, j.items[k]);
    }
    NoCycleIfNoneBelow(h, id);
  }

  /** A value has a finite unfolding exactly when it is acyclic, and then the conversion yields it. */
  lemma ConversionIsTheUnfolding(h: Heap, id: nat)
    requires Closed(h) && id in h
    ensures (exists j :: IsUnfolding(h, Ref(id), j)) <==> !CycleFrom(h, id)
    ensures forall j :: IsUnfolding(h, Ref(id), j) ==> j == Unfold(h, Ref(id), {})
  {
    MarkerIffCycle(h, id);
    var u := Unfold(h, Ref(id), {});
    if !CycleFrom(h, id) {
      MarkerFreeIsUnfolding(h, Ref(id), {});
      assert IsUnfolding(h, Ref(id), u);
    }
    forall j | IsUnfolding(h, Ref(id), j) ensures !CycleFrom(h, id) && j == u {
      UnfoldingExcludesCycle(h, id, j);
      UnfoldingIsUnique(h, Ref(id), j, u);
    }
  }

  class PathSet {
    var ids: set<nat>

    constructor ()
      ensures ids == {}
    {
      ids := {};
    }
  }

  /** The recursion as written: the path set is updated in place and restored. */
  method JsonReady(h: Heap, v: Value, path: PathSet) returns (j: Json)
    requires Closed(h) && Known(h, v)
    modifies path
    ensures j == Unfold(h, v, old(path.ids)) && path.ids == old(path.ids)
    decreases h.Keys - path.ids
  {
    if v.Scalar? {
      return JScalar(v.text);
    }
    var id := v.id;
    if id in path.ids {
      return JCircular;
    }
    path.ids := path.ids + {id};
    assert id in h.Keys - old(path.ids) && id !in h.Keys - path.ids;
    var items: seq<Json> := [];
    for k := 0 to |h[id].items|
      invariant path.ids == old(path.ids) + {id}
      invariant |items| == k
      invariant forall m :: 0 <= m < k ==>
                  Known(h, h[id].items[m]) && items[m] == Unfold(h, h[id].items[m], old(path.ids) + {id})
    {
      assert Known(h, h[id].items[k]);
      var item := JsonReady(h, h[id].items[k], path);
      items := items + [item];
    }
    assert forall k :: 0 <= k < |h[id].items| ==> Known(h, h[id].items[k]);
    assert items == UnfoldAll(h, h[id].items, old(path.ids) + {id});
    path.ids := path.ids - {id};
    j := JNode(h[id].kind == List, h[id].keys, items);
  }

  // ---------------------------------------------------------------------------
  // The guarded write
  // ---------------------------------------------------------------------------

  datatype WriteError = NotAnObject | CircularReference

  class JsonFile {
    var content: Option<Json>

    constructor ()
      ensures content == None
    {
      content := None;
    }

    /** Check, then convert, then replace the file: a rejected write leaves it alone. */
    method AtomicWriteJson(h: Heap, root: Value, allowCycles: bool) returns (r: Result<Json, WriteError>)
      requires Closed(h) && Known(h, root)
      modifies this
      ensures r == Err(NotAnObject) <==> !(root.Ref? && h[root.id].kind == Dict)
      ensures r == Err(CircularReference) <==>
              root.Ref? && h[root.id].kind == Dict && !allowCycles && CycleFrom(ContainerView(h), root.id)
      ensures r.Err? ==> content == old(content)
      ensures r.Ok? ==> r.value == Unfold(h, root, {}) && content == Some(r.value)
    {
      if root.Scalar? || h[root.id].kind != Dict {
        return Err(NotAnObject);
      }
      if !allowCycles {
        var marks := new Marks();
        var found := HasCycle(h, root, marks, []);
        if found {
          return Err(CircularReference);
        }
      }
      var path := new PathSet();
      var j := JsonReady(h, root, path);
      content := Some(j);
      return Ok(j);
    }
  }

  ghost predicate RecordFree(h: Heap, id: nat) {
    forall p :: IsWalk(h, p) && p[0] == id ==> forall k :: 0 <= k < |p| ==> !IsRecord(h, p[k])
  }

  /** Where no dataclass is reachable, passing the guard means the full unfolding is written. */
  lemma GuardedWriteIsFaithful(h: Heap, id: nat)
    requires Closed(h) && id in h && RecordFree(h, id)
    ensures CycleFrom(ContainerView(h), id) <==> HasMarker(Unfold(h, Ref(id), {}))
    ensures !CycleFrom(ContainerView(h), id) ==> IsUnfolding(h, Ref(id), Unfold(h, Ref(id), {}))
  {
    GuardSees(h, id);
    MarkerIffCycle(h, id);
    if !CycleFrom(h, id) {
      MarkerFreeIsUnfolding(h, Ref(id), {});
    }
  }

  ghost predicate EntersRecord(h: Heap, p: seq<nat>) {
    exists k :: 0 <= k < |p| - 1 && IsRecord(h, p[k])
  }

  /** After the guard has passed, exactly a walk that passes a record and repeats writes the marker. */
  lemma GuardMissesExactly(h: Heap, id: nat)
    requires Closed(h) && id in h && !CycleFrom(ContainerView(h), id)
    ensures HasMarker(Unfold(h, Ref(id), {})) <==>
            exists p :: IsWalk(h, p) && p[0] == id && Repeats(p) && EntersRecord(h, p)
  {
    GuardSees(h, id);
    MarkerIffCycle(h, id);
    forall p | IsWalk(h, p) && p[0] == id && Repeats(p) ensures EntersRecord(h, p) {
    }
  }

  /** An object holding a dataclass instance that refers to itself. */
  const RECORD_LOOP: Heap := map[0 := Node(Dict, ["a"], [Ref(1)]), 1 := Node(Record, ["b"], [Ref(1)])]

  lemma RecordLoopWalks(q: seq<nat>)
    requires IsWalk(RECORD_LOOP, q) && q[0] == 0 && Repeats(q)
    ensures |q| > 2 && q[1] == 1
  {
    if |q| > 1 {
      assert Edge(RECORD_LOOP, q[0], q[1]);
    }
  }

  /** A cycle through a dataclass passes the guard and is written with a marker. */
  lemma RecordCycleEscapesGuard()
    ensures Closed(RECORD_LOOP) && RECORD_LOOP[0].kind == Dict
    ensures !CycleFrom(ContainerView(RECORD_LOOP), 0)
    ensures HasMarker(Unfold(RECORD_LOOP, Ref(0), {}))
  {
    var h := RECORD_LOOP;
    assert h[0].items[0] == Ref(1) && h[1].items[0] == Ref(1);
    assert Edge(h, 0, 1) && Edge(h, 1, 1);
    var p := [0, 1, 1];
    assert IsWalk(h, p) && p[1] == p[2];
    MarkerIffCycle(h, 0);
    GuardSees(h, 0);
    forall q | IsWalk(h, q) && q[0] == 0 && Repeats(q) ensures |q| > 2 && IsRecord(h, q[1]) {
      RecordLoopWalks(q);
    }
  }
}
