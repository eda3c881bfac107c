/** Nesting depth of decoded JSON, computed with an explicit stack (evidence/planner.py). */
module JsonDepth {
  import opened Numbers
  import opened Wrappers

  datatype Json = Leaf | Container(isObject: bool, items: seq<Json>)

  // ---------------------------------------------------------------------------
  // Reference definition: the longest chain of nested values
  // ---------------------------------------------------------------------------

  function Depth(j: Json): nat {
    match j
    case Leaf => 1
    case Container(_, items) => 1 + DeepestOf(items)
  }

  function DeepestOf(items: seq<Json>): nat {
    if items == [] then 0 else Max(DeepestOf(items[..|items| - 1]), Depth(items[|items| - 1]))
  }

  lemma {:induction false} DeepestIsAttained(items: seq<Json>) returns (k: nat)
    requires items != []
    ensures k < |items| && Depth(items[k]) == DeepestOf(items)
  {
    k := |items| - 1;
    if |items| == 1 {
      assert DeepestOf(items[..0]) == 0;
    } else if DeepestOf(items) != Depth(items[k]) {
      k := DeepestIsAttained(items[..|items| - 1]);
    }
  }

  lemma {:induction false} DeepestIsABound(items: seq<Json>, k: nat)
    requires k < |items|
    ensures Depth(items[k]) <= DeepestOf(items)
  {
    if k < |items| - 1 {
      DeepestIsABound(items[..|items| - 1], k);
    }
  }

  /** `path` is a sequence of child positions that can be followed from `j`. */
  ghost predicate Follows(j: Json, path: seq<nat>)
    decreases |path|
  {
    path == [] || (j.Container? && path[0] < |j.items| && Follows(j.items[path[0]], path[1..]))
  }

  lemma {:induction false} SomePathIsThatLong(j: Json) returns (path: seq<nat>)
    ensures Follows(j, path) && |path| + 1 == Depth(j)
    decreases j
  {
    path := [];
    if j.Container? && j.items != [] {
      var k := DeepestIsAttained(j.items);
      var tail := SomePathIsThatLong(j.items[k]);
      path := [k] + tail;
      assert path[1..] == tail;
    }
  }

  lemma {:induction false} NoPathIsLonger(j: Json, path: seq<nat>)
    requires Follows(j, path)
    ensures |path| + 1 <= Depth(j)
    decreases |path|
  {
    if path != [] {
      NoPathIsLonger(j.items[path[0]], path[1..]);
      DeepestIsABound(j.items, path[0]);
    }
  }

  /** Depth is one more than the length of the longest path that can be followed. */
  lemma DepthIsLongestPath(j: Json)
    ensures exists path :: Follows(j, path) && |path| + 1 == Depth(j)
    ensures forall path :: Follows(j, path) ==> |path| + 1 <= Depth(j)
  {
    var _ := SomePathIsThatLong(j);
    forall path | Follows(j, path) ensures |path| + 1 <= Depth(j) {
      NoPathIsLonger(j, path);
    }
  }

  // ---------------------------------------------------------------------------
  // The stack
  // ---------------------------------------------------------------------------

  datatype Entry = Entry(value: Json, depth: nat)

  /** Deepest level reached below any pending entry. */
  ghost function Reach(stack: seq<Entry>): int {
    if stack == [] then 0
    else
      var e := stack[|stack| - 1];
      Max(Reach(stack[..|stack| - 1]), e.depth + Depth(e.value) - 1)
  }

  ghost function Nodes(j: Json): nat {
    match j
    case Leaf => 1
    case Container(_, items) => 1 + NodesOf(items)
  }

  ghost function NodesOf(items: seq<Json>): nat {
    if items == [] then 0 else NodesOf(items[..|items| - 1]) + Nodes(items[|items| - 1])
  }

  ghost function Pending(stack: seq<Entry>): nat {
    if stack == [] then 0 else Pending(stack[..|stack| - 1]) + Nodes(stack[|stack| - 1].value)
  }

  function Push(stack: seq<Entry>, items: seq<Json>, depth: nat): seq<Entry> {
    if items == [] then stack
    else Push(stack, items[..|items| - 1], depth) + [Entry(items[|items| - 1], depth)]
  }

  lemma {:induction false} PushMeasures(stack: seq<Entry>, items: seq<Json>, depth: nat)
    ensures Pending(Push(stack, items, depth)) == Pending(stack) + NodesOf(items)
    ensures Reach(Push(stack, items, depth)) ==
            if items == [] then Reach(stack) else Max(Reach(stack), depth + DeepestOf(items) - 1)
    decreases |items|
  {
    if items != [] {
      var front := items[..|items| - 1];
      PushMeasures(stack, front, depth);
      var pushed := Push(stack, items, depth);
      assert pushed[..|pushed| - 1] == Push(stack, front, depth);
    }
  }

  lemma {:induction false} PushedDepths(stack: seq<Entry>, items: seq<Json>, depth: nat)
    ensures forall e :: e in Push(stack, items, depth) ==> e in stack || e.depth == depth
    decreases |items|
  {
    if items != [] {
      PushedDepths(stack, items[..|items| - 1], depth);
    }
  }

  /** Levels start at 1 and go at most one beyond the limit. */
  ghost predicate DepthsWithin(stack: seq<Entry>, maxDepth: Option<int>) {
    forall e :: e in stack ==> 1 <= e.depth && (maxDepth.Some? ==> e.depth <= Max(maxDepth.value, 0) + 1)
  }

  /** Replacing a container by its items keeps what is reached, apart from the container's own level. */
  lemma PushReaches(stack: seq<Entry>, e: Entry)
    requires e.value.Container?
    ensures var pushed := Push(stack, e.value.items, e.depth + 1);
            && Max(e.depth, Reach(pushed)) == Max(Reach(stack), e.depth + Depth(e.value) - 1)
            && Pending(pushed) < Pending(stack) + Nodes(e.value)
  {
    PushMeasures(stack, e.value.items, e.depth + 1);
    assert Depth(e.value) == 1 + DeepestOf(e.value.items);
  }

  lemma PopStaysWithin(stack: seq<Entry>, maxDepth: Option<int>)
    requires stack != [] && DepthsWithin(stack, maxDepth)
    ensures DepthsWithin(stack[..|stack| - 1], maxDepth)
    ensures 1 <= stack[|stack| - 1].depth
    ensures maxDepth.Some? ==> stack[|stack| - 1].depth <= Max(maxDepth.value, 0) + 1
  {
    assert stack[|stack| - 1] in stack;
  }

  lemma PopReaches(stack: seq<Entry>, seen: int, full: int)
    requires stack != [] && Max(seen, Reach(stack)) == full
    ensures var e, front := stack[|stack| - 1], stack[..|stack| - 1];
            && Max(seen, Max(Reach(front), e.depth + Depth(e.value) - 1)) == full
            && Depth(e.value) >= 1 && Pending(stack) == Pending(front) + Nodes(e.value)
  {
  }

  lemma PushStaysWithin(stack: seq<Entry>, items: seq<Json>, depth: nat, maxDepth: Option<int>)
    requires DepthsWithin(stack, maxDepth) && 1 <= depth
    requires maxDepth.Some? ==> depth <= Max(maxDepth.value, 0) + 1
    ensures DepthsWithin(Push(stack, items, depth), maxDepth)
  {
    PushedDepths(stack, items, depth);
  }

  /** The level just visited is at most the depth, and its own entry counts for it. */
  lemma SeenAbsorbs(seen: int, rest: int, below: int, full: int, depth: int, reach: int)
    requires Max(seen, Max(rest, below)) == full && Max(depth, reach) == Max(rest, below)
    ensures Max(Max(seen, depth), reach) == full
  {
  }

  lemma StoppedAtLimit(seen: int, rest: int, below: int, full: int, depth: int, limit: int)
    requires Max(seen, Max(rest, below)) == full && below >= depth >= 1
    requires limit < depth <= Max(limit, 0) + 1
    ensures depth == Min(full, Max(limit, 0) + 1)
  {
  }

  /**
   With no limit the loop returns the depth.  With a limit it stops at the first
   level beyond it, so the result is the depth cut off at `max(limit, 0) + 1`.
   */
  method IterativeJsonDepth(value: Json, maxDepth: Option<int>) returns (depth: nat)
    ensures maxDepth == None ==> depth == Depth(value)
    ensures maxDepth.Some? ==> depth == Min(Depth(value), Max(maxDepth.value, 0) + 1)
  {
    var maxSeen := 0;
    var stack := [Entry(value, 1)];
    ghost var full := Depth(value);
    assert stack[..0] == [];
    while stack != []
      invariant Max(maxSeen, Reach(stack)) == full
      invariant maxDepth.Some? ==> maxSeen <= Max(maxDepth.value, 0)
      invariant DepthsWithin(stack, maxDepth) && maxSeen >= 0
      decreases Pending(stack)
    {
      var current := stack[|stack| - 1];
      PopStaysWithin(stack, maxDepth);
      PopReaches(stack, maxSeen, full);
      stack := stack[..|stack| - 1];
      ghost var seen, rest, below := maxSeen, Reach(stack), current.depth + Depth(current.value) - 1;
      if current.depth > maxSeen {
        maxSeen := current.depth;
      }
      if maxDepth.Some? && current.depth > maxDepth.value {
        StoppedAtLimit(seen, rest, below, full, current.depth, maxDepth.value);
        return current.depth;
      }
      stack := Expand(stack, current, maxDepth);
      SeenAbsorbs(seen, rest, below, full, current.depth, Reach(stack));
    }
    return maxSeen;
  }

  /** Pushes the items of a container one level down; a leaf has none. */
  method Expand(stack: seq<Entry>, current: Entry, ghost maxDepth: Option<int>) returns (pushed: seq<Entry>)
    requires DepthsWithin(stack, maxDepth) && 1 <= current.depth
    requires maxDepth.Some? ==> current.depth <= maxDepth.value
    ensures DepthsWithin(pushed, maxDepth) && Pending(pushed) < Pending(stack) + Nodes(current.value)
    ensures Max(current.depth, Reach(pushed)) == Max(Reach(stack), current.depth + Depth(current.value) - 1)
  {
    pushed := stack;
    if current.value.Container? {
      PushReaches(stack, current);
      PushStaysWithin(stack, current.value.items, current.depth + 1, maxDepth);
      pushed := Push(stack, current.value.items, current.depth + 1);
    }
  }

  /** The caller's test `depth > limit` is the same as testing the true depth. */
  lemma LimitIsDecided(value: Json, limit: int)
    ensures Min(Depth(value), Max(limit, 0) + 1) > limit <==> Depth(value) > limit
    ensures Depth(value) <= limit ==> Min(Depth(value), Max(limit, 0) + 1) == Depth(value)
  {
    assert Depth(value) >= 1;
  }
}
