/** Lists of names: sums over keys, first occurrences, occurrence counts. */
module Counting {
  ghost function SumOver(keys: seq<string>, f: string -> int): int {
    if keys == [] then 0 else SumOver(keys[..|keys| - 1], f) + f(keys[|keys| - 1])
  }

  ghost predicate Distinct(keys: seq<string>) {
    forall i, j :: 0 <= i < j < |keys| ==> keys[i] != keys[j]
  }

  /** Keys of a dictionary filled in this order. */
  function FirstOccurrences(xs: seq<string>): seq<string> {
    if xs == [] then []
    else
      var front := FirstOccurrences(xs[..|xs| - 1]);
      if xs[|xs| - 1] in front then front else front + [xs[|xs| - 1]]
  }

  function Occurs(xs: seq<string>, x: string): nat {
    if xs == [] then 0 else Occurs(xs[..|xs| - 1], x) + if xs[|xs| - 1] == x then 1 else 0
  }

  function OccursIn(xs: seq<string>): string -> int {
    g => Occurs(xs, g)
  }

  lemma {:induction false} FirstOccurrencesList(xs: seq<string>)
    ensures Distinct(FirstOccurrences(xs))
    ensures forall x :: x in FirstOccurrences(xs) <==> x in xs
    ensures |FirstOccurrences(xs)| <= |xs|
  {
    if xs != [] {
      FirstOccurrencesList(xs[..|xs| - 1]);
      assert forall x :: x in xs <==> x in xs[..|xs| - 1] || x == xs[|xs| - 1];
    }
  }

  /** A name keeps the place of its first occurrence: a longer list only adds names at the end. */
  lemma {:induction false} FirstOccurrencesGrow(xs: seq<string>, ys: seq<string>)
    ensures FirstOccurrences(xs) <= FirstOccurrences(xs + ys)
  {
    if ys == [] {
      assert xs + ys == xs;
    } else {
      assert (xs + ys)[..|xs + ys| - 1] == xs + ys[..|ys| - 1];
      FirstOccurrencesGrow(xs, ys[..|ys| - 1]);
    }
  }

  lemma {:induction false} DistinctIsItsOwn(xs: seq<string>)
    requires Distinct(xs)
    ensures FirstOccurrences(xs) == xs
  {
    if xs != [] {
      DistinctIsItsOwn(xs[..|xs| - 1]);
      assert xs == xs[..|xs| - 1] + [xs[|xs| - 1]];
    }
  }

  /** Appending to a list without repetitions is appending to the list it came from. */
  lemma {:induction false} FirstOccurrencesAppend(xs: seq<string>, ys: seq<string>)
    ensures FirstOccurrences(FirstOccurrences(xs) + ys) == FirstOccurrences(xs + ys)
  {
    if ys == [] {
      FirstOccurrencesList(xs);
      DistinctIsItsOwn(FirstOccurrences(xs));
      assert xs + ys == xs && FirstOccurrences(xs) + ys == FirstOccurrences(xs);
    } else {
      var front, last := ys[..|ys| - 1], ys[|ys| - 1];
      FirstOccurrencesAppend(xs, front);
      assert (xs + ys)[..|xs + ys| - 1] == xs + front;
      var f := FirstOccurrences(xs);
      assert (f + ys)[..|f + ys| - 1] == f + front;
    }
  }

  lemma {:induction false} SumMonotone(keys: seq<string>, f: string -> int, g: string -> int)
    requires forall k :: k in keys ==> f(k) <= g(k)
    ensures SumOver(keys, f) <= SumOver(keys, g)
  {
    if keys != [] {
      assert keys[|keys| - 1] in keys;
      SumMonotone(keys[..|keys| - 1], f, g);
    }
  }

  lemma {:induction false} SumOfOneMore(keys: seq<string>, xs: seq<string>)
    requires xs != [] && Distinct(keys)
    ensures SumOver(keys, OccursIn(xs)) ==
            SumOver(keys, OccursIn(xs[..|xs| - 1])) + if xs[|xs| - 1] in keys then 1 else 0
  {
    if keys != [] {
      var front, k := keys[..|keys| - 1], keys[|keys| - 1];
      SumOfOneMore(front, xs);
      assert k !in front;
      assert forall x :: x in keys <==> x in front || x == k;
    }
  }

  /** Counting by group loses nothing. */
  lemma {:induction false} OccurrencesAddUp(keys: seq<string>, xs: seq<string>)
    requires Distinct(keys) && forall x :: x in xs ==> x in keys
    ensures SumOver(keys, OccursIn(xs)) == |xs|
    decreases |xs|
  {
    if xs == [] {
      NothingOccurs(keys);
    } else {
      assert xs[|xs| - 1] in xs;
      OccurrencesAddUp(keys, xs[..|xs| - 1]);
      SumOfOneMore(keys, xs);
    }
  }

  lemma {:induction false} NothingOccurs(keys: seq<string>)
    ensures SumOver(keys, OccursIn([])) == 0
  {
    if keys != [] {
      NothingOccurs(keys[..|keys| - 1]);
    }
  }

  lemma {:induction false} DistinctCount(keys: seq<string>)
    requires Distinct(keys)
    ensures |set k | k in keys| == |keys|
  {
    if keys != [] {
      var front, last := keys[..|keys| - 1], keys[|keys| - 1];
      DistinctCount(front);
      assert last !in front;
      assert (set k | k in keys) == (set k | k in front) + {last};
    }
  }

  lemma SubsetIsNoLarger<T>(a: set<T>, b: set<T>)
    requires a <= b
    ensures |a| <= |b|
  {
    assert b == a + (b - a);
  }
}
