/**
 Typed moves on structured artifacts (candidates/mutation.py): validation,
 application and the recomputed delta of `path_assignment`, `field_split` and
 `constraint_strengthening`.
 */
module DictMoves {
  import opened Wrappers

  datatype Value =
    | Null
    | Bool(b: bool)
    | Int(i: int)
    | Float(r: real)
    | Str(s: string)
    | List(items: seq<Value>)
    | Dict(fields: map<string, Value>)

  /** `type(a) is type(b)` */
  predicate SameType(a: Value, b: Value) {
    || (a.Null? && b.Null?) || (a.Bool? && b.Bool?) || (a.Int? && b.Int?) || (a.Float? && b.Float?)
    || (a.Str? && b.Str?) || (a.List? && b.List?) || (a.Dict? && b.Dict?)
  }

  function Number(v: Value): Option<real> {
    match v
    case Bool(b) => Some(if b then 1.0 else 0.0)
    case Int(i) => Some(i as real)
    case Float(r) => Some(r)
    case _ => None
  }

  /** `a == b`: numbers compare by value across bool, int and float, also inside containers. */
  predicate PyEq(a: Value, b: Value)
    decreases a
  {
    if Number(a).Some? || Number(b).Some? then Number(a) == Number(b)
    else if a.List? && b.List? then
      |a.items| == |b.items| && forall k :: 0 <= k < |a.items| ==> PyEq(a.items[k], b.items[k])
    else if a.Dict? && b.Dict? then
      a.fields.Keys == b.fields.Keys && forall k :: k in a.fields ==> PyEq(a.fields[k], b.fields[k])
    else a == b
  }

  /** Equality as the original compares values is an equivalence, and identical values are equal. */
  lemma {:induction false} PyEqIsAnEquivalence(a: Value, b: Value, c: Value)
    ensures PyEq(a, a)
    ensures PyEq(a, b) ==> PyEq(b, a)
    ensures PyEq(a, b) && PyEq(b, c) ==> PyEq(a, c)
    decreases a, b, c
  {
    PyEqReflexive(a);
    PyEqSymmetric(a, b);
    PyEqTransitive(a, b, c);
  }

  lemma {:induction false} PyEqReflexive(a: Value)
    ensures PyEq(a, a)
  {
    match a
    case List(items) =>
      forall k | 0 <= k < |items| ensures PyEq(items[k], items[k]) { PyEqReflexive(items[k]); }
    case Dict(fields) =>
      forall k | k in fields ensures PyEq(fields[k], fields[k]) { PyEqReflexive(fields[k]); }
    case _ =>
  }

  lemma {:induction false} PyEqSymmetric(a: Value, b: Value)
    ensures PyEq(a, b) ==> PyEq(b, a)
    decreases a
  {
    if PyEq(a, b) && a.List? && b.List? {
      forall k | 0 <= k < |b.items| ensures PyEq(b.items[k], a.items[k]) { PyEqSymmetric(a.items[k], b.items[k]); }
    } else if PyEq(a, b) && a.Dict? && b.Dict? {
      forall k | k in b.fields ensures PyEq(b.fields[k], a.fields[k]) { PyEqSymmetric(a.fields[k], b.fields[k]); }
    }
  }

  lemma {:induction false} PyEqTransitive(a: Value, b: Value, c: Value)
    ensures PyEq(a, b) && PyEq(b, c) ==> PyEq(a, c)
    decreases a
  {
    if PyEq(a, b) && PyEq(b, c) {
      if a.List? && b.List? && c.List? {
        forall k | 0 <= k < |a.items| ensures PyEq(a.items[k], c.items[k]) {
          PyEqTransitive(a.items[k], b.items[k], c.items[k]);
        }
      } else if a.Dict? && b.Dict? && c.Dict? {
        forall k | k in a.fields ensures PyEq(a.fields[k], c.fields[k]) {
          PyEqTransitive(a.fields[k], b.fields[k], c.fields[k]);
        }
      }
    }
  }

  /** Numbers are compared by value, whatever their type; anything else keeps its kind. */
  lemma PyEqOnScalars(i: int, r: real, b: bool, s: string, t: string)
    ensures PyEq(Int(i), Float(r)) <==> i as real == r
    ensures PyEq(Bool(b), Int(i)) <==> i == if b then 1 else 0
    ensures PyEq(Str(s), Str(t)) <==> s == t
    ensures !PyEq(Int(i), Str(s)) && !PyEq(Null, Bool(b)) && !PyEq(Str(s), Null)
  {
  }

  // ---------------------------------------------------------------------------
  // Dotted paths
  // ---------------------------------------------------------------------------

  type Path = seq<string>

  predicate IsSpace(c: char) {
    c == ' ' || c == '\t' || c == '\n' || c == '\r' || c == '\U{000B}' || c == '\U{000C}'
  }

  function Strip(s: string): string {
    if s == "" then ""
    else if IsSpace(s[0]) then Strip(s[1..])
    else if IsSpace(s[|s| - 1]) then Strip(s[..|s| - 1])
    else s
  }

  function Split(s: string): (parts: seq<string>)
    ensures parts != []
  {
    if s == "" then [""]
    else
      var rest := Split(s[1..]);
      if s[0] == '.' then [""] + rest else [[s[0]] + rest[0]] + rest[1..]
  }

  function Join(parts: seq<string>): string
    requires parts != []
  {
    if |parts| == 1 then parts[0] else parts[0] + "." + Join(parts[1..])
  }

  lemma {:induction false} JoinSplit(s: string)
    ensures Join(Split(s)) == s
  {
    if s != "" {
      var rest := Split(s[1..]);
      JoinSplit(s[1..]);
      if s[0] == '.' {
        assert ([""] + rest)[1..] == rest;
      } else {
        assert ([[s[0]] + rest[0]] + rest[1..])[1..] == rest[1..];
      }
      assert s == [s[0]] + s[1..];
    }
  }

  /** `_required_move_path`; None is the contract error. */
  function ParsePath(raw: string): (p: Option<Path>)
    ensures p.Some? ==> p.value != []
  {
    var s := Strip(raw);
    if s == "" || "" in Split(s) then None else Some(Split(s))
  }

  /** Two raw paths name the same place only if they are the same text up to outer blanks. */
  lemma ParseIsInjective(a: string, b: string)
    requires ParsePath(a).Some? && ParsePath(a) == ParsePath(b)
    ensures Strip(a) == Strip(b)
  {
    JoinSplit(Strip(a));
    JoinSplit(Strip(b));
  }

  lemma {:induction false} SplitParts(s: string)
    ensures forall part :: part in Split(s) ==> '.' !in part
  {
    if s != "" {
      SplitParts(s[1..]);
    }
  }

  /** A parsed path spells the stripped text: its parts are nonempty, without dots, and joined by dots. */
  lemma ParsedIff(raw: string, p: Path)
    ensures ParsePath(raw) == Some(p) <==>
              p != [] && Join(p) == Strip(raw) && forall part :: part in p ==> part != "" && '.' !in part
  {
    JoinSplit(Strip(raw));
    SplitParts(Strip(raw));
    if p != [] && Join(p) == Strip(raw) && forall part :: part in p ==> part != "" && '.' !in part {
      SplitJoin(p);
      JoinIsNotEmpty(p);
    }
  }

  lemma JoinIsNotEmpty(p: Path)
    requires p != [] && p[0] != ""
    ensures Join(p) != ""
  {
  }

  lemma {:induction false} SplitJoin(p: Path)
    requires p != [] && forall part :: part in p ==> '.' !in part
    ensures Split(Join(p)) == p
    decreases |p|
  {
    if |p| == 1 {
      SplitWord(p[0]);
      assert p == [p[0]];
    } else {
      assert p[0] in p && forall part :: part in p[1..] ==> part in p;
      SplitJoin(p[1..]);
      SplitWordDot(p[0], Join(p[1..]));
      assert p == [p[0]] + p[1..];
    }
  }

  lemma {:induction false} SplitWord(word: string)
    requires '.' !in word
    ensures Split(word) == [word]
  {
    if word != "" {
      SplitWord(word[1..]);
      assert word == [word[0]] + word[1..];
    }
  }

  lemma {:induction false} SplitWordDot(word: string, rest: string)
    requires '.' !in word
    ensures Split(word + "." + rest) == [word] + Split(rest)
  {
    var s := word + "." + rest;
    if word == "" {
      assert s[1..] == rest;
    } else {
      SplitWordDot(word[1..], rest);
      assert s[1..] == word[1..] + "." + rest && s[0] == word[0];
      assert word == [word[0]] + word[1..];
    }
  }

  /** Stripping takes blanks off both ends and nothing else. */
  lemma {:induction false} StripIs(s: string) returns (before: string, after: string)
    ensures s == before + Strip(s) + after
    ensures forall c :: c in before || c in after ==> c in {' ', '\t', '\n', '\r', '\U{000B}', '\U{000C}'}
    ensures Strip(s) != "" ==>
              Strip(s)[0] !in {' ', '\t', '\n', '\r', '\U{000B}', '\U{000C}'} &&
              Strip(s)[|Strip(s)| - 1] !in {' ', '\t', '\n', '\r', '\U{000B}', '\U{000C}'}
    decreases |s|
  {
    before, after := "", "";
    if s != "" && IsSpace(s[0]) {
      before, after := StripIs(s[1..]);
      before := [s[0]] + before;
      assert s == [s[0]] + s[1..];
    } else if s != "" && IsSpace(s[|s| - 1]) {
      before, after := StripIs(s[..|s| - 1]);
      after := after + [s[|s| - 1]];
      assert s == s[..|s| - 1] + [s[|s| - 1]];
    } else {
      assert s == "" + Strip(s) + "";
    }
  }

  // ---------------------------------------------------------------------------
  // Reading and writing at a path
  // ---------------------------------------------------------------------------

  function Read(v: Value, p: Path): Option<Value> {
    if p == [] then Some(v)
    else if v.Dict? && p[0] in v.fields then Read(v.fields[p[0]], p[1..])
    else None
  }

  /** None is the KeyError or TypeError of a path that cannot be walked. */
  function Write(v: Value, p: Path, after: Value): Option<Value>
    requires p != []
  {
    if !v.Dict? then None
    else if |p| == 1 then Some(Dict(v.fields[p[0] := after]))
    else if p[0] !in v.fields then None
    else
      match Write(v.fields[p[0]], p[1..], after)
      case None => None
      case Some(w) => Some(Dict(v.fields[p[0] := w]))
  }

  method ReadDictPath(v: Value, raw: string) returns (r: Option<Value>)
    ensures r == if ParsePath(raw).Some? then Read(v, ParsePath(raw).value) else None
  {
    var parts := ParsePath(raw);
    if parts == None {
      return None;
    }
    var current := v;
    var k := 0;
    while k < |parts.value|
      invariant 0 <= k <= |parts.value|
      invariant Read(v, parts.value) == Read(current, parts.value[k..])
    {
      if !current.Dict? || parts.value[k] !in current.fields {
        return None;
      }
      current := current.fields[parts.value[k]];
      assert parts.value[k..][1..] == parts.value[k + 1..];
      k := k + 1;
    }
    return Some(current);
  }

  predicate Unrelated(p: Path, q: Path) {
    !(p <= q) && !(q <= p)
  }

  lemma {:induction false} ReadThrough(v: Value, p: Path, q: Path)
    ensures Read(v, p + q) == if Read(v, p).Some? then Read(Read(v, p).value, q) else None
    decreases |p|
  {
    if p == [] {
      assert p + q == q;
    } else {
      assert (p + q)[1..] == p[1..] + q;
      if v.Dict? && p[0] in v.fields {
        ReadThrough(v.fields[p[0]], p[1..], q);
      }
    }
  }

  lemma {:induction false} WriteThenRead(v: Value, p: Path, after: Value)
    requires p != [] && Write(v, p, after).Some?
    ensures Read(Write(v, p, after).value, p) == Some(after)
    decreases |p|
  {
    if |p| > 1 {
      WriteThenRead(v.fields[p[0]], p[1..], after);
    }
  }

  lemma {:induction false} WriteLeavesUnrelated(v: Value, p: Path, after: Value, q: Path)
    requires p != [] && Write(v, p, after).Some? && Unrelated(p, q)
    ensures Read(Write(v, p, after).value, q) == Read(v, q)
    decreases |p|
  {
    if q[0] == p[0] {
      assert p == [p[0]] + p[1..] && q == [q[0]] + q[1..];
      assert Unrelated(p[1..], q[1..]);
      if |p| > 1 {
        WriteLeavesUnrelated(v.fields[p[0]], p[1..], after, q[1..]);
      }
    }
  }

  lemma {:induction false} WriteExisting(v: Value, p: Path, after: Value)
    requires p != [] && Read(v, p).Some?
    ensures Write(v, p, after).Some?
    decreases |p|
  {
    if |p| > 1 {
      WriteExisting(v.fields[p[0]], p[1..], after);
    }
  }

  lemma {:induction false} WriteBack(v: Value, p: Path)
    requires p != [] && Read(v, p).Some?
    ensures Write(v, p, Read(v, p).value) == Some(v)
    decreases |p|
  {
    if |p| > 1 {
      WriteBack(v.fields[p[0]], p[1..]);
    }
    assert v.fields[p[0] := v.fields[p[0]]] == v.fields;
  }

  // ---------------------------------------------------------------------------
  // A sequence of assignments
  // ---------------------------------------------------------------------------

  datatype Assignment = Assignment(path: Path, after: Value)

  ghost predicate Wellformed(xs: seq<Assignment>) {
    forall k :: 0 <= k < |xs| ==> xs[k].path != []
  }

  function AssignAll(v: Value, xs: seq<Assignment>): Option<Value>
    requires Wellformed(xs)
  {
    if xs == [] then Some(v)
    else
      match AssignAll(v, xs[..|xs| - 1])
      case None => None
      case Some(w) => Write(w, xs[|xs| - 1].path, xs[|xs| - 1].after)
  }

  ghost predicate AllExist(v: Value, xs: seq<Assignment>) {
    forall k :: 0 <= k < |xs| ==> Read(v, xs[k].path).Some?
  }

  ghost predicate AllReadBack(v: Value, xs: seq<Assignment>, n: nat) {
    forall k :: 0 <= k < n <= |xs| ==> Read(v, xs[k].path) == Some(xs[k].after)
  }

  ghost predicate Antichain(xs: seq<Assignment>) {
    forall i, j :: 0 <= i < |xs| && 0 <= j < |xs| && i != j ==> !(xs[i].path <= xs[j].path)
  }

  /** Requests at related places say the same thing about the shared place. */
  ghost predicate Consistent(xs: seq<Assignment>) {
    forall i, j :: 0 <= i < |xs| && 0 <= j < |xs| && xs[i].path <= xs[j].path ==>
      Read(xs[i].after, xs[j].path[|xs[i].path|..]) == Some(xs[j].after)
  }

  lemma AntichainIsConsistent(xs: seq<Assignment>)
    requires Antichain(xs)
    ensures Consistent(xs)
  {
    forall i, j | 0 <= i < |xs| && 0 <= j < |xs| && xs[i].path <= xs[j].path
      ensures Read(xs[i].after, xs[j].path[|xs[i].path|..]) == Some(xs[j].after)
    {
      assert i == j && xs[j].path[|xs[i].path|..] == [];
    }
  }

  /** One more assignment keeps every path readable and every earlier request in place. */
  lemma AssignStep(o: Value, xs: seq<Assignment>, k: nat, j: nat)
    requires Wellformed(xs) && Consistent(xs) && k < |xs| && j < |xs|
    requires AllExist(o, xs) && AllReadBack(o, xs, k)
    ensures Write(o, xs[k].path, xs[k].after).Some?
    ensures var o' := Write(o, xs[k].path, xs[k].after).value;
            Read(o', xs[j].path).Some? && (j <= k ==> Read(o', xs[j].path) == Some(xs[j].after))
  {
    var pk, pj, a := xs[k].path, xs[j].path, xs[k].after;
    WriteExisting(o, pk, a);
    var o' := Write(o, pk, a).value;
    WriteThenRead(o, pk, a);
    if pk <= pj {
      assert pj == pk + pj[|pk|..];
      ReadThrough(o', pk, pj[|pk|..]);
    } else if pj <= pk {
      assert pk == pj + pk[|pj|..];
      ReadThrough(o', pj, pk[|pj|..]);
      if j < k {
        ReadThrough(o, pj, pk[|pj|..]);
        WriteBack(o, pk);
      }
    } else {
      WriteLeavesUnrelated(o, pk, a, pj);
    }
  }

  lemma {:induction false} AssignPrefix(v: Value, xs: seq<Assignment>, k: nat)
    requires Wellformed(xs) && Consistent(xs) && AllExist(v, xs) && k <= |xs|
    ensures Wellformed(xs[..k])
    ensures AssignAll(v, xs[..k]).Some?
    ensures AllExist(AssignAll(v, xs[..k]).value, xs) && AllReadBack(AssignAll(v, xs[..k]).value, xs, k)
    decreases k
  {
    if k > 0 {
      AssignPrefix(v, xs, k - 1);
      assert xs[..k][..k - 1] == xs[..k - 1];
      var o := AssignAll(v, xs[..k - 1]).value;
      forall j | 0 <= j < |xs|
        ensures Write(o, xs[k - 1].path, xs[k - 1].after).Some?
        ensures var o' := Write(o, xs[k - 1].path, xs[k - 1].after).value;
                Read(o', xs[j].path).Some? && (j < k ==> Read(o', xs[j].path) == Some(xs[j].after))
      {
        AssignStep(o, xs, k - 1, j);
      }
      AssignStep(o, xs, k - 1, k - 1);
    } else {
      assert xs[..0] == [];
    }
  }

  /**
   For existing paths: every write succeeds and every request reads back exactly
   when the requests are consistent.
   */
  lemma ReadBackIffConsistent(v: Value, xs: seq<Assignment>)
    requires Wellformed(xs) && AllExist(v, xs)
    ensures (AssignAll(v, xs).Some? && AllReadBack(AssignAll(v, xs).value, xs, |xs|)) <==> Consistent(xs)
  {
    assert xs[..|xs|] == xs;
    if Consistent(xs) {
      AssignPrefix(v, xs, |xs|);
    }
    if AssignAll(v, xs).Some? && AllReadBack(AssignAll(v, xs).value, xs, |xs|) {
      var out := AssignAll(v, xs).value;
      forall i, j | 0 <= i < |xs| && 0 <= j < |xs| && xs[i].path <= xs[j].path
        ensures Read(xs[i].after, xs[j].path[|xs[i].path|..]) == Some(xs[j].after)
      {
        assert xs[j].path == xs[i].path + xs[j].path[|xs[i].path|..];
        ReadThrough(out, xs[i].path, xs[j].path[|xs[i].path|..]);
      }
    }
  }

  lemma {:induction false} AssignAllFrame(v: Value, xs: seq<Assignment>, q: Path)
    requires Wellformed(xs) && AssignAll(v, xs).Some?
    requires forall k :: 0 <= k < |xs| ==> Unrelated(xs[k].path, q)
    ensures Read(AssignAll(v, xs).value, q) == Read(v, q)
    decreases |xs|
  {
    if xs != [] {
      var front := xs[..|xs| - 1];
      AssignAllFrame(v, front, q);
      WriteLeavesUnrelated(AssignAll(v, front).value, xs[|xs| - 1].path, xs[|xs| - 1].after, q);
    }
  }

  // ---------------------------------------------------------------------------
  // When application raises
  // ---------------------------------------------------------------------------

  predicate HoldsDict(v: Value, q: Path) {
    Read(v, q).Some? && Read(v, q).value.Dict?
  }

  function Parent(p: Path): Path
    requires p != []
  {
    p[..|p| - 1]
  }

  /**
   A test on the artifact and the requests: of the first `k` requests the last
   one at or above `q`, or the artifact if there is none, has a dictionary at `q`.
   */
  predicate Stands(v: Value, xs: seq<Assignment>, k: nat, q: Path)
    requires k <= |xs|
    decreases k
  {
    if k == 0 then HoldsDict(v, q)
    else if xs[k - 1].path <= q then HoldsDict(xs[k - 1].after, q[|xs[k - 1].path|..])
    else Stands(v, xs, k - 1, q)
  }

  /** A write succeeds exactly when the place of its key is a dictionary. */
  lemma {:induction false} WriteIff(v: Value, p: Path, after: Value)
    requires p != []
    ensures Write(v, p, after).Some? <==> HoldsDict(v, Parent(p))
    decreases |p|
  {
    if |p| > 1 {
      assert Parent(p)[0] == p[0] && Parent(p)[1..] == Parent(p[1..]);
      if v.Dict? && p[0] in v.fields {
        WriteIff(v.fields[p[0]], p[1..], after);
      }
    }
  }

  /** A write below a place leaves a dictionary there. */
  lemma WriteBelow(v: Value, p: Path, after: Value, q: Path)
    requires p != [] && q < p && Write(v, p, after).Some?
    ensures HoldsDict(v, q) && HoldsDict(Write(v, p, after).value, q)
  {
    var w := Write(v, p, after).value;
    WriteIff(v, p, after);
    WriteThenRead(v, p, after);
    var rest := p[|q|..];
    assert p == q + rest && Parent(p) == q + Parent(rest);
    ReadThrough(v, q, Parent(rest));
    ReadThrough(w, q, rest);
  }

  /** After one write, a place holds a dictionary as `Stands` says. */
  lemma WriteMovesDict(v: Value, p: Path, after: Value, q: Path)
    requires p != [] && Write(v, p, after).Some?
    ensures HoldsDict(Write(v, p, after).value, q) <==>
              if p <= q then HoldsDict(after, q[|p|..]) else HoldsDict(v, q)
  {
    if p <= q {
      WriteThenRead(v, p, after);
      assert q == p + q[|p|..];
      ReadThrough(Write(v, p, after).value, p, q[|p|..]);
    } else if q <= p {
      WriteBelow(v, p, after, q);
    } else {
      WriteLeavesUnrelated(v, p, after, q);
    }
  }

  lemma {:induction false} StandsAsApplied(v: Value, xs: seq<Assignment>, k: nat, q: Path)
    requires Wellformed(xs) && k <= |xs| && AssignAll(v, xs[..k]).Some?
    ensures Stands(v, xs, k, q) <==> HoldsDict(AssignAll(v, xs[..k]).value, q)
    decreases k
  {
    if k > 0 {
      assert xs[..k][..k - 1] == xs[..k - 1];
      StandsAsApplied(v, xs, k - 1, q);
      WriteMovesDict(AssignAll(v, xs[..k - 1]).value, xs[k - 1].path, xs[k - 1].after, q);
    }
  }

  predicate HasItsPlace(v: Value, xs: seq<Assignment>, m: nat)
    requires m < |xs| && xs[m].path != []
  {
    Stands(v, xs, m, Parent(xs[m].path))
  }

  /** Each of the first `n` requests finds a dictionary to write into. */
  ghost predicate EachHasItsPlace(v: Value, xs: seq<Assignment>, n: nat)
    requires Wellformed(xs) && n <= |xs|
  {
    forall m :: 0 <= m < n ==> HasItsPlace(v, xs, m)
  }

  lemma AppliesOneMore(v: Value, xs: seq<Assignment>, m: nat)
    requires Wellformed(xs) && m < |xs|
    ensures AssignAll(v, xs[..m + 1]).Some? <==> AssignAll(v, xs[..m]).Some? && HasItsPlace(v, xs, m)
  {
    assert xs[..m + 1][..m] == xs[..m] && xs[..m + 1][m] == xs[m];
    if AssignAll(v, xs[..m]).Some? {
      StandsAsApplied(v, xs, m, Parent(xs[m].path));
      WriteIff(AssignAll(v, xs[..m]).value, xs[m].path, xs[m].after);
    }
  }

  lemma {:induction false} AppliesUpTo(v: Value, xs: seq<Assignment>, n: nat)
    requires Wellformed(xs) && n <= |xs|
    ensures AssignAll(v, xs[..n]).Some? <==> EachHasItsPlace(v, xs, n)
    decreases n
  {
    if n > 0 {
      AppliesUpTo(v, xs, n - 1);
      AppliesOneMore(v, xs, n - 1);
    }
  }

  /** Applying the requests raises unless each one finds a dictionary where its key goes. */
  lemma AppliesIff(v: Value, xs: seq<Assignment>)
    requires Wellformed(xs)
    ensures AssignAll(v, xs).Some? <==> EachHasItsPlace(v, xs, |xs|)
  {
    assert xs[..|xs|] == xs;
    AppliesUpTo(v, xs, |xs|);
  }

  // ---------------------------------------------------------------------------
  // Plans: validation, application, recomputed delta
  // ---------------------------------------------------------------------------

  /** A requested item; either key may be absent. */
  datatype Item = Item(path: Option<string>, after: Option<Value>)

  datatype Plan =
    | PathAssignment(assignments: seq<Item>)
    | FieldSplit(path: Option<string>, fields: Option<Value>)
    | ConstraintStrengthening(path: Option<string>, add: Option<Value>)

  datatype MoveError =
    | NotAnObject | NoAssignments | BadPath | PathDoesNotExist
    | TypeChanges | DoesNotChange | NoFields | NotAnArray | NotANewConstraint

  function RequiredPath(path: Option<string>): Option<Path> {
    if path.Some? then ParsePath(path.value) else None
  }

  function AfterOf(item: Item): Value {
    if item.after.Some? then item.after.value else Null
  }

  function ItemError(artifact: Value, item: Item): Option<MoveError> {
    var p := RequiredPath(item.path);
    if p == None then Some(BadPath)
    else if Read(artifact, p.value) == None then Some(PathDoesNotExist)
    else if !SameType(Read(artifact, p.value).value, AfterOf(item)) then Some(TypeChanges)
    else if PyEq(Read(artifact, p.value).value, AfterOf(item)) then Some(DoesNotChange)
    else None
  }

  predicate ContainsEq(items: seq<Value>, v: Value) {
    exists k :: 0 <= k < |items| && PyEq(items[k], v)
  }

  function SingleError(artifact: Value, plan: Plan): Option<MoveError>
    requires !plan.PathAssignment?
  {
    var p := RequiredPath(plan.path);
    if p == None then Some(BadPath)
    else if Read(artifact, p.value) == None then Some(PathDoesNotExist)
    else
      var before := Read(artifact, p.value).value;
      match plan
      case FieldSplit(_, fields) =>
        if fields == None || !fields.value.Dict? || fields.value.fields == map[] then Some(NoFields)
        else if PyEq(before, fields.value) then Some(DoesNotChange)
        else None
      case ConstraintStrengthening(_, add) =>
        if !before.List? then Some(NotAnArray)
        else if add == None || add.value.Null? || ContainsEq(before.items, add.value) then Some(NotANewConstraint)
        else None
  }

  ghost predicate Validated(artifact: Value, plan: Plan) {
    && artifact.Dict?
    && match plan
       case PathAssignment(xs) => xs != [] && forall k :: 0 <= k < |xs| ==> ItemError(artifact, xs[k]) == None
       case _ => SingleError(artifact, plan) == None
  }

  method ValidateDictMove(artifact: Value, plan: Plan) returns (error: Option<MoveError>)
    ensures error == None <==> Validated(artifact, plan)
    ensures error == Some(NotAnObject) <==> !artifact.Dict?
    ensures artifact.Dict? && !plan.PathAssignment? ==> error == SingleError(artifact, plan)
    ensures plan.PathAssignment? && artifact.Dict? && plan.assignments != [] && error.Some? ==>
              exists k :: 0 <= k < |plan.assignments| && error == ItemError(artifact, plan.assignments[k]) &&
                          forall m :: 0 <= m < k ==> ItemError(artifact, plan.assignments[m]) == None
  {
    if !artifact.Dict? {
      return Some(NotAnObject);
    }
    if plan.PathAssignment? {
      if plan.assignments == [] {
        return Some(NoAssignments);
      }
      for k := 0 to |plan.assignments|
        invariant forall m :: 0 <= m < k ==> ItemError(artifact, plan.assignments[m]) == None
      {
        var e := ItemError(artifact, plan.assignments[k]);
        if e.Some? {
          return e;
        }
      }
      return None;
    }
    return SingleError(artifact, plan);
  }

  /** What the plan asks to be written, once it is validated. */
  function Requests(artifact: Value, plan: Plan): (xs: seq<Assignment>)
    requires Validated(artifact, plan)
    ensures Wellformed(xs) && AllExist(artifact, xs)
    ensures |xs| == match plan case PathAssignment(items) => |items| case _ => 1
  {
    match plan
    case PathAssignment(items) =>
      seq(|items|, k requires 0 <= k < |items| && ItemError(artifact, items[k]) == None =>
        Assignment(RequiredPath(items[k].path).value, AfterOf(items[k])))
    case FieldSplit(path, fields) => [Assignment(RequiredPath(path).value, fields.value)]
    case ConstraintStrengthening(path, add) =>
      var p := RequiredPath(path).value;
      [Assignment(p, List(Read(artifact, p).value.items + [add.value]))]
  }

  /** A validated item always carries its `after`: a missing one fails validation. */
  lemma ValidatedItemHasAfter(artifact: Value, item: Item)
    requires ItemError(artifact, item) == None
    ensures item.path.Some? && item.after.Some?
  {
  }

  lemma AssignOneMore(v: Value, xs: seq<Assignment>, k: nat, out: Value)
    requires Wellformed(xs) && k < |xs| && Wellformed(xs[..k]) && AssignAll(v, xs[..k]) == Some(out)
    ensures Wellformed(xs[..k + 1]) && AssignAll(v, xs[..k + 1]) == Write(out, xs[k].path, xs[k].after)
  {
    assert xs[..k + 1][..k] == xs[..k] && xs[..k + 1][k] == xs[k];
  }

  /**
   The loop that applies the move to a copy of the artifact.  None stands for
   the KeyError or TypeError raised when a path can no longer be walked.
   */
  method ApplyDictMove(artifact: Value, plan: Plan) returns (r: Option<Value>)
    requires Validated(artifact, plan)
    ensures r == AssignAll(artifact, Requests(artifact, plan))
    ensures r == None <==> !EachHasItsPlace(artifact, Requests(artifact, plan), |Requests(artifact, plan)|)
  {
    var out := artifact;
    ghost var xs := Requests(artifact, plan);
    AppliesIff(artifact, xs);
    match plan {
      case PathAssignment(items) =>
        for k := 0 to |items|
          invariant Wellformed(xs[..k])
          invariant AssignAll(artifact, xs[..k]) == Some(out)
        {
          AssignOneMore(artifact, xs, k, out);
          ValidatedItemHasAfter(artifact, items[k]);
          var written := Write(out, RequiredPath(items[k].path).value, items[k].after.value);
          if written == None {
            FailureIsFinal(artifact, xs, k + 1);
            return None;
          }
          out := written.value;
        }
        assert xs[..|items|] == xs;
      case FieldSplit(path, fields) =>
        var p := RequiredPath(path).value;
        assert xs[..0] == [];
        return Write(out, p, fields.value);
      case ConstraintStrengthening(path, add) =>
        var p := RequiredPath(path).value;
        assert xs[..0] == [];
        return Write(out, p, List(Read(out, p).value.items + [add.value]));
    }
    return Some(out);
  }

  lemma {:induction false} FailureIsFinal(v: Value, xs: seq<Assignment>, k: nat)
    requires Wellformed(xs) && k <= |xs| && AssignAll(v, xs[..k]) == None
    ensures AssignAll(v, xs) == None
    decreases |xs|
  {
    if k < |xs| {
      assert xs[..|xs| - 1][..k] == xs[..k];
      FailureIsFinal(v, xs[..|xs| - 1], k);
    } else {
      assert xs[..k] == xs;
    }
  }

  /**
   What validation grants each request of a plan: an existing place, a different
   value, for assignments one of the same type, for a split a nonempty object,
   and for a strengthening the old array with one new member at the end.
   */
  lemma ValidatedRequest(artifact: Value, plan: Plan, k: nat)
    requires Validated(artifact, plan) && k < |Requests(artifact, plan)|
    ensures var x := Requests(artifact, plan)[k];
            && Read(artifact, x.path).Some?
            && (plan.PathAssignment? ==> SameKind(Read(artifact, x.path).value, x.after))
            && (plan.FieldSplit? ==> x.after.Dict? && x.after.fields != map[])
            && (plan.ConstraintStrengthening? ==>
                  && Read(artifact, x.path).value.List? && x.after.List?
                  && var before := Read(artifact, x.path).value.items;
                     var n := |before|;
                     && |x.after.items| == n + 1 && x.after.items[..n] == before && x.after.items[n] != Null
                     && forall m :: 0 <= m < n ==> !PyEq(before[m], x.after.items[n]))
  {
    if plan.PathAssignment? {
      assert ItemError(artifact, plan.assignments[k]) == None;
    }
  }

  predicate SameKind(a: Value, b: Value) {
    match a
    case Null => b.Null?
    case Bool(_) => b.Bool?
    case Int(_) => b.Int?
    case Float(_) => b.Float?
    case Str(_) => b.Str?
    case List(_) => b.List?
    case Dict(_) => b.Dict?
  }

  datatype Change = Change(path: string, before: Value, after: Value)

  function RawPaths(plan: Plan): seq<Option<string>> {
    match plan
    case PathAssignment(items) => seq(|items|, k requires 0 <= k < |items| => items[k].path)
    case FieldSplit(path, _) => [path]
    case ConstraintStrengthening(path, _) => [path]
  }

  predicate Unreadable(parent: Value, child: Value, raw: string) {
    var p := ParsePath(raw);
    p == None || Read(parent, p.value) == None || Read(child, p.value) == None
  }

  /** Reads every requested path in parent and child; None when one cannot be read. */
  method RecomputeMoveDelta(parent: Value, child: Value, plan: Plan) returns (changes: Option<seq<Change>>)
    requires forall k :: 0 <= k < |RawPaths(plan)| ==> RawPaths(plan)[k].Some?
    ensures changes.Some? ==> |changes.value| == |RawPaths(plan)|
    ensures changes.Some? ==> forall k :: 0 <= k < |changes.value| ==>
              var c := changes.value[k];
              && c.path == RawPaths(plan)[k].value && ParsePath(c.path).Some?
              && Read(parent, ParsePath(c.path).value) == Some(c.before)
              && Read(child, ParsePath(c.path).value) == Some(c.after)
    ensures changes == None <==>
            exists k :: 0 <= k < |RawPaths(plan)| && Unreadable(parent, child, RawPaths(plan)[k].value)
  {
    var raws := RawPaths(plan);
    var out: seq<Change> := [];
    for k := 0 to |raws|
      invariant |out| == k
      invariant forall m :: 0 <= m < k ==>
                  && out[m].path == raws[m].value && ParsePath(out[m].path).Some?
                  && Read(parent, ParsePath(out[m].path).value) == Some(out[m].before)
                  && Read(child, ParsePath(out[m].path).value) == Some(out[m].after)
      invariant forall m :: 0 <= m < k ==> !Unreadable(parent, child, raws[m].value)
    {
      var before := ReadDictPath(parent, raws[k].value);
      var after := ReadDictPath(child, raws[k].value);
      if before == None || after == None {
        return None;
      }
      out := out + [Change(raws[k].value, before.value, after.value)];
    }
    return Some(out);
  }

  /** The delta a validated plan announces. */
  ghost predicate DeltaAsRequested(parent: Value, plan: Plan, changes: seq<Change>)
    requires Validated(parent, plan)
  {
    var xs := Requests(parent, plan);
    && |changes| == |xs| == |RawPaths(plan)|
    && forall k :: 0 <= k < |xs| ==>
         && Some(changes[k].path) == RawPaths(plan)[k]
         && Some(changes[k].before) == Read(parent, xs[k].path)
         && changes[k].after == xs[k].after
         && !PyEq(changes[k].before, changes[k].after)
  }

  /** A list is never equal to a longer one, so strengthening always changes the value. */
  lemma StrengtheningDiffers(items: seq<Value>, add: Value)
    ensures !PyEq(List(items), List(items + [add]))
  {
  }

  /** A validated request has a readable path and asks for a different value. */
  lemma RequestChanges(parent: Value, plan: Plan, k: nat)
    requires Validated(parent, plan) && k < |Requests(parent, plan)|
    ensures |RawPaths(plan)| == |Requests(parent, plan)| && RawPaths(plan)[k].Some?
    ensures ParsePath(RawPaths(plan)[k].value) == Some(Requests(parent, plan)[k].path)
    ensures !PyEq(Read(parent, Requests(parent, plan)[k].path).value, Requests(parent, plan)[k].after)
  {
    match plan
    case PathAssignment(items) => assert ItemError(parent, items[k]) == None;
    case ConstraintStrengthening(_, add) =>
      StrengtheningDiffers(Read(parent, Requests(parent, plan)[k].path).value.items, add.value);
    case _ =>
  }

  /**
   Main result for assignments, splits and strengthenings.  With consistent
   requests the move succeeds, each request reads back, unrelated paths keep
   their values, and the recomputed delta is the requested one.
   */
  method ExecuteDictMove(parent: Value, plan: Plan) returns (child: Value, delta: seq<Change>)
    requires Validated(parent, plan) && Consistent(Requests(parent, plan))
    ensures AllReadBack(child, Requests(parent, plan), |Requests(parent, plan)|)
    ensures forall q :: (forall k :: 0 <= k < |Requests(parent, plan)| ==>
                           Unrelated(Requests(parent, plan)[k].path, q)) ==> Read(child, q) == Read(parent, q)
    ensures DeltaAsRequested(parent, plan, delta)
  {
    ghost var xs := Requests(parent, plan);
    ReadBackIffConsistent(parent, xs);
    var applied := ApplyDictMove(parent, plan);
    child := applied.value;
    forall q | forall k :: 0 <= k < |xs| ==> Unrelated(xs[k].path, q)
      ensures Read(child, q) == Read(parent, q)
    {
      AssignAllFrame(parent, xs, q);
    }
    forall k | 0 <= k < |xs|
      ensures RawPaths(plan)[k].Some? && ParsePath(RawPaths(plan)[k].value) == Some(xs[k].path)
      ensures !PyEq(Read(parent, xs[k].path).value, xs[k].after)
    {
      RequestChanges(parent, plan, k);
    }
    var changes := RecomputeMoveDelta(parent, child, plan);
    delta := changes.value;
  }

  /** Pairwise unrelated paths are enough, and a plan with one request always qualifies. */
  lemma SeparatePathsSuffice(parent: Value, plan: Plan)
    requires Validated(parent, plan)
    requires !plan.PathAssignment? || Antichain(Requests(parent, plan))
    ensures Consistent(Requests(parent, plan))
  {
    AntichainIsConsistent(Requests(parent, plan));
  }

  /** Strengthening leaves the old array as a strict prefix of the new one, one longer. */
  lemma StrengtheningExtends(parent: Value, plan: Plan)
    requires Validated(parent, plan) && plan.ConstraintStrengthening?
    ensures var xs := Requests(parent, plan);
            AssignAll(parent, xs).Some? &&
            var old_ := Read(parent, xs[0].path).value;
            var new_ := Read(AssignAll(parent, xs).value, xs[0].path);
            new_.Some? && new_.value.List? && old_.items < new_.value.items && |new_.value.items| == |old_.items| + 1
  {
    SeparatePathsSuffice(parent, plan);
    ReadBackIffConsistent(parent, Requests(parent, plan));
  }

  lemma SplitLetter(c: char, s: string, rest: seq<string>)
    requires c != '.' && Split(s) == [""] + rest
    ensures Split([c] + s) == [[c]] + rest
  {
    assert ([c] + s)[1..] == s && [c] + "" == [c];
    assert Split(s)[1..] == rest;
  }

  lemma SplitDot(s: string)
    ensures Split("." + s) == [""] + Split(s)
  {
    assert ("." + s)[1..] == s;
  }

  lemma ExamplePaths()
    ensures ParsePath("a") == Some(["a"]) && ParsePath("a.b.c") == Some(["a", "b", "c"])
  {
    SplitLetter('c', "", []);
    SplitLetter('a', "", []);
    assert ['a'] + "" == "a" && ['c'] + "" == "c";
    SplitDot("c");
    SplitLetter('b', ".c", ["c"]);
    assert ['b'] + ".c" == "b.c";
    SplitDot("b.c");
    SplitLetter('a', ".b.c", ["b", "c"]);
    assert ['a'] + ".b.c" == "a.b.c";
    assert Strip("a") == "a" && Strip("a.b.c") == "a.b.c";
    assert "" !in ["a"] && "" !in ["a", "b", "c"] by {
      assert |"a"| == 1 && |"b"| == 1 && |"c"| == 1;
    }
    assert Split("a") == ["a"];
    assert Split("a.b.c") == ["a", "b", "c"];
  }

  const INNER := Dict(map["b" := Dict(map["c" := Int(1)])])
  const OUTER := Dict(map["a" := INNER])
  const REPLACEMENT := Dict(map["z" := Int(0)])
  const OVERLAPPING := PathAssignment([Item(Some("a"), Some(REPLACEMENT)), Item(Some("a.b.c"), Some(Int(2)))])

  lemma ExampleReads()
    ensures Read(OUTER, ["a"]) == Some(INNER) && Read(OUTER, ["a", "b", "c"]) == Some(Int(1))
  {
    var long := ["a", "b", "c"];
    assert long[1..] == ["b", "c"] && long[1..][1..] == ["c"] && long[1..][1..][1..] == [] && ["a"][1..] == [];
    assert Read(INNER.fields["b"], ["c"]) == Some(Int(1));
    assert Read(INNER, ["b", "c"]) == Some(Int(1));
  }

  lemma OverlappingIsValidated()
    ensures Validated(OUTER, OVERLAPPING)
    ensures Requests(OUTER, OVERLAPPING) == [Assignment(["a"], REPLACEMENT), Assignment(["a", "b", "c"], Int(2))]
  {
    ExamplePaths();
    ExampleReads();
    FirstItemIsValid();
    SecondItemIsValid();
  }

  lemma FirstItemIsValid()
    ensures ItemError(OUTER, OVERLAPPING.assignments[0]) == None
  {
    ExamplePaths();
    ExampleReads();
    assert !PyEq(INNER, REPLACEMENT) by { assert "b" in INNER.fields && "b" !in REPLACEMENT.fields; }
  }

  lemma SecondItemIsValid()
    ensures ItemError(OUTER, OVERLAPPING.assignments[1]) == None
  {
    ExamplePaths();
    ExampleReads();
  }

  /** Validation alone is not enough: one request may remove the place of a later one. */
  lemma OverlappingRequestsCanFail()
    ensures Validated(OUTER, OVERLAPPING)
    ensures AssignAll(OUTER, Requests(OUTER, OVERLAPPING)) == None
  {
    OverlappingIsValidated();
    var xs := Requests(OUTER, OVERLAPPING);
    assert xs[..1] == [xs[0]] && xs[..1][..0] == [];
    var after := Dict(OUTER.fields["a" := REPLACEMENT]);
    assert AssignAll(OUTER, xs[..1]) == Some(after);
    assert ["a", "b", "c"][1..] == ["b", "c"];
    assert Write(REPLACEMENT, ["b", "c"], Int(2)) == None by { assert "b" !in REPLACEMENT.fields; }
  }

  const ZERO := Dict(map["a" := Int(0)])
  const TWICE := PathAssignment([Item(Some("a"), Some(Int(1))), Item(Some("a"), Some(Int(2)))])
  const SETS := [Assignment(["a"], Int(1)), Assignment(["a"], Int(2))]

  lemma TwiceIsValidated()
    ensures Validated(ZERO, TWICE) && Requests(ZERO, TWICE) == SETS
  {
    ExamplePaths();
    assert ["a"][1..] == [];
    assert Read(ZERO, ["a"]) == Some(Int(0));
  }

  lemma TwiceOverwrites()
    ensures AssignAll(ZERO, SETS) == Some(Dict(map["a" := Int(2)]))
  {
    var once, twice := Dict(map["a" := Int(1)]), Dict(map["a" := Int(2)]);
    assert SETS[..1] == [SETS[0]] && SETS[..1][..0] == [];
    assert Write(ZERO, ["a"], Int(1)) == Some(once) by { assert ZERO.fields["a" := Int(1)] == once.fields; }
    assert Write(once, ["a"], Int(2)) == Some(twice) by { assert once.fields["a" := Int(2)] == twice.fields; }
  }

  /** A validated plan may also apply and not read back: the second request overwrites the first. */
  lemma RepeatedRequestsDoNotReadBack()
    ensures Validated(ZERO, TWICE) && Requests(ZERO, TWICE) == SETS && !Consistent(SETS)
    ensures AssignAll(ZERO, SETS).Some? && Read(AssignAll(ZERO, SETS).value, SETS[0].path) != Some(SETS[0].after)
  {
    TwiceIsValidated();
    TwiceOverwrites();
    assert ["a"][1..] == [] && SETS[0].path == SETS[1].path == ["a"];
    assert SETS[0].path <= SETS[1].path && Read(SETS[0].after, []) == Some(Int(1));
  }
}
