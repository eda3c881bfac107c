/**
 Conservative merge of two patch sets (candidates/patch_merge.py), against the
 file semantics of the patch sandbox (tools/patch_sandbox.py).
 */
module PatchMerge {
  import opened Wrappers

  datatype Operation = Write | Append | Replace | Delete | Other(name: string)

  datatype PatchOp = PatchOp(
    path: string, operation: Operation, content: string, oldText: string, newText: string, metadata: string)

  datatype Conflict = Conflict(path: string, left: PatchOp, right: PatchOp)

  predicate Compatible(existing: PatchOp, incoming: PatchOp) {
    if existing == incoming then true
    else if existing.operation == Append && incoming.operation == Append then true
    else if existing.operation == Delete || incoming.operation == Delete then false
    else existing.operation == incoming.operation == Replace && existing.oldText != incoming.oldText
  }

  // ---------------------------------------------------------------------------
  // Closed form: what happens to one operation
  // ---------------------------------------------------------------------------

  function First(ops: seq<PatchOp>, path: string): Option<PatchOp> {
    if ops == [] then None
    else
      var f := First(ops[..|ops| - 1], path);
      var last := ops[|ops| - 1];
      if f.Some? then f else if last.path == path then Some(last) else None
  }

  datatype Fate = Kept | DroppedAsEqual | Conflicting

  /** Decided by the first operation on the same path alone. */
  function FateOf(first: Option<PatchOp>, op: PatchOp): Fate {
    if first == None then Kept
    else if !Compatible(first.value, op) then Conflicting
    else if first.value == op && op.operation != Append then DroppedAsEqual
    else Kept
  }

  function MergedOps(ops: seq<PatchOp>): seq<PatchOp> {
    if ops == [] then []
    else
      var front, last := ops[..|ops| - 1], ops[|ops| - 1];
      MergedOps(front) + if FateOf(First(front, last.path), last) == Kept then [last] else []
  }

  function ConflictsOf(ops: seq<PatchOp>): seq<Conflict> {
    if ops == [] then []
    else
      var front, last := ops[..|ops| - 1], ops[|ops| - 1];
      var first := First(front, last.path);
      ConflictsOf(front) + if FateOf(first, last) == Conflicting then [Conflict(last.path, first.value, last)] else []
  }

  function DroppedOps(ops: seq<PatchOp>): seq<PatchOp> {
    if ops == [] then []
    else
      var front, last := ops[..|ops| - 1], ops[|ops| - 1];
      DroppedOps(front) + if FateOf(First(front, last.path), last) == DroppedAsEqual then [last] else []
  }

  method MergePatchSets(left: seq<PatchOp>, right: seq<PatchOp>)
      returns (merged: seq<PatchOp>, conflicts: seq<Conflict>)
    ensures merged == MergedOps(left + right)
    ensures conflicts == ConflictsOf(left + right)
  {
    merged, conflicts := [], [];
    var byPath: map<string, PatchOp> := map[];
    var ops := left + right;
    for k := 0 to |ops|
      invariant merged == MergedOps(ops[..k]) && conflicts == ConflictsOf(ops[..k])
      invariant forall p :: First(ops[..k], p) == if p in byPath then Some(byPath[p]) else None
    {
      var op := ops[k];
      assert ops[..k + 1][..k] == ops[..k];
      if op.path !in byPath {
        byPath := byPath[op.path := op];
        merged := merged + [op];
        continue;
      }
      var existing := byPath[op.path];
      assert First(ops[..k], op.path) == Some(existing);
      if Compatible(existing, op) {
        if existing.operation == Append && op.operation == Append {
          merged := merged + [op];
        } else if existing == op {
          continue;
        } else {
          merged := merged + [op];
        }
        continue;
      }
      conflicts := conflicts + [Conflict(op.path, existing, op)];
    }
    assert ops[..|ops|] == ops;
  }

  // ---------------------------------------------------------------------------
  // Accounting and shape
  // ---------------------------------------------------------------------------

  ghost predicate Subsequence(a: seq<PatchOp>, b: seq<PatchOp>)
    decreases |b|
  {
    if a == [] then true
    else if b == [] then false
    else
      || (a[|a| - 1] == b[|b| - 1] && Subsequence(a[..|a| - 1], b[..|b| - 1]))
      || Subsequence(a, b[..|b| - 1])
  }

  lemma {:induction false} MergedIsSubsequence(ops: seq<PatchOp>)
    ensures Subsequence(MergedOps(ops), ops)
  {
    if ops != [] {
      var front, last := ops[..|ops| - 1], ops[|ops| - 1];
      MergedIsSubsequence(front);
      assert MergedOps(front) + [] == MergedOps(front);
      assert (MergedOps(front) + [last])[..|MergedOps(front)|] == MergedOps(front);
    }
  }

  function One(present: bool, op: PatchOp): multiset<PatchOp> {
    if present then multiset{op} else multiset{}
  }

  lemma AccountStep(front: seq<PatchOp>, last: PatchOp)
    ensures var fate := FateOf(First(front, last.path), last);
            && multiset(MergedOps(front + [last])) == multiset(MergedOps(front)) + One(fate == Kept, last)
            && multiset(DroppedOps(front + [last])) == multiset(DroppedOps(front)) + One(fate == DroppedAsEqual, last)
            && multiset(Rights(ConflictsOf(front + [last]))) == multiset(Rights(ConflictsOf(front))) +
              One(fate == Conflicting, last)
  {
    assert (front + [last])[..|front|] == front;
    var first, cs := First(front, last.path), ConflictsOf(front);
    if FateOf(first, last) == Conflicting {
      var c := Conflict(last.path, first.value, last);
      assert (cs + [c])[..|cs|] == cs;
    } else {
      assert cs + [] == cs;
    }
  }

  ghost predicate Accounted(ops: seq<PatchOp>) {
    multiset(ops) == multiset(MergedOps(ops)) + multiset(DroppedOps(ops)) + multiset(Rights(ConflictsOf(ops)))
  }

  lemma Regroup(m: multiset<PatchOp>, d: multiset<PatchOp>, r: multiset<PatchOp>, fate: Fate, op: PatchOp)
    ensures (m + One(fate == Kept, op)) + (d + One(fate == DroppedAsEqual, op)) + (r + One(fate == Conflicting, op))
            == (m + d + r) + multiset{op}
  {
  }

  lemma AccountedStep(front: seq<PatchOp>, last: PatchOp)
    requires Accounted(front)
    ensures Accounted(front + [last])
  {
    assert multiset(front + [last]) == multiset(front) + multiset{last};
    AccountStep(front, last);
    Regroup(multiset(MergedOps(front)), multiset(DroppedOps(front)), multiset(Rights(ConflictsOf(front))),
            FateOf(First(front, last.path), last), last);
  }

  /** Kept, reported and dropped operations are together all operations, with multiplicity. */
  lemma {:induction false} EveryOperationIsAccounted(ops: seq<PatchOp>)
    ensures Accounted(ops)
  {
    if ops != [] {
      var front, last := ops[..|ops| - 1], ops[|ops| - 1];
      assert ops == front + [last];
      EveryOperationIsAccounted(front);
      AccountedStep(front, last);
    }
  }

  /** What is dropped equals the first operation on its path; what conflicts is reported against it. */
  lemma {:induction false} DroppedAndReportedAgainstFirst(ops: seq<PatchOp>)
    ensures forall op :: op in DroppedOps(ops) ==> First(ops, op.path) == Some(op) && op.operation != Append
    ensures forall c :: c in ConflictsOf(ops) ==> c.path == c.right.path && First(ops, c.path) == Some(c.left)
    ensures forall c :: c in ConflictsOf(ops) ==> !Compatible(c.left, c.right)
  {
    if ops != [] {
      DroppedAndReportedAgainstFirst(ops[..|ops| - 1]);
    }
  }

  /** The rejected operations of a conflict list. */
  function Rights(cs: seq<Conflict>): seq<PatchOp> {
    if cs == [] then [] else Rights(cs[..|cs| - 1]) + [cs[|cs| - 1].right]
  }

  function OnPath(ops: seq<PatchOp>, path: string): seq<PatchOp> {
    if ops == [] then []
    else OnPath(ops[..|ops| - 1], path) + if ops[|ops| - 1].path == path then [ops[|ops| - 1]] else []
  }

  lemma OnPathAppend(ops: seq<PatchOp>, op: PatchOp, path: string)
    ensures OnPath(ops + [op], path) == OnPath(ops, path) + if op.path == path then [op] else []
  {
    assert (ops + [op])[..|ops|] == ops;
  }

  /** How a later kept operation relates to the first one on its path. */
  predicate Joins(first: PatchOp, op: PatchOp) {
    || (first.operation == Append && op.operation == Append)
    || (first.operation == Replace && op.operation == Replace && first.oldText != op.oldText)
  }

  /**
   Per path the merge keeps the first operation, and after it only appends to an
   append or replaces of another text than the first replace.  So a path carries
   one write, one delete, only appends, or only replaces.
   */
  lemma {:induction false} KeptShape(ops: seq<PatchOp>, path: string)
    ensures var kept := OnPath(MergedOps(ops), path);
            && (kept == [] <==> First(ops, path) == None)
            && (kept != [] ==> First(ops, path) == Some(kept[0]))
            && forall k :: 0 < k < |kept| ==> Joins(kept[0], kept[k])
  {
    if ops != [] {
      var front, last := ops[..|ops| - 1], ops[|ops| - 1];
      KeptShape(front, path);
      OnPathAppend(MergedOps(front), last, path);
      assert MergedOps(front) + [] == MergedOps(front);
    }
  }

  /** On a path with appends only the merge keeps them all, in order and without a conflict. */
  lemma {:induction false} AppendsAllStay(ops: seq<PatchOp>, path: string)
    requires forall op :: op in ops && op.path == path ==> op.operation == Append
    ensures OnPath(MergedOps(ops), path) == OnPath(ops, path)
    ensures forall c :: c in ConflictsOf(ops) ==> c.path != path
  {
    if ops != [] {
      var front, last := ops[..|ops| - 1], ops[|ops| - 1];
      assert ops == front + [last] && last in ops && forall op :: op in front ==> op in ops;
      AppendsAllStay(front, path);
      FirstIsFirst(front, path);
      AppendsStep(front, last, path);
    }
  }

  lemma AppendsStep(front: seq<PatchOp>, last: PatchOp, path: string)
    requires last.path == path ==> last.operation == Append
    requires First(front, path).Some? ==> First(front, path).value.operation == Append
    ensures OnPath(MergedOps(front + [last]), path) ==
            OnPath(MergedOps(front), path) + if last.path == path then [last] else []
    ensures forall c :: c in ConflictsOf(front + [last]) ==> c in ConflictsOf(front) || c.path != path
  {
    KeptOnPathStep(front, last, path);
    assert (front + [last])[..|front|] == front;
  }

  /** `First` finds the first operation on the path. */
  lemma {:induction false} FirstIsFirst(ops: seq<PatchOp>, path: string)
    ensures First(ops, path) == None <==> OnPath(ops, path) == []
    ensures OnPath(ops, path) != [] ==> First(ops, path) == Some(OnPath(ops, path)[0])
    ensures First(ops, path).Some? ==> First(ops, path).value in ops && First(ops, path).value.path == path
  {
    if ops != [] {
      FirstIsFirst(ops[..|ops| - 1], path);
    }
  }

  /** The later operation cannot stand beside the first one of its path. */
  predicate Clash(first: PatchOp, op: PatchOp) {
    && first != op && !(first.operation == Append && op.operation == Append)
    && !(first.operation == Replace && op.operation == Replace && first.oldText != op.oldText)
  }

  /** The `k`-th operation, unless it is the first on its path, and that first one. */
  predicate ClashesAt(ops: seq<PatchOp>, k: nat)
    requires k < |ops|
  {
    var earlier := OnPath(ops[..k], ops[k].path);
    earlier != [] && Clash(earlier[0], ops[k])
  }

  /** `at` are the positions of the clashing operations, in order, and `rights` the operations there. */
  ghost predicate AtClashes(ops: seq<PatchOp>, rights: seq<PatchOp>, at: seq<nat>) {
    && |at| == |rights| && (forall i :: 0 <= i < |at| ==> at[i] < |ops| && rights[i] == ops[at[i]])
    && (forall i, j :: 0 <= i < j < |at| ==> at[i] < at[j])
    && (forall k :: 0 <= k < |ops| ==> (k in at <==> ClashesAt(ops, k)))
  }

  lemma ClashesOneMore(front: seq<PatchOp>, op: PatchOp, rights: seq<PatchOp>, at: seq<nat>)
    requires AtClashes(front, rights, at)
    ensures var ops := front + [op];
            if ClashesAt(ops, |front|) then AtClashes(ops, rights + [op], at + [|front|])
            else AtClashes(ops, rights, at)
  {
    var ops := front + [op];
    forall k | 0 <= k < |front| ensures ClashesAt(ops, k) == ClashesAt(front, k) {
      assert ops[..k] == front[..k];
    }
    forall i | 0 <= i < |at| ensures at[i] < |front| {
    }
  }

  lemma ConflictIsClash(first: PatchOp, op: PatchOp)
    ensures FateOf(Some(first), op) == Conflicting <==> Clash(first, op)
  {
  }

  lemma ConflictingIsClash(front: seq<PatchOp>, op: PatchOp)
    ensures FateOf(First(front, op.path), op) == Conflicting <==> ClashesAt(front + [op], |front|)
  {
    assert (front + [op])[..|front|] == front;
    FirstIsFirst(front, op.path);
    var earlier := OnPath(front, op.path);
    if earlier != [] {
      ConflictIsClash(earlier[0], op);
    }
  }

  lemma RightsStep(front: seq<PatchOp>, op: PatchOp)
    ensures Rights(ConflictsOf(front + [op])) ==
            if FateOf(First(front, op.path), op) == Conflicting then Rights(ConflictsOf(front)) + [op]
            else Rights(ConflictsOf(front))
  {
    assert (front + [op])[..|front|] == front;
    var first, cs := First(front, op.path), ConflictsOf(front);
    if FateOf(first, op) == Conflicting {
      assert (cs + [Conflict(op.path, first.value, op)])[..|cs|] == cs;
    } else {
      assert cs + [] == cs;
    }
  }

  /** The operations reported as conflicts are exactly those that clash with the first one on their path, in order. */
  lemma {:induction false} ConflictsAreTheClashes(ops: seq<PatchOp>) returns (at: seq<nat>)
    ensures AtClashes(ops, Rights(ConflictsOf(ops)), at)
  {
    at := [];
    if ops != [] {
      var front, last := ops[..|ops| - 1], ops[|ops| - 1];
      assert ops == front + [last];
      at := ConflictsAreTheClashes(front);
      RightsStep(front, last);
      ConflictingIsClash(front, last);
      ClashesOneMore(front, last, Rights(ConflictsOf(front)), at);
      if ClashesAt(ops, |front|) {
        at := at + [|front|];
      }
    }
  }

  const SHARED_TEXT := [
    PatchOp("p", Replace, "", "a", "x", ""), PatchOp("p", Replace, "", "b", "y", ""),
    PatchOp("p", Replace, "", "b", "z", "")]

  /** Later replaces are compared with the first only, so two of them may rewrite the same text. */
  lemma LaterReplacesMayClash()
    ensures MergedOps(SHARED_TEXT) == SHARED_TEXT && ConflictsOf(SHARED_TEXT) == []
    ensures SHARED_TEXT[1].oldText == SHARED_TEXT[2].oldText && SHARED_TEXT[1].newText != SHARED_TEXT[2].newText
  {
    var s := SHARED_TEXT;
    assert s[..2][..1] == s[..1] && s[..1][..0] == [] && s[..1] == [s[0]];
    assert First(s[..1], "p") == Some(s[0]) && First(s[..2], "p") == Some(s[0]);
    assert MergedOps(s[..1]) == [s[0]];
    assert MergedOps(s[..2]) == [s[0]] + [s[1]];
    assert ConflictsOf(s[..1]) == [] && ConflictsOf(s[..2]) == [];
  }

  /** The replaces on the path of `first` that name another text than it does. */
  function OtherReplaces(ops: seq<PatchOp>, first: PatchOp): seq<PatchOp> {
    if ops == [] then []
    else
      var last := ops[|ops| - 1];
      OtherReplaces(ops[..|ops| - 1], first) +
      if last.path == first.path && last.operation == Replace && last.oldText != first.oldText then [last] else []
  }

  ghost predicate DistinctTexts(ops: seq<PatchOp>) {
    forall i, j :: 0 <= i < j < |ops| ==> ops[i].oldText != ops[j].oldText
  }

  lemma MergedStep(front: seq<PatchOp>, op: PatchOp)
    ensures MergedOps(front + [op]) ==
            if FateOf(First(front, op.path), op) == Kept then MergedOps(front) + [op] else MergedOps(front)
  {
    assert (front + [op])[..|front|] == front;
  }

  /** On a path that starts with a replace the merge keeps it and every replace of another text. */
  lemma {:induction false} KeptReplaces(ops: seq<PatchOp>, first: PatchOp)
    requires First(ops, first.path) == Some(first) && first.operation == Replace
    ensures OnPath(MergedOps(ops), first.path) == [first] + OtherReplaces(ops, first)
  {
    var front, last := ops[..|ops| - 1], ops[|ops| - 1];
    assert ops == front + [last];
    KeptOnPathStep(front, last, first.path);
    OthersStep(front, last, first);
    if First(front, first.path) == None {
      KeptShape(front, first.path);
      NothingOnPath(front, first);
    } else {
      KeptReplaces(front, first);
      FateAfterReplace(first, last);
    }
  }

  lemma KeptOnPathStep(front: seq<PatchOp>, last: PatchOp, path: string)
    ensures OnPath(MergedOps(front + [last]), path) ==
            OnPath(MergedOps(front), path) +
            if last.path == path && FateOf(First(front, path), last) == Kept then [last] else []
  {
    MergedStep(front, last);
    OnPathAppend(MergedOps(front), last, path);
  }

  lemma OthersStep(front: seq<PatchOp>, last: PatchOp, first: PatchOp)
    ensures OtherReplaces(front + [last], first) ==
            OtherReplaces(front, first) +
            if last.path == first.path && last.operation == Replace && last.oldText != first.oldText then [last] else []
  {
    assert (front + [last])[..|front|] == front;
  }

  lemma FateAfterReplace(first: PatchOp, op: PatchOp)
    requires first.operation == Replace
    ensures FateOf(Some(first), op) == Kept <==> op.operation == Replace && op.oldText != first.oldText
  {
  }

  lemma {:induction false} NothingOnPath(ops: seq<PatchOp>, first: PatchOp)
    requires First(ops, first.path) == None
    ensures OtherReplaces(ops, first) == []
  {
    if ops != [] {
      NothingOnPath(ops[..|ops| - 1], first);
    }
  }

  lemma {:induction false} OthersDiffer(ops: seq<PatchOp>, first: PatchOp)
    ensures forall op :: op in OtherReplaces(ops, first) ==> op.oldText != first.oldText
  {
    if ops != [] {
      OthersDiffer(ops[..|ops| - 1], first);
    }
  }

  /** The kept replaces of a path name pairwise different texts exactly when those that differ from the first do. */
  lemma KeptReplacesClashIff(ops: seq<PatchOp>, first: PatchOp)
    requires First(ops, first.path) == Some(first) && first.operation == Replace
    ensures DistinctTexts(OnPath(MergedOps(ops), first.path)) <==> DistinctTexts(OtherReplaces(ops, first))
  {
    KeptReplaces(ops, first);
    OthersDiffer(ops, first);
    DistinctWithFirst(first, OtherReplaces(ops, first));
  }

  lemma DistinctWithFirst(first: PatchOp, others: seq<PatchOp>)
    requires forall op :: op in others ==> op.oldText != first.oldText
    ensures DistinctTexts([first] + others) <==> DistinctTexts(others)
  {
    var kept := [first] + others;
    assert forall i :: 0 <= i < |others| ==> kept[i + 1] == others[i];
    forall i, j | 0 <= i < j < |kept| && DistinctTexts(others) ensures kept[i].oldText != kept[j].oldText {
      assert kept[j] == others[j - 1] && others[j - 1] in others;
    }
  }

  // ---------------------------------------------------------------------------
  // Merging a merge changes nothing
  // ---------------------------------------------------------------------------

  lemma {:induction false} FirstIsKept(ops: seq<PatchOp>, path: string)
    ensures First(MergedOps(ops), path) == First(ops, path)
  {
    if ops != [] {
      var front, last := ops[..|ops| - 1], ops[|ops| - 1];
      FirstIsKept(front, path);
      var m := MergedOps(front);
      assert (m + [last])[..|m|] == m && m + [] == m;
    }
  }

  /** Merging the result with nothing returns it unchanged and clean. */
  lemma {:induction false} MergeIsIdempotent(ops: seq<PatchOp>)
    ensures MergedOps(MergedOps(ops)) == MergedOps(ops)
    ensures ConflictsOf(MergedOps(ops)) == []
  {
    if ops != [] {
      var front, last := ops[..|ops| - 1], ops[|ops| - 1];
      MergeIsIdempotent(front);
      var m := MergedOps(front);
      FirstIsKept(front, last.path);
      assert (m + [last])[..|m|] == m && m + [] == m;
    }
  }

  // ---------------------------------------------------------------------------
  // File semantics
  // ---------------------------------------------------------------------------

  type Files = map<string, string>

  predicate Contains(text: string, part: string)
    decreases |text|
  {
    part <= text || (text != "" && Contains(text[1..], part))
  }

  /** Every non-overlapping occurrence, left to right; an empty pattern matches between characters. */
  function ReplaceAll(text: string, old_: string, new_: string): string
    decreases |text|
  {
    if old_ == "" then (if text == "" then new_ else new_ + [text[0]] + ReplaceAll(text[1..], old_, new_))
    else if |text| < |old_| then text
    else if old_ <= text then new_ + ReplaceAll(text[|old_|..], old_, new_)
    else [text[0]] + ReplaceAll(text[1..], old_, new_)
  }

  /** A failing operation leaves the files alone and the sandbox goes on. */
  function ApplyOp(files: Files, op: PatchOp): Files {
    match op.operation
    case Write => files[op.path := op.content]
    case Append => files[op.path := (if op.path in files then files[op.path] else "") + op.content]
    case Delete => files - {op.path}
    case Replace =>
      if op.path in files && Contains(files[op.path], op.oldText)
      then files[op.path := ReplaceAll(files[op.path], op.oldText, op.newText)] else files
    case Other(_) => files
  }

  function ApplyAll(files: Files, ops: seq<PatchOp>): Files {
    if ops == [] then files else ApplyOp(ApplyAll(files, ops[..|ops| - 1]), ops[|ops| - 1])
  }

  lemma {:induction false} ApplyConcat(files: Files, a: seq<PatchOp>, b: seq<PatchOp>)
    ensures ApplyAll(files, a + b) == ApplyAll(ApplyAll(files, a), b)
    decreases |b|
  {
    if b == [] {
      assert a + b == a;
    } else {
      assert (a + b)[..|a + b| - 1] == a + b[..|b| - 1];
      ApplyConcat(files, a, b[..|b| - 1]);
    }
  }

  /** Without conflicts, a write or delete that comes first on a path stays in force there. */
  lemma {:induction false} FirstStaysInForce(files: Files, ops: seq<PatchOp>, path: string)
    requires ConflictsOf(ops) == [] && First(ops, path).Some?
    ensures var f := First(ops, path).value;
            var after := ApplyAll(files, ops);
            && (f.operation == Write ==> path in after && after[path] == f.content)
            && (f.operation == Delete ==> path !in after)
  {
    var front, last := ops[..|ops| - 1], ops[|ops| - 1];
    if First(front, path).Some? {
      assert ConflictsOf(front) == [];
      FirstStaysInForce(files, front, path);
      if last.path == path {
        assert FateOf(First(front, path), last) != Conflicting;
      }
    }
  }

  // ---------------------------------------------------------------------------
  // When the merge means what the operations in sequence mean
  // ---------------------------------------------------------------------------

  predicate Dropped(ops: seq<PatchOp>, k: nat)
    requires k < |ops|
  {
    FateOf(First(ops[..k], ops[k].path), ops[k]) == DroppedAsEqual
  }

  /** A replace that changes nothing where it stands: same text in and out, no such file, or no such text in it. */
  predicate Harmless(files: Files, op: PatchOp) {
    op.oldText == op.newText || op.path !in files || !Contains(files[op.path], op.oldText)
  }

  ghost predicate HarmlessAt(files: Files, ops: seq<PatchOp>, k: nat)
    requires k < |ops|
  {
    Dropped(ops, k) && ops[k].operation == Replace ==> Harmless(ApplyAll(files, ops[..k]), ops[k])
  }

  /** Every replace the merge drops would have changed nothing where it stands. */
  ghost predicate DropsAreHarmless(files: Files, ops: seq<PatchOp>) {
    forall k :: 0 <= k < |ops| ==> HarmlessAt(files, ops, k)
  }

  ghost predicate SameEffect(files: Files, ops: seq<PatchOp>) {
    ApplyAll(files, MergedOps(ops)) == ApplyAll(files, ops)
  }

  ghost predicate SameEffectAt(files: Files, ops: seq<PatchOp>, k: nat)
    requires k <= |ops|
  {
    SameEffect(files, ops[..k])
  }

  ghost predicate SameEffectThroughout(files: Files, ops: seq<PatchOp>) {
    forall k :: 0 <= k <= |ops| ==> SameEffectAt(files, ops, k)
  }

  lemma {:induction false} LengthOfReplaceAll(text: string, old_: string, new_: string)
    ensures |new_| >= |old_| ==> |ReplaceAll(text, old_, new_)| >= |text|
    ensures |new_| <= |old_| ==> |ReplaceAll(text, old_, new_)| <= |text|
    decreases |text|
  {
    if old_ == "" {
      if text != "" { LengthOfReplaceAll(text[1..], old_, new_); }
    } else if |text| >= |old_| {
      if old_ <= text { LengthOfReplaceAll(text[|old_|..], old_, new_); }
      else { LengthOfReplaceAll(text[1..], old_, new_); }
    }
  }

  /** Replacing leaves a text as it is exactly when the two texts are equal or the old one does not occur. */
  lemma {:induction false} ReplaceAllIsNeutralIff(text: string, old_: string, new_: string)
    ensures ReplaceAll(text, old_, new_) == text <==> old_ == new_ || !Contains(text, old_)
    decreases |text|
  {
    if old_ == "" {
      assert old_ <= text;
      EmptyPatternGrows(text, new_);
    } else if |text| < |old_| {
      ShortTextLacks(text, old_);
    } else if old_ <= text {
      var rest := text[|old_|..];
      assert text == old_ + rest;
      LengthOfReplaceAll(rest, old_, new_);
      ReplaceAllIsNeutralIff(rest, old_, new_);
      var r := new_ + ReplaceAll(rest, old_, new_);
      if r == text {
        assert |new_| == |old_|;
        assert r[..|new_|] == new_ && text[..|old_|] == old_;
      }
    } else {
      ReplaceAllIsNeutralIff(text[1..], old_, new_);
      assert text == [text[0]] + text[1..];
      assert ReplaceAll(text, old_, new_)[1..] == ReplaceAll(text[1..], old_, new_);
    }
  }

  lemma {:induction false} EmptyPatternGrows(text: string, new_: string)
    ensures new_ == "" ==> ReplaceAll(text, "", new_) == text
    ensures new_ != "" ==> |ReplaceAll(text, "", new_)| > |text|
    decreases |text|
  {
    if text != "" {
      EmptyPatternGrows(text[1..], new_);
      assert text == [text[0]] + text[1..];
    }
  }

  lemma {:induction false} ShortTextLacks(text: string, part: string)
    requires |text| < |part|
    ensures !Contains(text, part)
    decreases |text|
  {
    if text != "" {
      ShortTextLacks(text[1..], part);
    }
  }

  lemma ReplaceIsNeutralIff(files: Files, op: PatchOp)
    requires op.operation == Replace
    ensures ApplyOp(files, op) == files <==> Harmless(files, op)
  {
    if op.path in files {
      ReplaceAllIsNeutralIff(files[op.path], op.oldText, op.newText);
      assert files[op.path := files[op.path]] == files;
    }
  }

  /** What is dropped and not a replace never changes anything. */
  lemma DroppedIsNeutral(files: Files, front: seq<PatchOp>, op: PatchOp)
    requires ConflictsOf(front) == [] && op.operation != Replace
    requires FateOf(First(front, op.path), op) == DroppedAsEqual
    ensures ApplyOp(ApplyAll(files, front), op) == ApplyAll(files, front)
  {
    FirstStaysInForce(files, front, op.path);
  }

  /** One more operation keeps the effects equal exactly when it is not a dropped, harmful replace. */
  lemma SameEffectStep(files: Files, front: seq<PatchOp>, op: PatchOp)
    requires ConflictsOf(front + [op]) == [] && SameEffect(files, front)
    ensures SameEffect(files, front + [op]) <==>
            (FateOf(First(front, op.path), op) == DroppedAsEqual && op.operation == Replace ==>
               Harmless(ApplyAll(files, front), op))
  {
    MergedStep(front, op);
    ApplyStep(files, front, op);
    ApplyStep(files, MergedOps(front), op);
    assert (front + [op])[..|front|] == front && ConflictsOf(front) == [];
    if FateOf(First(front, op.path), op) == DroppedAsEqual {
      if op.operation == Replace {
        ReplaceIsNeutralIff(ApplyAll(files, front), op);
      } else {
        DroppedIsNeutral(files, front, op);
      }
    }
  }

  lemma ApplyStep(files: Files, front: seq<PatchOp>, op: PatchOp)
    ensures ApplyAll(files, front + [op]) == ApplyOp(ApplyAll(files, front), op)
  {
    assert (front + [op])[..|front|] == front;
  }

  /**
   Without conflicts, merging has the effect of the operations in sequence, up
   to every one of them, if and only if the dropped replaces are harmless.
   */
  lemma {:induction false} MergeKeepsMeaningIff(files: Files, ops: seq<PatchOp>)
    requires ConflictsOf(ops) == []
    ensures SameEffectThroughout(files, ops) <==> DropsAreHarmless(files, ops)
  {
    if ops == [] {
      assert ops[..0] == [];
    } else {
      var n := |ops| - 1;
      var front, last := ops[..n], ops[n];
      assert ops == front + [last] && ConflictsOf(front) == [];
      MergeKeepsMeaningIff(files, front);
      EffectOfFront(files, front, last);
      HarmOfFront(files, front, last);
      if SameEffectThroughout(files, front) {
        ThroughoutIsAlsoWhole(files, front);
        SameEffectStep(files, front, last);
      }
    }
  }

  lemma ThroughoutIsAlsoWhole(files: Files, ops: seq<PatchOp>)
    requires SameEffectThroughout(files, ops)
    ensures SameEffect(files, ops)
  {
    assert SameEffectAt(files, ops, |ops|) && ops[..|ops|] == ops;
  }

  lemma EffectOfFront(files: Files, front: seq<PatchOp>, last: PatchOp)
    ensures SameEffectThroughout(files, front + [last]) <==>
            SameEffectThroughout(files, front) && SameEffect(files, front + [last])
  {
    var ops := front + [last];
    forall k | 0 <= k <= |front| ensures SameEffectAt(files, ops, k) == SameEffectAt(files, front, k) {
      assert ops[..k] == front[..k];
    }
    assert ops[..|ops|] == ops;
    assert SameEffectAt(files, ops, |ops|) == SameEffect(files, ops);
    if SameEffectThroughout(files, ops) {
      forall k | 0 <= k <= |front| ensures SameEffectAt(files, front, k) {
        assert SameEffectAt(files, ops, k);
      }
    }
  }

  lemma HarmOfFront(files: Files, front: seq<PatchOp>, last: PatchOp)
    ensures DropsAreHarmless(files, front + [last]) <==>
            DropsAreHarmless(files, front) && HarmlessAt(files, front + [last], |front|)
    ensures HarmlessAt(files, front + [last], |front|) <==>
            (FateOf(First(front, last.path), last) == DroppedAsEqual && last.operation == Replace ==>
               Harmless(ApplyAll(files, front), last))
  {
    var ops := front + [last];
    assert ops[..|front|] == front;
    forall k | 0 <= k < |front| ensures HarmlessAt(files, ops, k) == HarmlessAt(files, front, k) {
      assert ops[..k] == front[..k] && ops[k] == front[k];
    }
    if DropsAreHarmless(files, ops) {
      forall k | 0 <= k < |front| ensures HarmlessAt(files, front, k) {
        assert HarmlessAt(files, ops, k);
      }
    }
  }

  /** When nothing conflicts and the dropped replaces are harmless, the merge has the effect of the sequence. */
  lemma MergeKeepsMeaning(files: Files, ops: seq<PatchOp>)
    requires ConflictsOf(ops) == [] && DropsAreHarmless(files, ops)
    ensures ApplyAll(files, MergedOps(ops)) == ApplyAll(files, ops)
  {
    MergeKeepsMeaningIff(files, ops);
    ThroughoutIsAlsoWhole(files, ops);
  }

  /** For inputs without replaces no condition is needed. */
  lemma ReplaceFreeMergeKeepsMeaning(files: Files, left: seq<PatchOp>, right: seq<PatchOp>)
    requires ConflictsOf(left + right) == []
    requires forall op :: op in left + right ==> op.operation != Replace
    ensures ApplyAll(files, MergedOps(left + right)) == ApplyAll(ApplyAll(files, left), right)
  {
    var ops := left + right;
    forall k | 0 <= k < |ops| ensures ops[k].operation != Replace {
      assert ops[k] in ops;
    }
    MergeKeepsMeaning(files, ops);
    ApplyConcat(files, left, right);
  }

  /**
   A replace given by both sides: the merge applies it once, which is enough exactly when the second
   time is harmless.
   */
  lemma SharedReplaceIff(files: Files, op: PatchOp)
    requires op.operation == Replace
    ensures ConflictsOf([op] + [op]) == [] && MergedOps([op] + [op]) == [op]
    ensures ApplyAll(files, [op]) == ApplyAll(files, [op] + [op]) <==> Harmless(ApplyOp(files, op), op)
  {
    var ops := [op] + [op];
    assert ops[..1] == [op] && [op][..0] == [];
    assert First([op], op.path) == Some(op) && MergedOps([op]) == [op] && ConflictsOf([op]) == [];
    assert MergedOps(ops) == [op] + [] == [op] && ConflictsOf(ops) == [];
    assert ApplyAll(files, []) == files && ApplyAll(files, [op]) == ApplyOp(files, op);
    ReplaceIsNeutralIff(ApplyOp(files, op), op);
  }

  const DOUBLING := PatchOp("p", Replace, "", "a", "aa", "")

  /** A shared replace whose new text contains the old one: once by the merge, twice in sequence. */
  lemma DroppedReplaceChangesMeaning()
    ensures ApplyAll(map["p" := "a"], MergedOps([DOUBLING] + [DOUBLING])) == map["p" := "aa"]
    ensures ApplyAll(map["p" := "a"], MergedOps([DOUBLING] + [DOUBLING])) !=
            ApplyAll(map["p" := "a"], [DOUBLING] + [DOUBLING])
  {
    var files := map["p" := "a"];
    SharedReplaceIff(files, DOUBLING);
    assert "a"[1..] == "" && ReplaceAll("a", "a", "aa") == "aa" + "" == "aa";
    assert files["p" := "aa"] == map["p" := "aa"];
    assert [DOUBLING][..0] == [];
    assert ApplyAll(files, [DOUBLING]) == ApplyOp(files, DOUBLING) == map["p" := "aa"];
    assert Contains("aa", "a");
  }
}
