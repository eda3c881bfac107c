/**
 Evidence aggregation (evaluators/evidence_authority.py) and the append-only
 record list of a candidate (evaluators/evidence.py).
 */
module Evidence {
  import opened Counting
  import opened Numbers
  import opened Wrappers

  /** Identity of a record for deduplication; the verdict is not part of it. */
  datatype Key = Key(candidate: string, source: string, stage: string, createdAt: string, diagnostics: seq<string>)

  /** `authority` is the stripped lower-case text; `hash` is empty when the record names no artifact. */
  datatype Record = Record(
    key: Key, authority: string, hash: string, revokes: bool,
    finalBlocked: bool, parentBlocked: bool, terminalReject: bool, signals: Signals)

  /** The measurements of a record; the optional ones come from its metadata. */
  datatype Signals = Signals(
    score: real, confidence: real, repair: real, continuation: real,
    targets: seq<string>, resolved: seq<string>, emitted: seq<string>,
    cleanliness: Option<real>, evaluator: Option<real>, passRate: Option<real>)

  function Rank(r: Record): nat {
    match r.authority
    case "probe" => 10
    case "progressive_evaluator" => 10
    case "verifier" => 20
    case "external_evaluator" => 20
    case "frontier" => 30
    case "final" => 40
    case "l4" => 40
    case "certificate" => 50
    case "certification" => 50
    case "certified" => 50
    case "human_review" => 60
    case _ => 10
  }

  /** final, certificate or human_review */
  predicate High(r: Record) {
    Rank(r) >= 40
  }

  /** The authority texts that can clear or block. */
  const HIGH_AUTHORITIES := {"final", "l4", "certificate", "certification", "certified", "human_review"}

  lemma HighIff(r: Record)
    ensures High(r) <==> r.authority in HIGH_AUTHORITIES
  {
  }

  /** The order of the authorities; a text that is not known ranks as a probe. */
  lemma AuthoritiesAreOrdered(r: Record)
    ensures Rank(r.(authority := "probe")) < Rank(r.(authority := "verifier")) < Rank(r.(authority := "frontier"))
            < Rank(r.(authority := "final")) < Rank(r.(authority := "certificate"))
            < Rank(r.(authority := "human_review"))
    ensures Rank(r.(authority := "l4")) == Rank(r.(authority := "final"))
    ensures forall text :: text in {"certification", "certified"} ==>
              Rank(r.(authority := text)) == Rank(r.(authority := "certificate"))
    ensures Rank(r.(authority := "external_evaluator")) == Rank(r.(authority := "verifier"))
    ensures r.authority !in {"verifier", "external_evaluator", "frontier", "final", "l4", "certificate",
                             "certification", "certified", "human_review"} ==>
              Rank(r) == Rank(r.(authority := "probe"))
  {
    var texts := {"certification", "certified"};
    forall text | text in texts ensures Rank(r.(authority := text)) == Rank(r.(authority := "certificate")) {
      assert text == "certification" || text == "certified";
    }
  }

  // ---------------------------------------------------------------------------
  // Closed form
  // ---------------------------------------------------------------------------

  /** Record `i` speaks about the artifact of the latest record. */
  predicate Same(rs: seq<Record>, i: nat)
    requires i < |rs|
  {
    i == |rs| - 1 || (rs[|rs| - 1].hash != "" && rs[i].hash == rs[|rs| - 1].hash)
  }

  predicate Blocking(r: Record) {
    High(r) && (r.revokes || r.finalBlocked)
  }

  predicate Clearing(r: Record) {
    High(r) && !r.revokes && !r.finalBlocked
  }

  predicate Revoking(r: Record) {
    High(r) && r.revokes
  }

  predicate SomeSame(rs: seq<Record>, p: Record -> bool) {
    exists i :: 0 <= i < |rs| && Same(rs, i) && p(rs[i])
  }

  /** Blocked by authority, or by the latest record with no authority clearing it. */
  predicate FinalBlocked(rs: seq<Record>) {
    rs != [] && (SomeSame(rs, Blocking) || (rs[|rs| - 1].finalBlocked && !SomeSame(rs, Clearing)))
  }

  function Last(rs: seq<Record>): Record
    requires rs != []
  {
    rs[|rs| - 1]
  }

  predicate Rejecting(r: Record) {
    r.terminalReject
  }

  /** The last revocation by authority decides; without one, any rejection does. */
  ghost predicate TerminalReject(rs: seq<Record>) {
    if SomeSame(rs, Revoking) then
      exists i :: 0 <= i < |rs| && Same(rs, i) && Revoking(rs[i]) && rs[i].terminalReject &&
                  forall j :: i < j < |rs| && Same(rs, j) ==> !Revoking(rs[j])
    else SomeSame(rs, Rejecting)
  }

  datatype State = State(
    finalBlocked: bool, parentBlocked: bool, terminalReject: bool, rank: nat, hash: string, summary: Summary)

  datatype Summary = Summary(
    searchScore: real, finalScore: real, repairValue: real, continuationValue: real, confidence: real,
    targets: seq<string>, resolved: seq<string>, emitted: seq<string>, challengeResolution: real)

  const NO_SUMMARY := Summary(0.0, 0.0, 0.0, 0.0, 0.0, [], [], [], 0.0)

  function Bounded(x: real): (y: real)
    ensures 0.0 <= y <= 1.0 && (0.0 <= x <= 1.0 ==> y == x) && (x > 1.0 ==> y == 1.0) && (x < 0.0 ==> y == 0.0)
  {
    if x < 0.0 then 0.0 else if x > 1.0 then 1.0 else x
  }

  /** The largest of the bounded values, or 0 of none. */
  function Highest(rs: seq<Record>, f: Record -> real): real {
    if rs == [] then 0.0 else RealMax(Highest(rs[..|rs| - 1], f), Bounded(f(rs[|rs| - 1])))
  }

  const ScoreOf: Record -> real := (r: Record) => r.signals.score
  const ConfidenceOf: Record -> real := (r: Record) => r.signals.confidence
  const RepairOf: Record -> real := (r: Record) => r.signals.repair
  const ContinuationOf: Record -> real := (r: Record) => r.signals.continuation
  const CertainScoreOf: Record -> real := (r: Record) => r.signals.score * r.signals.confidence
  const TargetsOf: Record -> seq<string> := (r: Record) => r.signals.targets
  const ResolvedOf: Record -> seq<string> := (r: Record) => r.signals.resolved
  const EmittedOf: Record -> seq<string> := (r: Record) => r.signals.emitted

  /** All named challenges in order, each once; empty names are dropped. */
  function Gathered(rs: seq<Record>, f: Record -> seq<string>): seq<string> {
    if rs == [] then [] else FirstOccurrences(Gathered(rs[..|rs| - 1], f) + Named(f(rs[|rs| - 1])))
  }

  function Named(xs: seq<string>): seq<string> {
    if xs == [] then [] else Named(xs[..|xs| - 1]) + if xs[|xs| - 1] != "" then [xs[|xs| - 1]] else []
  }

  function Members(xs: seq<string>): set<string> {
    set x | x in xs
  }

  /** The share of the targets that are resolved; without targets, resolved per emitted. */
  function Resolution(targets: seq<string>, resolved: seq<string>, emitted: seq<string>): real {
    Bounded(if targets != []
            then |Members(resolved) * Members(targets)| as real / Max(1, |Members(targets)|) as real
            else |resolved| as real / Max(1, |emitted|) as real)
  }

  /** The same-artifact clearances among the first `n` records, in order. */
  function Clearances(rs: seq<Record>, n: nat): seq<Record>
    requires n <= |rs|
  {
    if n == 0 then []
    else Clearances(rs, n - 1) + if Same(rs, n - 1) && Clearing(rs[n - 1]) then [rs[n - 1]] else []
  }

  function SummaryFrom(rs: seq<Record>, finals: seq<Record>): Summary {
    var targets, resolved, emitted := Gathered(rs, TargetsOf), Gathered(rs, ResolvedOf), Gathered(rs, EmittedOf);
    Summary(Highest(rs, ScoreOf), Highest(finals, CertainScoreOf), Highest(rs, RepairOf),
            Highest(rs, ContinuationOf), Highest(rs, ConfidenceOf), targets, resolved, emitted,
            Resolution(targets, resolved, emitted))
  }

  function SummaryOf(rs: seq<Record>): Summary {
    SummaryFrom(rs, Clearances(rs, |rs|))
  }

  ghost predicate IsTopRank(rs: seq<Record>, rank: nat)
    requires rs != []
  {
    && (exists i :: 0 <= i < |rs| && Same(rs, i) && Rank(rs[i]) == rank)
    && (forall i :: 0 <= i < |rs| && Same(rs, i) ==> Rank(rs[i]) <= rank)
  }

  const NO_STATE := State(false, false, false, 10, "", NO_SUMMARY)

  /** The closed form of every field of the state. */
  ghost predicate Describes(rs: seq<Record>, s: State) {
    if rs == [] then s == NO_STATE
    else
      && s.finalBlocked == FinalBlocked(rs) && s.terminalReject == TerminalReject(rs)
      && s.parentBlocked == Last(rs).parentBlocked && s.hash == Last(rs).hash
      && IsTopRank(rs, s.rank) && s.summary == SummaryOf(rs)
  }

  /** The records determine the state. */
  lemma DescriptionIsUnique(rs: seq<Record>, s: State, t: State)
    requires Describes(rs, s) && Describes(rs, t)
    ensures s == t
  {
    if rs != [] {
      TopRankIsUnique(rs, s.rank, t.rank);
    }
  }

  lemma TopRankIsUnique(rs: seq<Record>, a: nat, b: nat)
    requires rs != [] && IsTopRank(rs, a) && IsTopRank(rs, b)
    ensures a == b
  {
    var i :| 0 <= i < |rs| && Same(rs, i) && Rank(rs[i]) == a;
    var j :| 0 <= j < |rs| && Same(rs, j) && Rank(rs[j]) == b;
  }

  // ---------------------------------------------------------------------------
  // The aggregation as written
  // ---------------------------------------------------------------------------

  /** Whether the artifact is rejected, over the records about it, in order. */
  method AggregateTerminal(rs: seq<Record>) returns (terminal: bool)
    requires rs != []
    ensures terminal <==> TerminalReject(rs)
  {
    terminal := false;
    for i := 0 to |rs|
      invariant terminal <==> exists k :: 0 <= k < i && Same(rs, k) && Rejecting(rs[k])
    {
      if Same(rs, i) && rs[i].terminalReject {
        terminal := true;
      }
    }
    ghost var at := -1;
    for i := 0 to |rs|
      invariant -1 <= at < i
      invariant at >= 0 ==> Same(rs, at) && Revoking(rs[at]) && terminal == rs[at].terminalReject
      invariant forall k :: at < k < i && Same(rs, k) ==> !Revoking(rs[k])
      invariant at == -1 ==> (terminal <==> SomeSame(rs, Rejecting))
    {
      if Same(rs, i) && rs[i].revokes && Rank(rs[i]) >= 40 {
        terminal, at := rs[i].terminalReject, i;
      }
    }
  }

  method AggregateFinal(rs: seq<Record>) returns (blocked: bool, finals: seq<Record>)
    requires rs != []
    ensures blocked <==> FinalBlocked(rs)
    ensures finals == Clearances(rs, |rs|)
  {
    var latest := Last(rs);
    finals := [];
    var blockers: seq<Record> := [];
    for i := 0 to |rs|
      invariant finals == Clearances(rs, i)
      invariant finals != [] <==> exists k :: 0 <= k < i && Same(rs, k) && Clearing(rs[k])
      invariant blockers != [] <==> exists k :: 0 <= k < i && Same(rs, k) && Blocking(rs[k])
    {
      var r := rs[i];
      if !Same(rs, i) && High(r) {
        continue;
      }
      if r.revokes && Rank(r) >= 40 {
        blockers := blockers + [r];
        continue;
      }
      if !r.finalBlocked && High(r) && Same(rs, i) {
        finals := finals + [r];
      } else if r.finalBlocked && Rank(r) >= 40 && Same(rs, i) {
        blockers := blockers + [r];
      }
    }
    blocked := latest.finalBlocked;
    if finals != [] && blockers == [] {
      blocked := false;
    }
    if blockers != [] {
      blocked := true;
    }
    if Rank(latest) < 40 && finals != [] && blockers == [] {
      blocked := false;
    }
  }

  method TopRank(rs: seq<Record>) returns (rank: nat)
    requires rs != []
    ensures IsTopRank(rs, rank)
  {
    rank := Rank(Last(rs));
    assert Same(rs, |rs| - 1);
    for i := 0 to |rs|
      invariant exists k :: 0 <= k < |rs| && Same(rs, k) && Rank(rs[k]) == rank
      invariant forall k :: 0 <= k < i && Same(rs, k) ==> Rank(rs[k]) <= rank
    {
      if Same(rs, i) && Rank(rs[i]) > rank {
        rank := Rank(rs[i]);
      }
    }
  }

  method AggregateEvidenceState(rs: seq<Record>) returns (s: State)
    ensures Describes(rs, s)
  {
    if rs == [] {
      return NO_STATE;
    }
    var terminal := AggregateTerminal(rs);
    var blocked, finals := AggregateFinal(rs);
    var rank := TopRank(rs);
    s := State(blocked, Last(rs).parentBlocked, terminal, rank, Last(rs).hash, SummaryFrom(rs, finals));
  }

  // ---------------------------------------------------------------------------
  // What the closed form implies
  // ---------------------------------------------------------------------------

  /** Record `i` is the latest one, or names the same artifact as it does. */
  ghost predicate SpeaksOfLatest(rs: seq<Record>, i: int) {
    0 <= i < |rs| && (i == |rs| - 1 || (rs[i].hash != "" && rs[i].hash == rs[|rs| - 1].hash))
  }

  /** A high authority revokes or blocks the latest artifact. */
  ghost predicate BlockedByAuthority(rs: seq<Record>) {
    exists i :: SpeaksOfLatest(rs, i) && rs[i].authority in HIGH_AUTHORITIES && (rs[i].revokes || rs[i].finalBlocked)
  }

  /** A high authority neither revokes nor blocks it. */
  ghost predicate ClearedByAuthority(rs: seq<Record>) {
    exists i :: SpeaksOfLatest(rs, i) && rs[i].authority in HIGH_AUTHORITIES && !rs[i].revokes && !rs[i].finalBlocked
  }

  /**
   The verdict in the records themselves: an authority's block wins, then an
   authority's clearance, then the latest record.
   */
  lemma VerdictIff(rs: seq<Record>)
    requires rs != []
    ensures FinalBlocked(rs) <==>
              BlockedByAuthority(rs) || (!ClearedByAuthority(rs) && rs[|rs| - 1].finalBlocked)
    ensures SomeSame(rs, Blocking) <==> BlockedByAuthority(rs)
    ensures SomeSame(rs, Clearing) <==> ClearedByAuthority(rs)
  {
    forall i | 0 <= i < |rs|
      ensures Same(rs, i) <==> SpeaksOfLatest(rs, i)
      ensures High(rs[i]) <==> rs[i].authority in HIGH_AUTHORITIES
    {
      HighIff(rs[i]);
    }
  }

  /** The last revocation by a high authority decides terminal rejection; without one, any rejection does. */
  lemma RejectionIff(rs: seq<Record>, i: int)
    requires SpeaksOfLatest(rs, i) && rs[i].authority in HIGH_AUTHORITIES && rs[i].revokes
    requires forall j :: i < j && SpeaksOfLatest(rs, j) ==> !(rs[j].authority in HIGH_AUTHORITIES && rs[j].revokes)
    ensures TerminalReject(rs) <==> rs[i].terminalReject
  {
    forall j | 0 <= j < |rs|
      ensures Same(rs, j) <==> SpeaksOfLatest(rs, j)
      ensures High(rs[j]) <==> rs[j].authority in HIGH_AUTHORITIES
    {
      HighIff(rs[j]);
    }
    assert Same(rs, i) && Revoking(rs[i]);
  }

  lemma RejectionWithoutRevocation(rs: seq<Record>)
    requires forall j :: SpeaksOfLatest(rs, j) ==> !(rs[j].authority in HIGH_AUTHORITIES && rs[j].revokes)
    ensures TerminalReject(rs) <==> exists j :: SpeaksOfLatest(rs, j) && rs[j].terminalReject
  {
    forall j | 0 <= j < |rs|
      ensures Same(rs, j) <==> SpeaksOfLatest(rs, j)
      ensures High(rs[j]) <==> rs[j].authority in HIGH_AUTHORITIES
    {
      HighIff(rs[j]);
    }
  }

  /** Only the records about the latest artifact, and the latest record itself, matter. */
  function About(rs: seq<Record>, hash: string): seq<Record> {
    if rs == [] then []
    else About(rs[..|rs| - 1], hash) + if hash != "" && Last(rs).hash == hash then [Last(rs)] else []
  }

  lemma {:induction false} AboutMembers(rs: seq<Record>, hash: string)
    ensures forall r :: r in About(rs, hash) <==> r in rs && hash != "" && r.hash == hash
  {
    if rs != [] {
      AboutMembers(rs[..|rs| - 1], hash);
      assert forall r :: r in rs <==> r in rs[..|rs| - 1] || r == Last(rs);
    }
  }

  /** A same-artifact property depends only on which records were appended before, not on their order. */
  lemma SomeSameByMembership(rs: seq<Record>, r: Record, p: Record -> bool)
    ensures SomeSame(rs + [r], p) <==> p(r) || exists x :: x in rs && r.hash != "" && x.hash == r.hash && p(x)
  {
    var all := rs + [r];
    assert all[|all| - 1] == r;
    if p(r) {
      assert Same(all, |all| - 1) && p(all[|all| - 1]);
    }
    forall x | x in rs && r.hash != "" && x.hash == r.hash && p(x) ensures SomeSame(all, p) {
      var i :| 0 <= i < |rs| && rs[i] == x;
      assert Same(all, i) && p(all[i]);
    }
    if SomeSame(all, p) && !p(r) {
      var i :| 0 <= i < |all| && Same(all, i) && p(all[i]);
      assert all[i] in rs;
    }
  }

  /** The order of the earlier records does not matter. */
  lemma OrderIsIrrelevant(a: seq<Record>, b: seq<Record>, latest: Record)
    requires multiset(a) == multiset(b)
    ensures FinalBlocked(a + [latest]) == FinalBlocked(b + [latest])
  {
    SomeSameByMembership(a, latest, Blocking);
    SomeSameByMembership(b, latest, Blocking);
    SomeSameByMembership(a, latest, Clearing);
    SomeSameByMembership(b, latest, Clearing);
    assert forall x :: x in a <==> x in b by {
      assert forall x :: x in a <==> x in multiset(a);
      assert forall x :: x in b <==> x in multiset(b);
    }
  }

  /** Clearances and blocks never transfer: records about other artifacts can be deleted. */
  lemma OtherArtifactsAreIrrelevant(rs: seq<Record>, latest: Record)
    ensures FinalBlocked(rs + [latest]) == FinalBlocked(About(rs, latest.hash) + [latest])
  {
    AboutMembers(rs, latest.hash);
    SomeSameByMembership(rs, latest, Blocking);
    SomeSameByMembership(About(rs, latest.hash), latest, Blocking);
    SomeSameByMembership(rs, latest, Clearing);
    SomeSameByMembership(About(rs, latest.hash), latest, Clearing);
  }

  /** A record about a new artifact is judged by itself alone. */
  lemma NewArtifactStartsOver(rs: seq<Record>, latest: Record)
    requires forall r :: r in rs ==> latest.hash == "" || r.hash != latest.hash
    ensures FinalBlocked(rs + [latest]) <==> latest.finalBlocked || Revoking(latest)
  {
    SomeSameByMembership(rs, latest, Blocking);
    SomeSameByMembership(rs, latest, Clearing);
  }

  /** A lower authority about the same artifact cannot downgrade a certificate. */
  lemma LowerAuthorityCannotDowngrade(rs: seq<Record>, probe: Record)
    requires rs != [] && !FinalBlocked(rs) && SomeSame(rs, Clearing)
    requires !High(probe) && probe.hash == Last(rs).hash && probe.hash != ""
    ensures !FinalBlocked(rs + [probe]) && SomeSame(rs + [probe], Clearing)
  {
    var front := rs[..|rs| - 1];
    assert rs == front + [Last(rs)];
    SomeSameByMembership(front, Last(rs), Clearing);
    SomeSameByMembership(front, Last(rs), Blocking);
    SomeSameByMembership(rs, probe, Clearing);
    SomeSameByMembership(rs, probe, Blocking);
    assert Last(rs) in rs && forall x :: x in front ==> x in rs;
    assert forall x :: x in rs ==> x in front || x == Last(rs);
  }

  /** A block by authority stays under every later append about the same artifact. */
  lemma BlockPersists(rs: seq<Record>, later: seq<Record>, block: Record)
    requires block in rs && Blocking(block) && block.hash != ""
    requires later != [] && Last(later).hash == block.hash
    ensures FinalBlocked(rs + later)
  {
    var all := rs + later;
    var front := rs + later[..|later| - 1];
    assert all == front + [Last(later)];
    SomeSameByMembership(front, Last(later), Blocking);
    assert block in front;
  }

  lemma LatestRevocationDecides(rs: seq<Record>, latest: Record)
    requires Revoking(latest)
    ensures TerminalReject(rs + [latest]) == latest.terminalReject
  {
    var all := rs + [latest];
    assert Same(all, |all| - 1) && Revoking(all[|all| - 1]);
    if latest.terminalReject {
      assert all[|all| - 1].terminalReject;
    }
  }

  // ---------------------------------------------------------------------------
  // The record list
  // ---------------------------------------------------------------------------

  function Keys(rs: seq<Record>): set<Key> {
    set r | r in rs :: r.key
  }

  lemma KeysAppend(rs: seq<Record>, r: Record)
    ensures Keys(rs + [r]) == Keys(rs) + {r.key}
  {
    assert r in rs + [r] && forall x :: x in rs + [r] <==> x in rs || x == r;
  }

  /** Keeps the first record of every key. */
  function Dedupe(rs: seq<Record>): (out: seq<Record>)
    ensures Keys(out) == Keys(rs)
  {
    if rs == [] then []
    else
      var front := Dedupe(rs[..|rs| - 1]);
      KeysAppend(rs[..|rs| - 1], Last(rs));
      KeysAppend(front, Last(rs));
      assert rs == rs[..|rs| - 1] + [Last(rs)];
      if Last(rs).key in Keys(rs[..|rs| - 1]) then front else front + [Last(rs)]
  }

  ghost predicate DistinctKeys(rs: seq<Record>) {
    forall i, j :: 0 <= i < j < |rs| ==> rs[i].key != rs[j].key
  }

  method DedupeRecords(rs: seq<Record>) returns (out: seq<Record>)
    ensures out == Dedupe(rs)
  {
    out := [];
    var seen: set<Key> := {};
    for i := 0 to |rs|
      invariant out == Dedupe(rs[..i]) && seen == Keys(rs[..i])
    {
      assert rs[..i + 1][..i] == rs[..i];
      assert rs[..i + 1] == rs[..i] + [rs[i]];
      KeysAppend(rs[..i], rs[i]);
      if rs[i].key in seen {
        continue;
      }
      seen := seen + {rs[i].key};
      out := out + [rs[i]];
    }
    assert rs[..|rs|] == rs;
  }

  /** The first position of a key. */
  predicate IsFirst(rs: seq<Record>, k: nat)
    requires k < |rs|
  {
    forall j :: 0 <= j < k ==> rs[j].key != rs[k].key
  }

  /** `at` are the first positions of all keys, in order, and `out` the records there. */
  ghost predicate AtFirsts(rs: seq<Record>, out: seq<Record>, at: seq<nat>) {
    && |at| == |out| && (forall i :: 0 <= i < |at| ==> at[i] < |rs| && out[i] == rs[at[i]])
    && (forall i, j :: 0 <= i < j < |at| ==> at[i] < at[j])
    && (forall k :: 0 <= k < |rs| ==> (k in at <==> IsFirst(rs, k)))
  }

  lemma KnownKeyIsNotFirst(rs: seq<Record>)
    requires rs != []
    ensures Last(rs).key in Keys(rs[..|rs| - 1]) <==> !IsFirst(rs, |rs| - 1)
  {
    var n := |rs| - 1;
    if !IsFirst(rs, n) {
      var j :| 0 <= j < n && rs[j].key == rs[n].key;
      assert rs[..n][j] in rs[..n];
    }
  }

  lemma FirstsOneMore(rs: seq<Record>, out: seq<Record>, at: seq<nat>)
    requires rs != [] && AtFirsts(rs[..|rs| - 1], out, at)
    ensures var n := |rs| - 1;
            if IsFirst(rs, n) then AtFirsts(rs, out + [rs[n]], at + [n]) else AtFirsts(rs, out, at)
  {
    var n := |rs| - 1;
    forall k | 0 <= k < n ensures IsFirst(rs[..n], k) == IsFirst(rs, k) {
    }
    forall i | 0 <= i < |at| ensures at[i] < n {
    }
  }

  /** The result is the list of the first records of each key, in the order of the input. */
  lemma {:induction false} DedupeKeepsFirsts(rs: seq<Record>) returns (at: seq<nat>)
    ensures AtFirsts(rs, Dedupe(rs), at)
  {
    at := [];
    if rs != [] {
      at := DedupeKeepsFirsts(rs[..|rs| - 1]);
      KnownKeyIsNotFirst(rs);
      FirstsOneMore(rs, Dedupe(rs[..|rs| - 1]), at);
      if IsFirst(rs, |rs| - 1) {
        at := at + [|rs| - 1];
      }
    }
  }

  lemma {:induction false} DedupeIsDistinct(rs: seq<Record>)
    ensures DistinctKeys(Dedupe(rs))
  {
    if rs != [] {
      var front := rs[..|rs| - 1];
      DedupeIsDistinct(front);
      if Last(rs).key !in Keys(front) {
        assert forall i :: 0 <= i < |Dedupe(front)| ==> Dedupe(front)[i].key in Keys(Dedupe(front));
      }
    }
  }

  lemma {:induction false} DistinctIsFixed(rs: seq<Record>)
    requires DistinctKeys(rs)
    ensures Dedupe(rs) == rs
  {
    if rs != [] {
      var front := rs[..|rs| - 1];
      DistinctIsFixed(front);
      assert forall i :: 0 <= i < |front| ==> front[i] == rs[i] && rs[i].key != Last(rs).key;
      assert rs == front + [Last(rs)];
    }
  }

  /** The evidence heads of a candidate's scores; the optional ones may never have been set. */
  datatype Scores = Scores(
    frontier: real, repair: real, continuation: real, finalConfidence: real, resolution: real,
    cleanliness: Option<real>, evaluator: real, passRate: Option<real>, finalVerification: real)

  function OrElse(first: Option<real>, second: Option<real>, last: real): real {
    if first.Some? then first.value else if second.Some? then second.value else last
  }

  function Scored(before: Scores, s: State, r: Record): Scores {
    var m := s.summary;
    Scores(Bounded(m.searchScore), Bounded(m.repairValue), Bounded(m.continuationValue), Bounded(m.finalScore),
           Bounded(m.challengeResolution),
           Some(Bounded(OrElse(r.signals.cleanliness, before.cleanliness, 0.0))),
           Bounded(OrElse(r.signals.evaluator, None, r.signals.score)),
           Some(Bounded(OrElse(r.signals.passRate, before.passRate, if r.finalBlocked then 0.0 else 1.0))),
           if s.finalBlocked then 0.0 else Bounded(m.finalScore))
  }

  /** The heads that are read off the state. */
  predicate HeadsAgree(m: Scores, s: State) {
    && m.frontier == Bounded(s.summary.searchScore) && m.repair == Bounded(s.summary.repairValue)
    && m.continuation == Bounded(s.summary.continuationValue) && m.finalConfidence == Bounded(s.summary.finalScore)
    && m.resolution == Bounded(s.summary.challengeResolution)
    && m.finalVerification == if s.finalBlocked then 0.0 else Bounded(s.summary.finalScore)
  }

  predicate InRange(x: Option<real>) {
    x.Some? && 0.0 <= x.value <= 1.0
  }

  /** What a candidate scores once some record has been applied to it. */
  predicate Settled(m: Scores, s: State) {
    HeadsAgree(m, s) && InRange(m.cleanliness) && InRange(m.passRate)
  }

  /** The record gives the three heads it sets the values they have. */
  predicate Repeats(m: Scores, r: Record) {
    && (r.signals.cleanliness.Some? ==> m.cleanliness == Some(Bounded(r.signals.cleanliness.value)))
    && (r.signals.passRate.Some? ==> m.passRate == Some(Bounded(r.signals.passRate.value)))
    && m.evaluator == Bounded(OrElse(r.signals.evaluator, None, r.signals.score))
  }

  /** With the state as it is, a record leaves the scores alone exactly when it repeats the heads it sets. */
  lemma ScoresStandIff(m: Scores, s: State, r: Record)
    requires Settled(m, s)
    ensures Scored(m, s, r) == m <==> Repeats(m, r)
  {
  }

  /** The three heads a record sets: its own signals, else what was there, else a stock value. */
  lemma HeadsOfRecord(before: Scores, s: State, r: Record)
    ensures var m := Scored(before, s, r);
            && (r.signals.passRate.Some? ==> m.passRate == Some(Bounded(r.signals.passRate.value)))
            && (r.signals.passRate.None? && InRange(before.passRate) ==> m.passRate == before.passRate)
            && (r.signals.passRate.None? && before.passRate.None? ==>
                  m.passRate == Some(if r.finalBlocked then 0.0 else 1.0))
            && (r.signals.cleanliness.Some? ==> m.cleanliness == Some(Bounded(r.signals.cleanliness.value)))
            && (r.signals.cleanliness.None? && InRange(before.cleanliness) ==> m.cleanliness == before.cleanliness)
            && (r.signals.cleanliness.None? && before.cleanliness.None? ==> m.cleanliness == Some(0.0))
            && m.evaluator == Bounded(if r.signals.evaluator.Some? then r.signals.evaluator.value else r.signals.score)
  {
  }

  lemma ScoredIsSettled(before: Scores, s: State, r: Record)
    ensures Settled(Scored(before, s, r), s)
  {
  }

  /** State and scores are those of distinct stored records. */
  ghost predicate Kept(rs: seq<Record>, s: State, m: Scores) {
    DistinctKeys(rs) && Describes(rs, s) && (rs != [] ==> Settled(m, s))
  }

  lemma KnownRecordChangesScoresOnly(
    before: seq<Record>, was: State, m: Scores, r: Record, after: seq<Record>, s: State)
    requires after == Dedupe(before + [r]) && Describes(after, s)
    ensures Kept(before, was, m) && r.key in Keys(before) ==>
              after == before && s == was && (Scored(m, s, r) == m <==> Repeats(m, r))
  {
    if Kept(before, was, m) && r.key in Keys(before) {
      RecordIsStoredIff(before, r);
      DescriptionIsUnique(before, was, s);
      ScoresStandIff(m, s, r);
    }
  }

  ghost predicate KeptWith(rs: seq<Record>, s: State, failure: bool, m: Scores) {
    Kept(rs, s, m) && failure == s.terminalReject
  }

  /** What applying a record makes of what is stored. */
  ghost predicate AppliedTo(before: seq<Record>, was: State, failed: bool, m: Scores, r: Record,
                            after: seq<Record>, s: State, failure: bool, m': Scores) {
    && KeptWith(after, s, failure, m') && after == Dedupe(before + [r]) && after != [] && m' == Scored(m, s, r)
    && (KeptWith(before, was, failed, m) && r.key in Keys(before) ==>
          after == before && s == was && failure == failed && (m' == m <==> Repeats(m, r)))
  }

  lemma Application(before: seq<Record>, was: State, failed: bool, m: Scores, r: Record,
                    after: seq<Record>, s: State)
    requires after == Dedupe(before + [r]) && Describes(after, s)
    ensures AppliedTo(before, was, failed, m, r, after, s, s.terminalReject, Scored(m, s, r))
  {
    DedupeIsDistinct(before + [r]);
    assert r in before + [r] && r.key in Keys(after);
    ScoredIsSettled(m, s, r);
    KnownRecordChangesScoresOnly(before, was, m, r, after, s);
  }

  class Candidate {
    var records: seq<Record>
    var state: State
    var terminalFailure: bool
    var scores: Scores

    constructor ()
      ensures Valid() && records == []
    {
      records, state := [], NO_STATE;
      terminalFailure, scores := false, Scores(0.0, 0.0, 0.0, 0.0, 0.0, None, 0.0, None, 0.0);
    }

    /** State, flag and scores are those of the stored records. */
    ghost predicate Valid()
      reads this
    {
      KeptWith(records, state, terminalFailure, scores)
    }

    /**
     Appends the record unless its key is there, and derives state and flag from
     the stored list.  Three of the scores come from the record that is applied,
     stored or not; a known record changes those and nothing else.
     */
    method ApplyEvidenceRecord(record: Record)
      modifies this
      ensures AppliedTo(old(records), old(state), old(terminalFailure), old(scores), record,
                        records, state, terminalFailure, scores)
    {
      var stored := DedupeRecords(records + [record]);
      var s := AggregateEvidenceState(stored);
      Application(records, state, terminalFailure, scores, record, stored, s);
      records, state, terminalFailure, scores := stored, s, s.terminalReject, Scored(scores, s, record);
    }
  }

  // ---------------------------------------------------------------------------
  // The scores
  // ---------------------------------------------------------------------------

  /** The largest bounded value: attained, unless there are no records, and never exceeded. */
  lemma {:induction false} HighestIsMax(rs: seq<Record>, f: Record -> real)
    ensures 0.0 <= Highest(rs, f) <= 1.0
    ensures forall r :: r in rs ==> Bounded(f(r)) <= Highest(rs, f)
    ensures rs != [] ==> exists r :: r in rs && Bounded(f(r)) == Highest(rs, f)
  {
    if rs != [] {
      var front, last := rs[..|rs| - 1], Last(rs);
      HighestIsMax(front, f);
      forall r | r in rs ensures Bounded(f(r)) <= Highest(rs, f) {
        if r !in front { assert r == last; }
      }
      assert last in rs && forall r :: r in front ==> r in rs;
    }
  }

  lemma {:induction false} ClearancesAre(rs: seq<Record>, n: nat)
    requires n <= |rs|
    ensures forall r :: r in Clearances(rs, n) <==>
              exists i :: 0 <= i < n && Same(rs, i) && Clearing(rs[i]) && rs[i] == r
    decreases n
  {
    if n > 0 {
      ClearancesAre(rs, n - 1);
    }
  }

  /** A final score is earned only from an authority that cleared this very artifact. */
  lemma FinalScoreIsCleared(rs: seq<Record>)
    ensures SummaryOf(rs).finalScore > 0.0 ==> SomeSame(rs, Clearing)
    ensures forall i :: 0 <= i < |rs| && Same(rs, i) && Clearing(rs[i]) ==>
              Bounded(CertainScoreOf(rs[i])) <= SummaryOf(rs).finalScore
  {
    var finals := Clearances(rs, |rs|);
    ClearancesAre(rs, |rs|);
    HighestIsMax(finals, CertainScoreOf);
    if finals != [] {
      assert finals[0] in finals;
      var i :| 0 <= i < |rs| && Same(rs, i) && Clearing(rs[i]) && rs[i] == finals[0];
    }
    forall i | 0 <= i < |rs| && Same(rs, i) && Clearing(rs[i])
      ensures Bounded(CertainScoreOf(rs[i])) <= Highest(finals, CertainScoreOf)
    {
      assert rs[i] in finals;
    }
  }

  /** A candidate scores as finally verified only if nothing blocks it and an authority cleared its artifact. */
  lemma VerifiedOnlyByAuthority(rs: seq<Record>, s: State, before: Scores, r: Record)
    requires rs != [] && s.finalBlocked == FinalBlocked(rs) && s.summary == SummaryOf(rs)
    ensures Scored(before, s, r).finalVerification > 0.0 ==>
              !SomeSame(rs, Blocking) && SomeSame(rs, Clearing) && SummaryOf(rs).finalScore > 0.0
  {
    FinalScoreIsCleared(rs);
  }

  lemma {:induction false} GatheredAreNamed(rs: seq<Record>, f: Record -> seq<string>)
    ensures Distinct(Gathered(rs, f))
    ensures forall x :: x in Gathered(rs, f) <==> x != "" && exists r :: r in rs && x in f(r)
  {
    if rs != [] {
      var front, last := rs[..|rs| - 1], Last(rs);
      GatheredAreNamed(front, f);
      NamedAre(f(last));
      FirstOccurrencesList(Gathered(front, f) + Named(f(last)));
      assert forall r :: r in rs <==> r in front || r == last;
    }
  }

  lemma {:induction false} NamedAre(xs: seq<string>)
    ensures forall x :: x in Named(xs) <==> x != "" && x in xs
  {
    if xs != [] {
      NamedAre(xs[..|xs| - 1]);
      assert forall x :: x in xs <==> x in xs[..|xs| - 1] || x == xs[|xs| - 1];
    }
  }

  /**
   With targets, the resolution is complete exactly when every target is resolved, and nothing exactly
   when none is.
   */
  lemma ResolutionIff(targets: seq<string>, resolved: seq<string>, emitted: seq<string>)
    requires targets != []
    ensures Resolution(targets, resolved, emitted) == 1.0 <==> forall x :: x in targets ==> x in resolved
    ensures Resolution(targets, resolved, emitted) == 0.0 <==> forall x :: x in targets ==> x !in resolved
    ensures Resolution(targets, resolved, emitted) * |Members(targets)| as real
            == |Members(resolved) * Members(targets)| as real
  {
    var t, both := Members(targets), Members(resolved) * Members(targets);
    assert targets[0] in t;
    SubsetIsNoLarger(both, t);
    ShareOf(|both|, |t|);
    assert |both| == |t| <==> forall x :: x in targets ==> x in resolved by {
      if |both| == |t| {
        SameSize(both, t);
        assert forall x :: x in targets ==> x in both;
      }
      if forall x :: x in targets ==> x in resolved {
        assert both == t;
      }
    }
    assert |both| == 0 <==> forall x :: x in targets ==> x !in resolved by {
      if forall x :: x in targets ==> x !in resolved {
        assert both == {};
      } else {
        var x :| x in targets && x in resolved;
        assert x in both;
      }
    }
  }

  /**
   Without targets it is what is resolved per emitted challenge, at most one;
   with none emitted, any resolved one counts.
   */
  lemma ResolutionWithoutTargets(resolved: seq<string>, emitted: seq<string>)
    ensures emitted != [] && |resolved| <= |emitted| ==>
              Resolution([], resolved, emitted) * |emitted| as real == |resolved| as real
    ensures |resolved| >= |emitted| && resolved != [] ==> Resolution([], resolved, emitted) == 1.0
    ensures resolved == [] ==> Resolution([], resolved, emitted) == 0.0
  {
    var whole := Max(1, |emitted|);
    if |resolved| <= whole {
      ShareOf(|resolved|, whole);
    } else {
      assert |resolved| as real / whole as real >= 1.0;
    }
  }

  lemma SameSize(a: set<string>, b: set<string>)
    requires a <= b && |a| == |b|
    ensures a == b
  {
    assert b == a + (b - a);
  }

  lemma ShareOf(part: nat, whole: nat)
    requires part <= whole && whole > 0
    ensures 0.0 <= part as real / whole as real <= 1.0
    ensures part as real / whole as real == 1.0 <==> part == whole
    ensures part as real / whole as real == 0.0 <==> part == 0
  {
  }

  /** Applying a record again leaves the stored list as it is. */
  lemma ReapplyingKeepsRecords(rs: seq<Record>, r: Record)
    ensures Dedupe(Dedupe(rs + [r]) + [r]) == Dedupe(rs + [r])
  {
    var once := Dedupe(rs + [r]);
    assert r in rs + [r] && r.key in Keys(once);
    DedupeIsDistinct(rs + [r]);
    RecordIsStoredIff(once, r);
  }

  /** A record is stored, last, exactly when its key is new; its verdict plays no part. */
  lemma RecordIsStoredIff(rs: seq<Record>, r: Record)
    requires DistinctKeys(rs)
    ensures r.key !in Keys(rs) ==> Dedupe(rs + [r]) == rs + [r]
    ensures r.key in Keys(rs) ==> Dedupe(rs + [r]) == rs
  {
    DistinctIsFixed(rs);
    assert (rs + [r])[..|rs|] == rs;
  }

  const NO_SIGNALS := Signals(0.0, 0.0, 0.0, 0.0, [], [], [], None, None, None)
  const FIRST := Record(
    Key("c", "s", "probe", "1", []), "probe", "", false, false, false, false, NO_SIGNALS.(evaluator := Some(0.1)))
  const SECOND := Record(
    Key("c", "s", "probe", "2", []), "probe", "", false, false, false, false, NO_SIGNALS.(evaluator := Some(0.9)))

  /** Applying a stored record after a newer one leaves the list alone and takes back the evaluator score. */
  lemma OldRecordRewritesScores(before: Scores, s: State)
    ensures Dedupe([FIRST, SECOND]) == [FIRST, SECOND] && Dedupe([FIRST, SECOND] + [FIRST]) == [FIRST, SECOND]
    ensures Scored(before, s, SECOND).evaluator == 0.9
    ensures Scored(Scored(before, s, SECOND), s, FIRST).evaluator == 0.1
  {
    assert FIRST in [FIRST, SECOND] && FIRST.key in Keys([FIRST, SECOND]);
    DistinctIsFixed([FIRST, SECOND]);
    RecordIsStoredIff([FIRST, SECOND], FIRST);
  }
}
