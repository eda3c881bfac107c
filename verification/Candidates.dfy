/**
 The parts of a candidate genome the archives read.  A candidate is a value:
 what an archive stores is a snapshot of it.
 */
module Candidates {
  import opened Wrappers

  type Id = string

  datatype Fate = Active | Elite | Incubating | Dormant | Auxiliary | Culled | Failed

  predicate TerminalFailure(f: Fate) {
    f == Culled || f == Failed
  }

  /** What the latent lane reads: the frontier flag, the round, the intents and the scores behind the sort key. */
  datatype Latent = Latent(
    frontier: bool, round: Option<int>, generation: int,
    intents: seq<string>, intentScores: map<string, real>, fallbackScore: real,
    reproduction: real, quality: real)

  /** What routing reads.  `negativeOnly` and `sourceBlocked` are the source-binding verdicts. */
  datatype Traits = Traits(
    negativeOnly: bool, sourceBlocked: bool, isPatch: bool, novel: bool, rare: bool,
    seeds: seq<string>, niches: seq<string>, mechanism: string,
    finalQuality: real, searchQuality: real)

  /** What constraint records and gene summaries read; `claim` is the core mechanism or the concise claim. */
  datatype Lessons = Lessons(
    lessons: seq<string>, target: string, summary: string, structurallyBlocked: bool, hasDelta: bool, claim: string)

  datatype Candidate = Candidate(id: Id, fate: Fate, latent: Latent, traits: Traits, failures: Lessons)
}
