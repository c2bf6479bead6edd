/** The store's configured limits and the small rules derived from them. */
module Limits {
  import opened Wrappers

  /** The FST part of the server configuration: `max_words` (most words a
      graph may hold), `max_size` (most bytes a graph may take, in KiB) and
      `consolidate_after` (seconds a change may wait before consolidation). */
  datatype Config = Config(maxWords: nat, maxSizeKiB: nat, consolidateAfter: nat)

  /** Bytes a graph may take before it counts as full. */
  function MaxBytes(cfg: Config): nat {
    cfg.maxSizeKiB * 1024
  }

  /** `check_over_limits`: a graph of `bytesCount` bytes holding `wordsCount`
      words is full. */
  predicate OverLimits(cfg: Config, bytesCount: nat, wordsCount: nat) {
    bytesCount >= MaxBytes(cfg) || wordsCount >= cfg.maxWords
  }

  /** A full graph stays full as it grows in bytes or in words, and a graph
      exactly at either limit is already full. */
  lemma OverLimitsMonotonic(cfg: Config, bytes: nat, words: nat, bytes2: nat, words2: nat)
    requires bytes <= bytes2 && words <= words2
    ensures OverLimits(cfg, bytes, words) ==> OverLimits(cfg, bytes2, words2)
    ensures OverLimits(cfg, MaxBytes(cfg), words) && OverLimits(cfg, bytes, cfg.maxWords)
  {
  }

  function Min(a: nat, b: nat): nat {
    if a <= b then a else b
  }

  /** Reference rule for the typo budget: one more typo for every three
      bytes beyond the first three, at most three; the empty word falls into
      the catch-all arm and gets three. */
  function TypoBudget(len: nat): nat {
    if len == 0 then 3 else Min((len - 1) / 3, 3)
  }

  /** The number of typos a fuzzy lookup tolerates for a word of `len` bytes,
      capped by `maxFactor` when one is given (`lookup_typos`). */
  function TypoFactor(len: nat, maxFactor: Option<nat>): (f: nat)
    ensures f <= 3
    ensures maxFactor.Some? ==> f <= maxFactor.value
    ensures maxFactor.None? ==> f == TypoBudget(len)
    ensures maxFactor.Some? ==> f == Min(TypoBudget(len), maxFactor.value)
  {
    var factor :=
      if 1 <= len <= 3 then 0
      else if 4 <= len <= 6 then 1
      else if 7 <= len <= 9 then 2
      else 3;
    match maxFactor
    case Some(cap) => if factor > cap then cap else factor
    case None => factor
  }

  /** Longer words never tolerate fewer typos (for non-empty words; the empty
      word falls into the catch-all arm and gets the largest factor). */
  lemma {:induction false} TypoFactorMonotonic(a: nat, b: nat, maxFactor: Option<nat>)
    requires 1 <= a <= b
    ensures TypoFactor(a, maxFactor) <= TypoFactor(b, maxFactor)
  {
    assert (a - 1) / 3 <= (b - 1) / 3;
    assert TypoBudget(a) <= TypoBudget(b);
  }
}
