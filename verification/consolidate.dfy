/** Consolidation: applying a store's pending changes by rebuilding its FST
    (`consolidate_item`), and the periodic pass over the register that picks
    the stores to rebuild (`consolidate`). */
module Consolidate {
  import opened Words
  import opened Wrappers
  import opened Limits
  import opened Merge
  import opened MergeFacts
  import opened Store
  import opened Pool

  /** What the file system and the FST library give one rebuild: the prior
      FST's words as read back from disk (`None` when opening it, creating
      the temporary directory or file, or starting the builder failed), the
      builder's byte count, and whether `finish()` succeeded. */
  datatype ItemEnv = ItemEnv(prior: Option<seq<Word>>, bytes: ByteCounter, finished: bool)

  /** `(should_close, count_moved, count_pushed, count_popped)`, together
      with the keys of the finished FST. */
  datatype ItemReport = ItemReport(shouldClose: bool, moved: nat, pushed: nat, popped: nat, built: Option<seq<Word>>)

  const Untouched := ItemReport(false, 0, 0, 0, None)

  /** `consolidate_item`. With no pending change nothing happens. Otherwise
      the FST is rebuilt from the prior words and the pending sets, and both
      pending sets are emptied whether or not the rebuild got anywhere; the
      store is to be closed (so it is re-opened from the new file) exactly
      when the builder finished. */
  function ConsolidateItem(cfg: Config, st: Fst, env: ItemEnv): (r: (Fst, ItemReport))
    ensures st.pending == NoPending ==> r == (st, Untouched)
    ensures st.pending != NoPending ==> r.0 == st.(pending := NoPending)
    ensures r.1.shouldClose <==> st.pending != NoPending && env.prior.Some? && env.finished
    ensures r.1.built.Some? <==> r.1.shouldClose
    ensures r.1.built.Some? ==>
      && StrictlyIncreasing(r.1.built.value)
      && Elems(r.1.built.value) <= (Elems(env.prior.value) - st.pending.pop) + st.pending.push
      && |r.1.built.value| == r.1.moved + r.1.pushed <= cfg.maxWords
    ensures env.prior.None? ==> r.1 == Untouched
    ensures r.1.moved + r.1.pushed <= cfg.maxWords
    ensures env.prior.Some? ==> r.1.popped <= |env.prior.value|
  {
    if st.pending == NoPending then (st, Untouched)
    else
      var cleared := st.(pending := NoPending);
      match env.prior
      case None => (cleared, Untouched)
      case Some(prior) =>
        var p := Rebuild(cfg, env.bytes, prior, st.pending.push, st.pending.pop);
        (cleared, ItemReport(env.finished, p.state.moved, p.state.pushed, p.state.popped,
                             if env.finished then Some(p.state.keys) else None))
  }

  /** When the prior file holds the store's committed words, the byte count
      stays under the limit and the pending result fits in `max_words`, the
      finished FST is exactly the words the store was to hold, in order: every
      committed word not popped is moved, every pending push is inserted and
      every pending pop is counted. */
  lemma ConsolidateExact(cfg: Config, st: Fst, env: ItemEnv)
    requires WellFormed(st) && st.pending != NoPending
    requires env.prior == Some(st.graph) && env.finished
    requires BytesUnder(cfg, env.bytes) && |View(st)| <= cfg.maxWords
    ensures var r := ConsolidateItem(cfg, st, env).1;
      && r.built == Some(SortedSeq(View(st)))
      && r.moved == |Elems(st.graph) - st.pending.pop|
      && r.pushed == |st.pending.push|
      && r.popped == |st.pending.pop|
  {
    var p := Rebuild(cfg, env.bytes, st.graph, st.pending.push, st.pending.pop);
    assert ConsolidateItem(cfg, st, env).1
        == ItemReport(true, p.state.moved, p.state.pushed, p.state.popped, Some(p.state.keys));
    MergeFits(cfg, env.bytes, st.graph, st.pending.push, st.pending.pop);
    MergeExact(cfg, env.bytes, st.graph, st.pending.push, st.pending.pop);
    assert Elems(st.graph) * st.pending.pop == st.pending.pop;
  }

  /** The stores the pass rebuilds: registered, open, and either forced or
      left unconsolidated for at least `consolidate_after` seconds. */
  function Due(cfg: Config, p: Pool, now: int, force: bool): (due: set<Key>)
    ensures forall k :: k in due <==>
      k in p.register && k in p.stores && (force || now - p.stores[k].lastConsolidated >= cfg.consolidateAfter)
  {
    set k | k in p.register && k in p.stores
              && (force || now - p.stores[k].lastConsolidated >= cfg.consolidateAfter)
  }

  /** `consolidate`: take the due keys out of the register, rebuild each
      due store, and drop from the pool every store whose rebuild finished.
      `envs` gives each store's file-system and builder outcomes. */
  function ConsolidatePool(cfg: Config, p: Pool, now: int, force: bool, envs: Key -> ItemEnv): (r: Pool)
    ensures var due := Due(cfg, p, now, force);
      && r.register == p.register - due
      && SameOutside(p, r, due)
      && (forall k :: k in due ==>
            (k in r.stores <==> !ConsolidateItem(cfg, p.stores[k], envs(k)).1.shouldClose))
      && (forall k :: k in due && k in r.stores ==> r.stores[k] == p.stores[k].(pending := NoPending))
  {
    var due := Due(cfg, p, now, force);
    if |p.register| == 0 || due == {} then p
    else
      var rebuilt := map k | k in p.stores ::
        if k in due then ConsolidateItem(cfg, p.stores[k], envs(k)).0 else p.stores[k];
      var closed := set k | k in due && ConsolidateItem(cfg, p.stores[k], envs(k)).1.shouldClose;
      Pool(rebuilt - closed, p.register - due)
  }

  /** The pass keeps the pool invariant: a store leaves the register only
      together with its pending changes. */
  lemma ConsolidatePoolKeeps(cfg: Config, p: Pool, now: int, force: bool, envs: Key -> ItemEnv)
    requires PoolInv(cfg, p)
    ensures PoolInv(cfg, ConsolidatePool(cfg, p, now, force, envs))
  {
    var due := Due(cfg, p, now, force);
    var r := ConsolidatePool(cfg, p, now, force, envs);
    forall k | k in r.stores
      ensures r.stores[k].target == k && WellFormed(r.stores[k]) && PushBounded(cfg, r.stores[k])
      ensures Scheduled(r.stores[k], r.register)
    {
      if k in due {
        assert r.stores[k] == p.stores[k].(pending := NoPending);
      } else {
        assert r.stores[k] == p.stores[k];
      }
    }
  }

  /** A forced pass leaves no open store with pending changes. */
  lemma ForcedPassClears(cfg: Config, p: Pool, now: int, envs: Key -> ItemEnv)
    requires PoolInv(cfg, p)
    ensures var r := ConsolidatePool(cfg, p, now, true, envs);
      forall k :: k in r.stores ==> r.stores[k].pending == NoPending
  {
    var due := Due(cfg, p, now, true);
    var r := ConsolidatePool(cfg, p, now, true, envs);
    forall k | k in r.stores
      ensures r.stores[k].pending == NoPending
    {
      if k !in due {
        assert k in p.stores && r.stores[k] == p.stores[k];
        assert k !in p.register;
      }
    }
  }
}
