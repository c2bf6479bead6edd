/** One open word graph (`StoreFST`) and the two word actions on it.

    A store holds the committed FST and two pending sets: words to add and
    words to remove at the next consolidation. The consolidation register
    (`GRAPH_CONSOLIDATE`) lists the stores that have pending changes; a word
    action that changes a pending set schedules its store there, and stamps
    the store's `last_consolidated` time when it was not scheduled yet. */
module Store {
  import opened Words
  import opened Limits

  /** `StoreFSTAtom`: a 32-bit hash of a collection or bucket name. */
  type Atom = x: int | 0 <= x < 0x1_0000_0000

  /** `StoreFSTKey`: which graph, by collection and bucket hash. */
  datatype Key = Key(collection: Atom, bucket: Atom)

  /** `StoreFSTPending`: words to add and words to remove. */
  datatype Pending = Pending(push: set<Word>, pop: set<Word>)

  const NoPending := Pending({}, {})

  /** `StoreFST`. The committed FST is its key sequence, `graphBytes` is the
      FST's `size()` (an opaque byte count), and `lastConsolidated` is a time
      in seconds. */
  datatype Fst = Fst(target: Key, graph: seq<Word>, graphBytes: nat, pending: Pending, lastConsolidated: int)

  /** What the bookkeeping keeps true of a store: the FST is sorted, a word is
      never pending both ways, a pending push is never already committed and
      a pending pop always is. */
  predicate WellFormed(st: Fst) {
    && StrictlyIncreasing(st.graph)
    && st.pending.push !! st.pending.pop
    && st.pending.push !! Elems(st.graph)
    && st.pending.pop <= Elems(st.graph)
  }

  /** Pending pushes stay within `max_words`. */
  predicate PushBounded(cfg: Config, st: Fst) {
    |st.pending.push| <= cfg.maxWords
  }

  /** A store with pending changes is in the consolidation register. */
  predicate Scheduled(st: Fst, register: set<Key>) {
    st.pending != NoPending ==> st.target in register
  }

  /** The words the store will hold once its pending changes are applied. */
  function View(st: Fst): set<Word> {
    (Elems(st.graph) - st.pending.pop) + st.pending.push
  }

  /** A store, the register, and whether the word action reported success. */
  datatype Outcome = Outcome(store: Fst, register: set<Key>, done: bool)

  /** `should_consolidate`: schedule the store, stamping its time only when
      it was not already scheduled (so the consolidation is debounced to a
      fixed time after the first change). */
  function ShouldConsolidate(st: Fst, register: set<Key>, now: int): (r: Outcome)
    ensures r.store.target in r.register && r.register == register + {st.target}
    ensures r.store.lastConsolidated == if st.target in register then st.lastConsolidated else now
    ensures r.store == st.(lastConsolidated := r.store.lastConsolidated)
    ensures r.done
  {
    if st.target in register then Outcome(st, register, true)
    else Outcome(st.(lastConsolidated := now), register + {st.target}, true)
  }

  /** The guard under which `push_word` adds the word to the pending pushes:
      not committed, not already pending, room for one more pending push, and
      the committed FST not over its limits. */
  predicate PushAccepted(cfg: Config, st: Fst, w: Word) {
    && w !in Elems(st.graph)
    && w !in st.pending.push
    && |st.pending.push| < cfg.maxWords
    && !OverLimits(cfg, st.graphBytes, |st.graph|)
  }

  /** `push_word`. An over-long word changes nothing. Otherwise the word is
      first dropped from the pending pops (cancelling an earlier pop), then
      added to the pending pushes when the guard holds. */
  function PushWord(cfg: Config, st: Fst, register: set<Key>, now: int, w: Word): (r: Outcome)
    ensures WordOverLimit(w) ==> r == Outcome(st, register, false)
    ensures r.done <==> !WordOverLimit(w) && PushAccepted(cfg, st, w)
    ensures !WordOverLimit(w) ==> r.store.pending.pop == st.pending.pop - {w}
    ensures r.store.pending.push == if r.done then st.pending.push + {w} else st.pending.push
    ensures r.register == if r.done then register + {st.target} else register
    ensures r.store.target == st.target && r.store.graph == st.graph && r.store.graphBytes == st.graphBytes
    ensures r.store.lastConsolidated == if r.done && st.target !in register then now else st.lastConsolidated
  {
    if WordOverLimit(w) then Outcome(st, register, false)
    else
      var unpopped := st.(pending := st.pending.(pop := st.pending.pop - {w}));
      if PushAccepted(cfg, st, w) then
        ShouldConsolidate(unpopped.(pending := unpopped.pending.(push := st.pending.push + {w})), register, now)
      else Outcome(unpopped, register, false)
  }

  /** `pop_word`. An over-long word changes nothing. Otherwise the word is
      first dropped from the pending pushes (cancelling an earlier push),
      then added to the pending pops when it is committed and not already
      pending a pop. */
  function PopWord(st: Fst, register: set<Key>, now: int, w: Word): (r: Outcome)
    ensures WordOverLimit(w) ==> r == Outcome(st, register, false)
    ensures r.done <==> !WordOverLimit(w) && w in Elems(st.graph) && w !in st.pending.pop
    ensures !WordOverLimit(w) ==> r.store.pending.push == st.pending.push - {w}
    ensures r.store.pending.pop == if r.done then st.pending.pop + {w} else st.pending.pop
    ensures r.register == if r.done then register + {st.target} else register
    ensures r.store.target == st.target && r.store.graph == st.graph && r.store.graphBytes == st.graphBytes
    ensures r.store.lastConsolidated == if r.done && st.target !in register then now else st.lastConsolidated
  {
    if WordOverLimit(w) then Outcome(st, register, false)
    else
      var unpushed := st.(pending := st.pending.(push := st.pending.push - {w}));
      if w in Elems(st.graph) && w !in st.pending.pop then
        ShouldConsolidate(unpushed.(pending := unpushed.pending.(pop := st.pending.pop + {w})), register, now)
      else Outcome(unpushed, register, false)
  }

  /** Both word actions keep the bookkeeping invariants. */
  lemma PushWordKeeps(cfg: Config, st: Fst, register: set<Key>, now: int, w: Word)
    requires WellFormed(st) && PushBounded(cfg, st) && Scheduled(st, register)
    ensures var r := PushWord(cfg, st, register, now, w);
      WellFormed(r.store) && PushBounded(cfg, r.store) && Scheduled(r.store, r.register)
  {
    var r := PushWord(cfg, st, register, now, w);
    if !WordOverLimit(w) && !r.done && r.store.pending != NoPending {
      assert st.pending != NoPending;
    }
  }

  lemma PopWordKeeps(cfg: Config, st: Fst, register: set<Key>, now: int, w: Word)
    requires WellFormed(st) && PushBounded(cfg, st) && Scheduled(st, register)
    ensures var r := PopWord(st, register, now, w);
      WellFormed(r.store) && PushBounded(cfg, r.store) && Scheduled(r.store, r.register)
  {
    var r := PopWord(st, register, now, w);
    if !WordOverLimit(w) && !r.done && r.store.pending != NoPending {
      assert st.pending != NoPending;
    }
    assert |r.store.pending.push| <= |st.pending.push|;
  }

  /** What a push does to the words the store will hold: a committed word
      pending a pop comes back, an accepted word is added, and anything else
      (a word already there, or one refused by the limits) leaves the view as
      it was. */
  lemma PushWordView(cfg: Config, st: Fst, register: set<Key>, now: int, w: Word)
    requires WellFormed(st)
    ensures var r := PushWord(cfg, st, register, now, w);
      && (!WordOverLimit(w) && (r.done || w in st.pending.pop) ==> View(r.store) == View(st) + {w})
      && (WordOverLimit(w) || !(r.done || w in st.pending.pop) ==> View(r.store) == View(st))
      && (w in View(st) ==> !r.done)
  {
  }

  /** A pop removes the word from the words the store will hold, whichever
      set it was in. */
  lemma PopWordView(st: Fst, register: set<Key>, now: int, w: Word)
    requires WellFormed(st)
    ensures var r := PopWord(st, register, now, w);
      && (!WordOverLimit(w) ==> View(r.store) == View(st) - {w})
      && (WordOverLimit(w) ==> View(r.store) == View(st))
  {
  }

  /** An accepted push followed by a pop of the same word restores the
      pending sets: the pop cancels the push, and the word is not committed
      so it is not queued for removal. */
  lemma PushThenPop(cfg: Config, st: Fst, register: set<Key>, now: int, later: int, w: Word)
    requires WellFormed(st)
    ensures var r := PushWord(cfg, st, register, now, w);
      r.done ==> PopWord(r.store, r.register, later, w).store.pending == st.pending
  {
    var r := PushWord(cfg, st, register, now, w);
    if r.done {
      var q := PopWord(r.store, r.register, later, w);
      assert w !in st.pending.pop;
      assert q.store.pending.push == st.pending.push;
      assert q.store.pending.pop == st.pending.pop;
    }
  }

  /** An accepted pop followed by a push of the same word restores the
      pending sets: the push cancels the pop, and the word is committed so it
      is not queued for addition. */
  lemma PopThenPush(cfg: Config, st: Fst, register: set<Key>, now: int, later: int, w: Word)
    requires WellFormed(st)
    ensures var r := PopWord(st, register, now, w);
      r.done ==> PushWord(cfg, r.store, r.register, later, w).store.pending == st.pending
  {
    var r := PopWord(st, register, now, w);
    if r.done {
      var q := PushWord(cfg, r.store, r.register, later, w);
      assert w !in st.pending.push;
      assert q.store.pending.push == st.pending.push;
      assert q.store.pending.pop == st.pending.pop;
    }
  }

  /** A word action with the time it happens at. */
  datatype Op = Push(word: Word, at: int) | Pop(word: Word, at: int)

  function Apply(cfg: Config, st: Fst, register: set<Key>, op: Op): (r: Outcome)
    ensures r.store.target == st.target && r.store.graph == st.graph
    ensures register <= r.register <= register + {st.target}
  {
    match op
    case Push(w, at) => PushWord(cfg, st, register, at, w)
    case Pop(w, at) => PopWord(st, register, at, w)
  }

  /** A sequence of word actions on one store. */
  function Run(cfg: Config, st: Fst, register: set<Key>, ops: seq<Op>): (r: Outcome)
    ensures r.store.target == st.target && r.store.graph == st.graph
    ensures register <= r.register <= register + {st.target}
    decreases |ops|
  {
    if |ops| == 0 then Outcome(st, register, false)
    else
      var o := Apply(cfg, st, register, ops[0]);
      Run(cfg, o.store, o.register, ops[1..])
  }

  /** Any sequence of word actions keeps the bookkeeping invariants. */
  lemma {:induction false} RunKeeps(cfg: Config, st: Fst, register: set<Key>, ops: seq<Op>)
    requires WellFormed(st) && PushBounded(cfg, st) && Scheduled(st, register)
    ensures var r := Run(cfg, st, register, ops);
      WellFormed(r.store) && PushBounded(cfg, r.store) && Scheduled(r.store, r.register)
    decreases |ops|
  {
    if |ops| > 0 {
      match ops[0] {
        case Push(w, at) => PushWordKeeps(cfg, st, register, at, w);
        case Pop(w, at) => PopWordKeeps(cfg, st, register, at, w);
      }
      var o := Apply(cfg, st, register, ops[0]);
      RunKeeps(cfg, o.store, o.register, ops[1..]);
    }
  }
}
