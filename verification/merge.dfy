/** The merge at the heart of a consolidation (`consolidate_item`, the part
    that streams the prior FST into a new builder).

    The prior FST's words come in order; the pending pushes are sorted first.
    Before each prior word, every pending push that sorts at or before it is
    drained into the builder; the prior word itself is then copied unless it is
    pending a pop. Whatever pushes remain are appended at the end. Each insert
    is preceded by the limit check on the words inserted so far and on the
    builder's byte count; the first check that trips stops the pass. A failed
    insert (an out-of-order or duplicate key) is skipped. */
module Merge {
  import opened Words
  import opened Wrappers
  import opened Limits
  import FstBuilder

  /** The builder's `bytes_written()`, an opaque function of the keys it holds. */
  type ByteCounter = seq<Word> -> nat

  /** The builder's keys and the three counters the pass reports. */
  datatype MergeState = MergeState(keys: seq<Word>, moved: nat, pushed: nat, popped: nat)

  /** Where a loop of the pass stopped: the pushes it left, the state it
      reached, and whether a limit check tripped. */
  datatype Pass = Pass(rest: seq<Word>, state: MergeState, limited: bool)

  const Empty := MergeState([], 0, 0, 0)

  predicate Tripped(cfg: Config, bytes: ByteCounter, m: MergeState) {
    OverLimits(cfg, bytes(m.keys), m.pushed + m.moved)
  }

  /** Counters agree with the builder: one key per successful insert. */
  predicate Counted(m: MergeState) {
    |m.keys| == m.pushed + m.moved
  }

  function InsertPushed(m: MergeState, w: Word): (r: MergeState)
    ensures Counted(m) ==> Counted(r)
    ensures StrictlyIncreasing(m.keys) ==> StrictlyIncreasing(r.keys)
    ensures r.moved == m.moved && r.popped == m.popped
    ensures Elems(r.keys) <= Elems(m.keys) + {w}
  {
    match FstBuilder.Insert(m.keys, w)
    case Some(keys) => m.(keys := keys, pushed := m.pushed + 1)
    case None => m
  }

  function InsertMoved(m: MergeState, w: Word): (r: MergeState)
    ensures Counted(m) ==> Counted(r)
    ensures StrictlyIncreasing(m.keys) ==> StrictlyIncreasing(r.keys)
    ensures r.pushed == m.pushed && r.popped == m.popped
    ensures Elems(r.keys) <= Elems(m.keys) + {w}
  {
    match FstBuilder.Insert(m.keys, w)
    case Some(keys) => m.(keys := keys, moved := m.moved + 1)
    case None => m
  }

  /** The inner loop: insert every front push that sorts at or before `w`. */
  function DrainUpTo(cfg: Config, bytes: ByteCounter, push: seq<Word>, w: Word, m: MergeState): (r: Pass)
    ensures Counted(m) ==> Counted(r.state)
    ensures StrictlyIncreasing(m.keys) ==> StrictlyIncreasing(r.state.keys)
    ensures m.pushed + m.moved <= cfg.maxWords ==> r.state.pushed + r.state.moved <= cfg.maxWords
    ensures Elems(r.state.keys) <= Elems(m.keys) + Elems(push)
    ensures Elems(r.rest) <= Elems(push)
    ensures r.state.moved == m.moved && r.state.popped == m.popped
    decreases |push|
  {
    if |push| == 0 || !LessEq(push[0], w) then Pass(push, m, false)
    else if Tripped(cfg, bytes, m) then Pass(push[1..], m, true)
    else DrainUpTo(cfg, bytes, push[1..], w, InsertPushed(m, push[0]))
  }

  /** One turn of the main loop: drain the pushes up to the prior word `w`,
      then copy `w` unless it is pending a pop. */
  function Step(cfg: Config, bytes: ByteCounter, w: Word, pop: set<Word>, push: seq<Word>, m: MergeState): (r: Pass)
    ensures Counted(m) ==> Counted(r.state)
    ensures StrictlyIncreasing(m.keys) ==> StrictlyIncreasing(r.state.keys)
    ensures m.pushed + m.moved <= cfg.maxWords ==> r.state.pushed + r.state.moved <= cfg.maxWords
    ensures Elems(r.state.keys) <= Elems(m.keys) + ({w} - pop) + Elems(push)
    ensures Elems(r.rest) <= Elems(push)
    ensures m.popped <= r.state.popped <= m.popped + 1
    ensures !r.limited ==> r.state.popped == m.popped + (if w in pop then 1 else 0)
  {
    var d := DrainUpTo(cfg, bytes, push, w, m);
    if d.limited then d
    else if w in pop then Pass(d.rest, d.state.(popped := d.state.popped + 1), false)
    else if Tripped(cfg, bytes, d.state) then Pass(d.rest, d.state, true)
    else Pass(d.rest, InsertMoved(d.state, w), false)
  }

  /** The main loop over the prior FST's words. */
  function MergeOld(cfg: Config, bytes: ByteCounter, prior: seq<Word>, pop: set<Word>,
                    push: seq<Word>, m: MergeState): (r: Pass)
    ensures Counted(m) ==> Counted(r.state)
    ensures StrictlyIncreasing(m.keys) ==> StrictlyIncreasing(r.state.keys)
    ensures m.pushed + m.moved <= cfg.maxWords ==> r.state.pushed + r.state.moved <= cfg.maxWords
    ensures Elems(r.state.keys) <= Elems(m.keys) + (Elems(prior) - pop) + Elems(push)
    ensures Elems(r.rest) <= Elems(push)
    ensures m.popped <= r.state.popped <= m.popped + |prior|
    decreases |prior|
  {
    if |prior| == 0 then Pass(push, m, false)
    else
      var s := Step(cfg, bytes, prior[0], pop, push, m);
      if s.limited then s
      else MergeOld(cfg, bytes, prior[1..], pop, s.rest, s.state)
  }

  /** The final loop: append the pushes that sort after every prior word. */
  function Complete(cfg: Config, bytes: ByteCounter, push: seq<Word>, m: MergeState): (r: Pass)
    ensures Counted(m) ==> Counted(r.state)
    ensures StrictlyIncreasing(m.keys) ==> StrictlyIncreasing(r.state.keys)
    ensures m.pushed + m.moved <= cfg.maxWords ==> r.state.pushed + r.state.moved <= cfg.maxWords
    ensures Elems(r.state.keys) <= Elems(m.keys) + Elems(push)
    ensures r.state.moved == m.moved && r.state.popped == m.popped
    decreases |push|
  {
    if |push| == 0 then Pass([], m, false)
    else if Tripped(cfg, bytes, m) then Pass(push[1..], m, true)
    else Complete(cfg, bytes, push[1..], InsertPushed(m, push[0]))
  }

  /** The whole pass: what the new FST receives, the counters, and whether a
      limit check stopped it early. */
  function Rebuild(cfg: Config, bytes: ByteCounter, prior: seq<Word>, push: set<Word>, pop: set<Word>): (r: Pass)
    ensures StrictlyIncreasing(r.state.keys)
    ensures Elems(r.state.keys) <= (Elems(prior) - pop) + push
    ensures Counted(r.state)
    ensures |r.state.keys| <= cfg.maxWords
    ensures r.state.popped <= |prior|
  {
    var p := MergeOld(cfg, bytes, prior, pop, SortedSeq(push), Empty);
    var c := Complete(cfg, bytes, p.rest, p.state);
    Pass(c.rest, c.state, p.limited || c.limited)
  }
}
