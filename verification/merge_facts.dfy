/** What the consolidation merge guarantees when it runs to the end.

    The pass only ever inserts in increasing order, so when no limit check
    trips the new FST holds exactly the prior words minus the pending pops,
    plus the pending pushes. When the pending pushes share no word with the
    prior FST (which the store's bookkeeping keeps true) and that set fits in
    the limits, no limit check trips and every insert succeeds. */
module MergeFacts {
  import opened Words
  import opened Limits
  import opened Merge

  /** Every key so far sorts before the next prior word and the next push. */
  ghost predicate Ready(m: MergeState, prior: seq<Word>, push: seq<Word>) {
    && StrictlyIncreasing(m.keys) && StrictlyIncreasing(prior) && StrictlyIncreasing(push)
    && (|prior| > 0 ==> Precedes(m.keys, prior[0]))
    && (|push| > 0 ==> Precedes(m.keys, push[0]))
  }

  /** The builder never reaches the byte limit, whatever it holds. */
  ghost predicate BytesUnder(cfg: Config, bytes: ByteCounter) {
    forall k :: bytes(k) < MaxBytes(cfg)
  }

  /** Moving the first element of `s` from the remainder onto `a`. */
  lemma SliceStep<T>(a: seq<T>, s: seq<T>, k: nat)
    requires 1 <= k <= |s|
    ensures (a + [s[0]]) + s[1..][..k - 1] == a + s[..k]
    ensures s[1..][k - 1..] == s[k..]
  {
    assert s[1..][..k - 1] == s[1..k];
    assert s[..k] == [s[0]] + s[1..k];
  }

  /** Without a tripped limit, the inner loop inserts a prefix of the pushes,
      all of them successfully, and leaves the rest. */
  lemma {:induction false} DrainShape(cfg: Config, bytes: ByteCounter, push: seq<Word>, w: Word, m: MergeState)
    requires StrictlyIncreasing(push)
    requires |push| > 0 ==> Precedes(m.keys, push[0])
    ensures var r := DrainUpTo(cfg, bytes, push, w, m);
      !r.limited ==>
        && |r.rest| <= |push|
        && r.rest == push[|push| - |r.rest|..]
        && r.state.keys == m.keys + push[..|push| - |r.rest|]
        && r.state.pushed == m.pushed + (|push| - |r.rest|)
    decreases |push|
  {
    if |push| == 0 || !LessEq(push[0], w) {
      assert push[..0] == [];
    } else if !Tripped(cfg, bytes, m) {
      var m' := InsertPushed(m, push[0]);
      assert m'.keys == m.keys + [push[0]];
      if |push| > 1 {
        assert Less(push[0], push[1]);
      }
      DrainShape(cfg, bytes, push[1..], w, m');
      var r := DrainUpTo(cfg, bytes, push[1..], w, m');
      if !r.limited {
        var k := |push| - |r.rest|;
        SliceStep(m.keys, push, k);
        assert r.state.keys == m.keys + push[..k];
      }
    }
  }

  /** The inner loop stops at the first push that sorts after `w`. */
  lemma {:induction false} DrainBoundary(cfg: Config, bytes: ByteCounter, push: seq<Word>, w: Word, m: MergeState)
    ensures var r := DrainUpTo(cfg, bytes, push, w, m);
      !r.limited ==>
        && |r.rest| <= |push|
        && (|r.rest| > 0 ==> Less(w, r.rest[0]))
        && (|r.rest| < |push| ==> LessEq(push[|push| - |r.rest| - 1], w))
    decreases |push|
  {
    if |push| == 0 || !LessEq(push[0], w) {
      if |push| > 0 {
        NotLessEq(push[0], w);
      }
    } else if !Tripped(cfg, bytes, m) {
      var next := InsertPushed(m, push[0]);
      DrainBoundary(cfg, bytes, push[1..], w, next);
      var r := DrainUpTo(cfg, bytes, push[1..], w, next);
      assert DrainUpTo(cfg, bytes, push, w, m) == r;
      if !r.limited && |r.rest| < |push| - 1 {
        assert push[1..][|push| - 1 - |r.rest| - 1] == push[|push| - |r.rest| - 1];
      }
    }
  }

  /** With room for every push, the inner loop never trips a limit. */
  lemma {:induction false} DrainRoom(cfg: Config, bytes: ByteCounter, push: seq<Word>, w: Word, m: MergeState)
    requires BytesUnder(cfg, bytes) && m.pushed + m.moved + |push| <= cfg.maxWords
    ensures !DrainUpTo(cfg, bytes, push, w, m).limited
    decreases |push|
  {
    if |push| > 0 && LessEq(push[0], w) {
      assert !Tripped(cfg, bytes, m);
      DrainRoom(cfg, bytes, push[1..], w, InsertPushed(m, push[0]));
    }
  }

  /** What holds of the builder and the remaining pushes once the first `k`
      pushes, those sorting at or before `w`, have been inserted. */
  lemma DrainedOrder(keys: seq<Word>, push: seq<Word>, w: Word, k: nat)
    requires StrictlyIncreasing(keys) && StrictlyIncreasing(push)
    requires |push| > 0 ==> Precedes(keys, push[0])
    requires Precedes(keys, w)
    requires k <= |push|
    requires k < |push| ==> Less(w, push[k])
    requires k > 0 ==> LessEq(push[k - 1], w)
    ensures Elems(keys + push[..k]) + Elems(push[k..]) == Elems(keys) + Elems(push)
    ensures StrictlyIncreasing(keys + push[..k]) && StrictlyIncreasing(push[k..])
    ensures k < |push| ==> Precedes(keys + push[..k], push[k])
    ensures |keys + push[..k]| > 0 ==> LessEq(Last(keys + push[..k]), w)
    ensures w !in Elems(push) ==> Precedes(keys + push[..k], w)
  {
    var drained := keys + push[..k];
    assert push == push[..k] + push[k..];
    assert Elems(push) == Elems(push[..k]) + Elems(push[k..]);
    assert Elems(drained) == Elems(keys) + Elems(push[..k]);
    if k == 0 {
      assert drained == keys;
    } else {
      assert Last(drained) == push[k - 1];
      if k < |push| {
        assert Less(push[k - 1], push[k]);
      }
      if w !in Elems(push) {
        assert push[k - 1] in Elems(push);
      }
      forall i, j | 0 <= i < j < |drained|
        ensures Less(drained[i], drained[j])
      {
        if j >= |keys| && i < |keys| {
          PrecedesEvery(keys, push[0]);
          if j > |keys| {
            LessTransitive(drained[i], push[0], drained[j]);
          }
        }
      }
    }
  }

  lemma {:induction false} CompleteExact(cfg: Config, bytes: ByteCounter, push: seq<Word>, m: MergeState)
    requires StrictlyIncreasing(m.keys) && StrictlyIncreasing(push)
    requires |push| > 0 ==> Precedes(m.keys, push[0])
    ensures var r := Complete(cfg, bytes, push, m);
      !r.limited ==> Elems(r.state.keys) == Elems(m.keys) + Elems(push) && r.state.pushed == m.pushed + |push|
    ensures var r := Complete(cfg, bytes, push, m);
      BytesUnder(cfg, bytes) && m.pushed + m.moved + |push| <= cfg.maxWords ==> !r.limited
    decreases |push|
  {
    if |push| > 0 && !Tripped(cfg, bytes, m) {
      var m' := InsertPushed(m, push[0]);
      assert m'.keys == m.keys + [push[0]];
      if |push| > 1 {
        assert Less(push[0], push[1]);
      }
      CompleteExact(cfg, bytes, push[1..], m');
      assert push == [push[0]] + push[1..];
      assert Elems(push) == {push[0]} + Elems(push[1..]);
      assert Elems(m'.keys) == Elems(m.keys) + {push[0]};
    }
  }

  /** Keys that sort at or before `w` sort before anything after `w`. */
  lemma KeysUpTo(keys: seq<Word>, w: Word, next: Word)
    requires |keys| > 0 ==> LessEq(Last(keys), w)
    requires Less(w, next)
    ensures Precedes(keys, next)
  {
    if |keys| > 0 && Last(keys) != w {
      LessTransitive(Last(keys), w, next);
    }
  }

  /** Set bookkeeping for a turn that drops the popped word `w`. */
  lemma UnionAbsent<T>(a: set<T>, b: set<T>, c: set<T>, d: set<T>, w: T, pop: set<T>)
    requires a + b == c + d && w in pop
    ensures a + b == c + ({w} - pop) + d
  {
    assert {w} - pop == {};
  }

  /** Set bookkeeping for a turn that copies the word `w`. */
  lemma UnionPresent<T>(a: set<T>, b: set<T>, c: set<T>, d: set<T>, w: T, pop: set<T>)
    requires a + b == c + d && w !in pop
    ensures (a + {w}) + b == c + ({w} - pop) + d
  {
    assert {w} - pop == {w};
  }

  /** Copying the prior word `w` after keys that sort at or before it: the
      builder then holds `w`, still sorts before the remaining pushes, and
      ends at `w`. */
  lemma MovedOrder(keys: seq<Word>, rest: seq<Word>, w: Word)
    requires StrictlyIncreasing(keys)
    requires |keys| > 0 ==> LessEq(Last(keys), w)
    requires |rest| > 0 ==> Less(w, rest[0])
    ensures var moved := if Precedes(keys, w) then keys + [w] else keys;
      && Elems(moved) == Elems(keys) + {w}
      && StrictlyIncreasing(moved)
      && (|rest| > 0 ==> Precedes(moved, rest[0]))
      && (|moved| > 0 ==> LessEq(Last(moved), w))
  {
    if Precedes(keys, w) {
      AppendIncreasing(keys, w);
      assert Elems(keys + [w]) == Elems(keys) + {w};
    } else {
      assert Last(keys) == w;
      assert w in Elems(keys);
    }
  }

  /** After a turn on the head `prior[0]`, the builder is ready for the tail. */
  lemma ReadyAfter(m: MergeState, prior: seq<Word>, rest: seq<Word>)
    requires StrictlyIncreasing(prior) && |prior| > 0
    requires StrictlyIncreasing(m.keys) && StrictlyIncreasing(rest)
    requires |rest| > 0 ==> Precedes(m.keys, rest[0])
    requires |m.keys| > 0 ==> LessEq(Last(m.keys), prior[0])
    ensures Ready(m, prior[1..], rest)
  {
    if |prior| > 1 {
      assert Less(prior[0], prior[1]);
      KeysUpTo(m.keys, prior[0], prior[1]);
    }
  }

  /** One turn of the main loop without a tripped limit: the builder gains
      the drained pushes and `w` (unless popped), and still sorts before
      everything left. */
  lemma StepExact(cfg: Config, bytes: ByteCounter, w: Word, pop: set<Word>, push: seq<Word>, m: MergeState)
    requires StrictlyIncreasing(m.keys) && StrictlyIncreasing(push)
    requires |push| > 0 ==> Precedes(m.keys, push[0])
    requires Precedes(m.keys, w)
    ensures var r := Step(cfg, bytes, w, pop, push, m);
      !r.limited ==>
        && Elems(r.state.keys) + Elems(r.rest) == Elems(m.keys) + ({w} - pop) + Elems(push)
        && StrictlyIncreasing(r.state.keys) && StrictlyIncreasing(r.rest)
        && (|r.rest| > 0 ==> Less(w, r.rest[0]) && Precedes(r.state.keys, r.rest[0]))
        && (|r.state.keys| > 0 ==> LessEq(Last(r.state.keys), w))
  {
    DrainShape(cfg, bytes, push, w, m);
    DrainBoundary(cfg, bytes, push, w, m);
    var d := DrainUpTo(cfg, bytes, push, w, m);
    var r := Step(cfg, bytes, w, pop, push, m);
    if !d.limited {
      DrainedOrder(m.keys, push, w, |push| - |d.rest|);
      var before := Elems(m.keys) + Elems(push);
      assert Elems(d.state.keys) + Elems(d.rest) == before;
      if w in pop {
        assert r.state.keys == d.state.keys && r.rest == d.rest;
        UnionAbsent(Elems(d.state.keys), Elems(d.rest), Elems(m.keys), Elems(push), w, pop);
      } else if !Tripped(cfg, bytes, d.state) {
        MovedOrder(d.state.keys, d.rest, w);
        assert r.rest == d.rest;
        UnionPresent(Elems(d.state.keys), Elems(d.rest), Elems(m.keys), Elems(push), w, pop);
      }
    }
  }

  /** One turn of the main loop when `w` is not among the pushes: every
      insert succeeds, and with room for all of them no limit trips. */
  lemma StepCounts(cfg: Config, bytes: ByteCounter, w: Word, pop: set<Word>, push: seq<Word>, m: MergeState)
    requires StrictlyIncreasing(m.keys) && StrictlyIncreasing(push)
    requires |push| > 0 ==> Precedes(m.keys, push[0])
    requires Precedes(m.keys, w)
    requires w !in Elems(push)
    ensures var r := Step(cfg, bytes, w, pop, push, m);
      !r.limited ==>
        && r.state.moved == m.moved + |{w} - pop|
        && r.state.pushed + |r.rest| == m.pushed + |push|
    ensures var r := Step(cfg, bytes, w, pop, push, m);
      BytesUnder(cfg, bytes) && m.pushed + m.moved + |{w} - pop| + |push| <= cfg.maxWords ==> !r.limited
  {
    DrainShape(cfg, bytes, push, w, m);
    DrainBoundary(cfg, bytes, push, w, m);
    if BytesUnder(cfg, bytes) && m.pushed + m.moved + |{w} - pop| + |push| <= cfg.maxWords {
      DrainRoom(cfg, bytes, push, w, m);
    }
    var d := DrainUpTo(cfg, bytes, push, w, m);
    if !d.limited {
      DrainedOrder(m.keys, push, w, |push| - |d.rest|);
      if w in pop {
        assert {w} - pop == {};
      } else {
        assert |{w} - pop| == 1;
        if !Tripped(cfg, bytes, d.state) {
          assert InsertMoved(d.state, w).keys == d.state.keys + [w];
        }
      }
    }
  }

  /** Set bookkeeping for one turn of the main loop followed by the rest. */
  lemma UnionChain<T>(lhs: set<T>, keys: set<T>, rest: set<T>, later: set<T>,
                      start: set<T>, now: set<T>, push: set<T>, all: set<T>)
    requires lhs == keys + later + rest
    requires keys + rest == start + now + push
    requires all == now + later
    ensures lhs == start + all + push
  {
  }

  /** Splitting the prior words into the head `w` and the rest. */
  lemma HeadSplit<T>(w: T, tail: set<T>, pop: set<T>)
    requires w !in tail
    ensures ({w} + tail) - pop == ({w} - pop) + (tail - pop)
    ensures |({w} + tail) - pop| == |{w} - pop| + |tail - pop|
    ensures |({w} + tail) * pop| == (if w in pop then 1 else 0) + |tail * pop|
  {
    if w in pop {
      assert ({w} + tail) * pop == {w} + tail * pop;
      assert ({w} + tail) - pop == tail - pop;
    } else {
      assert ({w} + tail) * pop == tail * pop;
      assert ({w} + tail) - pop == {w} + (tail - pop);
    }
  }

  /** Without a tripped limit, the main loop leaves the builder and the
      remaining pushes holding, between them, everything it started with,
      the prior words not pending a pop, and the pushes; both still in order. */
  lemma {:induction false} MergeOldExact(cfg: Config, bytes: ByteCounter, prior: seq<Word>, pop: set<Word>,
                                         push: seq<Word>, m: MergeState)
    requires Ready(m, prior, push)
    ensures var r := MergeOld(cfg, bytes, prior, pop, push, m);
      !r.limited ==>
        && Elems(r.state.keys) + Elems(r.rest) == Elems(m.keys) + (Elems(prior) - pop) + Elems(push)
        && StrictlyIncreasing(r.state.keys) && StrictlyIncreasing(r.rest)
        && (|r.rest| > 0 ==> Precedes(r.state.keys, r.rest[0]))
    decreases |prior|
  {
    if |prior| == 0 {
      assert Elems(prior) == {};
    } else {
      var w := prior[0];
      var tail := prior[1..];
      StepExact(cfg, bytes, w, pop, push, m);
      var s := Step(cfg, bytes, w, pop, push, m);
      if !s.limited {
        HeadNotInTail(prior);
        HeadSplit(w, Elems(tail), pop);
        ReadyAfter(s.state, prior, s.rest);
        MergeOldExact(cfg, bytes, tail, pop, s.rest, s.state);
        var r := MergeOld(cfg, bytes, prior, pop, push, m);
        assert r == MergeOld(cfg, bytes, tail, pop, s.rest, s.state);
        if !r.limited {
          UnionChain(Elems(r.state.keys) + Elems(r.rest), Elems(s.state.keys), Elems(s.rest), Elems(tail) - pop,
                     Elems(m.keys), {w} - pop, Elems(push), Elems(prior) - pop);
        }
      }
    }
  }

  /** Without a tripped limit, every prior word pending a pop is counted once. */
  lemma {:induction false} MergeOldPopped(cfg: Config, bytes: ByteCounter, prior: seq<Word>, pop: set<Word>,
                                          push: seq<Word>, m: MergeState)
    requires StrictlyIncreasing(prior)
    ensures var r := MergeOld(cfg, bytes, prior, pop, push, m);
      !r.limited ==> r.state.popped == m.popped + |Elems(prior) * pop|
    decreases |prior|
  {
    if |prior| == 0 {
      assert Elems(prior) == {};
    } else {
      var s := Step(cfg, bytes, prior[0], pop, push, m);
      if !s.limited {
        HeadNotInTail(prior);
        HeadSplit(prior[0], Elems(prior[1..]), pop);
        MergeOldPopped(cfg, bytes, prior[1..], pop, s.rest, s.state);
      }
    }
  }

  /** The counters when the pushes and the prior words are disjoint: every
      insert succeeds, and there is room for all of them. */
  lemma {:induction false} MergeOldCounts(cfg: Config, bytes: ByteCounter, prior: seq<Word>, pop: set<Word>,
                                          push: seq<Word>, m: MergeState)
    requires Ready(m, prior, push)
    requires Elems(push) !! Elems(prior)
    ensures var r := MergeOld(cfg, bytes, prior, pop, push, m);
      !r.limited ==>
        && r.state.moved == m.moved + |Elems(prior) - pop|
        && r.state.pushed + |r.rest| == m.pushed + |push|
    ensures var r := MergeOld(cfg, bytes, prior, pop, push, m);
      BytesUnder(cfg, bytes) && m.pushed + m.moved + |Elems(prior) - pop| + |push| <= cfg.maxWords ==> !r.limited
    decreases |prior|
  {
    if |prior| == 0 {
      assert Elems(prior) == {};
    } else {
      var w := prior[0];
      var tail := prior[1..];
      HeadNotInTail(prior);
      HeadSplit(w, Elems(tail), pop);
      assert w in Elems(prior);
      StepExact(cfg, bytes, w, pop, push, m);
      StepCounts(cfg, bytes, w, pop, push, m);
      var s := Step(cfg, bytes, w, pop, push, m);
      if !s.limited {
        ReadyAfter(s.state, prior, s.rest);
        assert Elems(s.rest) <= Elems(push);
        MergeOldCounts(cfg, bytes, tail, pop, s.rest, s.state);
      }
    }
  }

  /** When no limit check trips, the new FST holds the prior words not
      pending a pop plus the pending pushes. */
  lemma RebuildElems(cfg: Config, bytes: ByteCounter, prior: seq<Word>, push: set<Word>, pop: set<Word>)
    requires StrictlyIncreasing(prior)
    ensures var r := Rebuild(cfg, bytes, prior, push, pop);
      !r.limited ==> Elems(r.state.keys) == (Elems(prior) - pop) + push
  {
    var sorted := SortedSeq(push);
    MergeOldExact(cfg, bytes, prior, pop, sorted, Empty);
    var p := MergeOld(cfg, bytes, prior, pop, sorted, Empty);
    var c := Complete(cfg, bytes, p.rest, p.state);
    if !p.limited && !c.limited {
      CompleteExact(cfg, bytes, p.rest, p.state);
      assert Elems(Empty.keys) == {};
    }
  }

  /** When no limit check trips, the new FST is exactly the sorted set of
      the prior words not pending a pop plus the pending pushes, and every
      prior word pending a pop is counted once. */
  lemma MergeExact(cfg: Config, bytes: ByteCounter, prior: seq<Word>, push: set<Word>, pop: set<Word>)
    requires StrictlyIncreasing(prior)
    ensures var r := Rebuild(cfg, bytes, prior, push, pop);
      !r.limited ==>
        && r.state.keys == SortedSeq((Elems(prior) - pop) + push)
        && r.state.popped == |Elems(prior) * pop|
  {
    var sorted := SortedSeq(push);
    MergeOldPopped(cfg, bytes, prior, pop, sorted, Empty);
    RebuildElems(cfg, bytes, prior, push, pop);
    var r := Rebuild(cfg, bytes, prior, push, pop);
    if !r.limited {
      IncreasingUnique(r.state.keys, SortedSeq((Elems(prior) - pop) + push));
    }
  }

  /** With the pushes disjoint from the prior words, a byte count that stays
      under the limit and a result set that fits in `max_words`, the pass
      runs to the end: every surviving prior word is moved and every push is
      inserted. */
  lemma MergeFits(cfg: Config, bytes: ByteCounter, prior: seq<Word>, push: set<Word>, pop: set<Word>)
    requires StrictlyIncreasing(prior)
    requires push !! Elems(prior)
    requires BytesUnder(cfg, bytes)
    requires |(Elems(prior) - pop) + push| <= cfg.maxWords
    ensures var r := Rebuild(cfg, bytes, prior, push, pop);
      && !r.limited
      && r.state.moved == |Elems(prior) - pop|
      && r.state.pushed == |push|
  {
    var sorted := SortedSeq(push);
    assert |(Elems(prior) - pop) + push| == |Elems(prior) - pop| + |push|;
    MergeOldExact(cfg, bytes, prior, pop, sorted, Empty);
    MergeOldCounts(cfg, bytes, prior, pop, sorted, Empty);
    var p := MergeOld(cfg, bytes, prior, pop, sorted, Empty);
    CompleteExact(cfg, bytes, p.rest, p.state);
  }
}
