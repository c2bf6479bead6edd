/** Words as the FST stores them: byte strings, ordered lexicographically.

    An FST set keeps its keys sorted by the byte-wise lexicographic order that
    Rust's `Ord` gives `[u8]`; everything the store does with ordering (the
    builder's insert check, the sort of pending pushes, the merge) uses it. */
module Words {

  newtype byte = x: int | 0 <= x < 256

  type Word = seq<byte>

  /** Longest word, in bytes, that the store accepts (`WORD_LIMIT_LENGTH`). */
  const WordLimitLength: nat := 40

  /** A word longer than the limit is refused by every word action. */
  predicate WordOverLimit(w: Word) {
    |w| > WordLimitLength
  }

  /** Strict lexicographic order on byte strings: a proper prefix comes first. */
  predicate Less(a: Word, b: Word)
    decreases |a|
  {
    if |a| == 0 then |b| > 0
    else |b| > 0 && (a[0] < b[0] || (a[0] == b[0] && Less(a[1..], b[1..])))
  }

  predicate LessEq(a: Word, b: Word) {
    a == b || Less(a, b)
  }

  lemma {:induction false} LessIrreflexive(a: Word)
    ensures !Less(a, a)
    decreases |a|
  {
    if |a| > 0 {
      LessIrreflexive(a[1..]);
    }
  }

  lemma {:induction false} LessTransitive(a: Word, b: Word, c: Word)
    requires Less(a, b) && Less(b, c)
    ensures Less(a, c)
    decreases |a|
  {
    if |a| > 0 && a[0] == b[0] && b[0] == c[0] {
      LessTransitive(a[1..], b[1..], c[1..]);
    }
  }

  lemma {:induction false} LessTotal(a: Word, b: Word)
    ensures a == b || Less(a, b) || Less(b, a)
    decreases |a|
  {
    if |a| > 0 && |b| > 0 && a[0] == b[0] {
      LessTotal(a[1..], b[1..]);
      if a[1..] == b[1..] {
        assert a == [a[0]] + a[1..] && b == [b[0]] + b[1..];
      }
    }
  }

  lemma LessAsymmetric(a: Word, b: Word)
    requires Less(a, b)
    ensures !Less(b, a) && a != b
  {
    LessIrreflexive(a);
    if Less(b, a) {
      LessTransitive(a, b, a);
    }
  }

  /** `!(a <= b)` is `b < a`: the negated guard of the merge loop. */
  lemma NotLessEq(a: Word, b: Word)
    requires !LessEq(a, b)
    ensures Less(b, a)
  {
    LessTotal(a, b);
  }

  function Elems(s: seq<Word>): set<Word> {
    set w | w in s
  }

  /** The order in which an FST stores and streams its keys. */
  predicate StrictlyIncreasing(s: seq<Word>) {
    forall i, j {:trigger Less(s[i], s[j])} :: 0 <= i < j < |s| ==> Less(s[i], s[j])
  }

  function Last(s: seq<Word>): Word
    requires |s| > 0
  {
    s[|s| - 1]
  }

  /** Every key of `keys` comes strictly before `w` (for a strictly increasing
      `keys` it is enough to compare the last key). */
  predicate Precedes(keys: seq<Word>, w: Word) {
    |keys| == 0 || Less(Last(keys), w)
  }

  lemma AppendIncreasing(s: seq<Word>, w: Word)
    requires Precedes(s, w)
    ensures StrictlyIncreasing(s) ==> StrictlyIncreasing(s + [w])
  {
    if StrictlyIncreasing(s) {
      forall i, j | 0 <= i < j < |s + [w]|
        ensures Less((s + [w])[i], (s + [w])[j])
      {
        if j == |s| && i < |s| - 1 {
          LessTransitive(s[i], Last(s), w);
        }
      }
    }
  }

  lemma PrecedesEvery(s: seq<Word>, w: Word)
    requires StrictlyIncreasing(s) && Precedes(s, w)
    ensures forall i :: 0 <= i < |s| ==> Less(s[i], w)
    ensures w !in Elems(s)
  {
    forall i | 0 <= i < |s|
      ensures Less(s[i], w)
    {
      if i < |s| - 1 {
        LessTransitive(s[i], Last(s), w);
      }
    }
    if w in Elems(s) {
      var i :| 0 <= i < |s| && s[i] == w;
      LessIrreflexive(w);
    }
  }

  lemma HeadNotInTail(s: seq<Word>)
    requires StrictlyIncreasing(s) && |s| > 0
    ensures s[0] !in Elems(s[1..])
    ensures Elems(s) == {s[0]} + Elems(s[1..])
  {
    if s[0] in Elems(s[1..]) {
      var i :| 0 <= i < |s[1..]| && s[1..][i] == s[0];
      LessIrreflexive(s[0]);
    }
    assert s == [s[0]] + s[1..];
  }

  /** Distinct elements: a strictly increasing sequence has as many elements
      as its set. */
  lemma {:induction false} IncreasingCard(s: seq<Word>)
    requires StrictlyIncreasing(s)
    ensures |Elems(s)| == |s|
    decreases |s|
  {
    if |s| > 0 {
      HeadNotInTail(s);
      IncreasingCard(s[1..]);
    }
  }

  /** A set has exactly one strictly increasing enumeration. */
  lemma {:induction false} IncreasingUnique(s: seq<Word>, t: seq<Word>)
    requires StrictlyIncreasing(s) && StrictlyIncreasing(t)
    requires Elems(s) == Elems(t)
    ensures s == t
    decreases |s|
  {
    IncreasingCard(s);
    IncreasingCard(t);
    if |s| > 0 {
      HeadNotInTail(s);
      HeadNotInTail(t);
      if s[0] != t[0] {
        assert t[0] in Elems(s);
        assert s[0] in Elems(t);
        var i :| 0 <= i < |s| && s[i] == t[0];
        var j :| 0 <= j < |t| && t[j] == s[0];
        assert Less(s[0], t[0]) && Less(t[0], s[0]);
        LessAsymmetric(s[0], t[0]);
      }
      assert Elems(s[1..]) == Elems(s) - {s[0]};
      assert Elems(t[1..]) == Elems(t) - {t[0]};
      IncreasingUnique(s[1..], t[1..]);
      assert s == [s[0]] + s[1..] && t == [t[0]] + t[1..];
    }
  }

  /** `m` is the first word of `s` in FST order. */
  predicate IsLeast(m: Word, s: set<Word>) {
    m in s && forall x :: x in s ==> LessEq(m, x)
  }

  lemma {:induction false} LeastExists(s: set<Word>)
    requires s != {}
    ensures exists m :: IsLeast(m, s)
    decreases |s|
  {
    var x :| x in s;
    var rest := s - {x};
    if rest == {} {
      assert s == {x};
      assert IsLeast(x, s);
    } else {
      LeastExists(rest);
      var m :| IsLeast(m, rest);
      LessTotal(x, m);
      if Less(x, m) {
        forall y | y in s
          ensures LessEq(x, y)
        {
          if y != x {
            assert LessEq(m, y);
            if m != y {
              LessTransitive(x, m, y);
            }
          }
        }
        assert IsLeast(x, s);
      } else {
        assert IsLeast(m, s);
      }
    }
  }

  lemma LeastUnique(s: set<Word>)
    ensures forall a, b :: IsLeast(a, s) && IsLeast(b, s) ==> a == b
  {
    forall a, b | IsLeast(a, s) && IsLeast(b, s)
      ensures a == b
    {
      assert LessEq(a, b) && LessEq(b, a);
      if a != b {
        LessAsymmetric(a, b);
      }
    }
  }

  /** The sorted enumeration of a set of words: what `sort()` produces from
      the words of a hash set, all of which are distinct. */
  function SortedSeq(s: set<Word>): (r: seq<Word>)
    ensures StrictlyIncreasing(r)
    ensures Elems(r) == s
    ensures |r| == |s|
    decreases |s|
  {
    if s == {} then []
    else
      LeastExists(s);
      LeastUnique(s);
      var m :| IsLeast(m, s);
      var tail := SortedSeq(s - {m});
      PrependLeast(m, s, tail);
      [m] + tail
  }

  /** Putting the least word of `s` before an increasing enumeration of the
      others gives an increasing enumeration of `s`. */
  lemma PrependLeast(m: Word, s: set<Word>, tail: seq<Word>)
    requires IsLeast(m, s) && StrictlyIncreasing(tail) && Elems(tail) == s - {m}
    ensures StrictlyIncreasing([m] + tail) && Elems([m] + tail) == s
  {
    forall i, j | 0 <= i < j < |[m] + tail|
      ensures Less(([m] + tail)[i], ([m] + tail)[j])
    {
      if i == 0 {
        assert tail[j - 1] in s - {m};
      } else {
        assert Less(tail[i - 1], tail[j - 1]);
      }
    }
    assert Elems([m] + tail) == {m} + Elems(tail);
  }

  /** The bytes `str::from_utf8` accepts: well-formed UTF-8 as section 4 of
      RFC 3629 defines it (no overlong forms, no surrogates, nothing above
      U+10FFFF). */
  predicate ValidUtf8(s: Word)
    decreases |s|
  {
    if |s| == 0 then true
    else
      var b := s[0];
      if b <= 0x7F then ValidUtf8(s[1..])
      else if 0xC2 <= b <= 0xDF then
        |s| >= 2 && IsTail(s[1]) && ValidUtf8(s[2..])
      else if 0xE0 <= b <= 0xEF then
        |s| >= 3 && InRange(s[1], ThreeByteSecondLow(b), ThreeByteSecondHigh(b))
        && IsTail(s[2]) && ValidUtf8(s[3..])
      else if 0xF0 <= b <= 0xF4 then
        |s| >= 4 && InRange(s[1], FourByteSecondLow(b), FourByteSecondHigh(b))
        && IsTail(s[2]) && IsTail(s[3]) && ValidUtf8(s[4..])
      else false
  }

  predicate IsTail(b: byte) {
    0x80 <= b <= 0xBF
  }

  predicate InRange(b: byte, lo: int, hi: int) {
    lo <= b as int <= hi
  }

  /** E0 needs A0..BF (no overlong form), ED needs 80..9F (no surrogate). */
  function ThreeByteSecondLow(b: byte): int {
    if b == 0xE0 then 0xA0 else 0x80
  }

  function ThreeByteSecondHigh(b: byte): int {
    if b == 0xED then 0x9F else 0xBF
  }

  /** F0 needs 90..BF (no overlong form), F4 needs 80..8F (at most U+10FFFF). */
  function FourByteSecondLow(b: byte): int {
    if b == 0xF0 then 0x90 else 0x80
  }

  function FourByteSecondHigh(b: byte): int {
    if b == 0xF4 then 0x8F else 0xBF
  }

  /** Plain ASCII is well-formed UTF-8. */
  lemma {:induction false} AsciiValid(s: Word)
    requires forall i :: 0 <= i < |s| ==> s[i] <= 0x7F
    ensures ValidUtf8(s)
    decreases |s|
  {
    if |s| > 0 {
      assert forall i :: 0 <= i < |s[1..]| ==> s[1..][i] == s[i + 1];
      AsciiValid(s[1..]);
    }
  }

  /** What the well-formedness rules turn away: a stray continuation byte,
      an overlong encoding, an encoded surrogate, a code point above
      U+10FFFF and a truncated sequence; while a two-byte and a four-byte
      character go through. */
  lemma Utf8Boundaries()
    ensures !ValidUtf8([0x80])
    ensures !ValidUtf8([0xC0, 0x80])
    ensures !ValidUtf8([0xE0, 0x80, 0x80])
    ensures !ValidUtf8([0xED, 0xA0, 0x80])
    ensures !ValidUtf8([0xF4, 0x90, 0x80, 0x80])
    ensures !ValidUtf8([0xE2, 0x82])
    ensures ValidUtf8([0xC3, 0xA9])
    ensures ValidUtf8([0xF0, 0x9F, 0x98, 0x80])
  {
    assert [0xC3 as byte, 0xA9][2..] == [];
    assert [0xF0 as byte, 0x9F, 0x98, 0x80][4..] == [];
  }
}
