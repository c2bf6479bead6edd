/** Reading words out of a graph: suggestions (completions first, then typo
    corrections) and plain paginated listing.

    The FST searches themselves (`lookup_begins` with its regex,
    `lookup_typos` with its Levenshtein automaton) are given as the word
    streams they produce; what is modelled is how the store collects from
    those streams. */
module Lookup {
  import opened Words
  import opened Wrappers
  import opened Limits

  predicate NoDup(s: seq<Word>) {
    forall i, j :: 0 <= i < j < |s| ==> s[i] != s[j]
  }

  /** Reference for the collector: the valid UTF-8 words of `stream` not
      already in `seen`, first occurrences only, in stream order. */
  function Fresh(stream: seq<Word>, seen: seq<Word>): seq<Word>
    decreases |stream|
  {
    if |stream| == 0 then []
    else if ValidUtf8(stream[0]) && stream[0] !in seen then
      [stream[0]] + Fresh(stream[1..], seen + [stream[0]])
    else Fresh(stream[1..], seen)
  }

  function Take(s: seq<Word>, n: nat): seq<Word> {
    if n <= |s| then s[..n] else s
  }

  /** How many words one collection may add: up to `limit` in all, but at
      least one even when `found` is already full, since the limit is only
      checked after an append. */
  function Budget(have: nat, limit: nat): nat {
    if have < limit then limit - have else 1
  }

  /** `find_words_stream`: append each valid UTF-8 word of the stream that is
      not yet in `found`, stopping right after the append that brings the
      count to `limit`. */
  function FindWordsStream(stream: seq<Word>, found: seq<Word>, limit: nat): (r: seq<Word>)
    ensures |found| <= |r| && r[..|found|] == found
    ensures forall i :: |found| <= i < |r| ==> ValidUtf8(r[i]) && r[i] in stream && r[i] !in found
    ensures NoDup(found) ==> NoDup(r)
    ensures |r| <= |found| + Budget(|found|, limit)
    decreases |stream|
  {
    if |stream| == 0 then found
    else
      var w := stream[0];
      if ValidUtf8(w) && w !in found then
        var grown := found + [w];
        if |grown| >= limit then grown else FindWordsStream(stream[1..], grown, limit)
      else FindWordsStream(stream[1..], found, limit)
  }

  lemma TakeCons(w: Word, s: seq<Word>, n: nat)
    requires n >= 1
    ensures Take([w] + s, n) == [w] + Take(s, n - 1)
  {
    if n <= |s| + 1 {
      assert ([w] + s)[..n] == [w] + s[..n - 1];
    }
  }

  lemma AppendCons<T>(a: seq<T>, x: T, b: seq<T>)
    ensures a + ([x] + b) == (a + [x]) + b
  {
  }

  /** One fresh word: the collector appends it and, unless that filled the
      result, goes on with the rest of the stream. */
  lemma TakesFreshStep(stream: seq<Word>, found: seq<Word>, limit: nat)
    requires |stream| > 0 && ValidUtf8(stream[0]) && stream[0] !in found
    requires var grown := found + [stream[0]];
      |grown| < limit ==>
        FindWordsStream(stream[1..], grown, limit) == grown + Take(Fresh(stream[1..], grown), Budget(|grown|, limit))
    ensures FindWordsStream(stream, found, limit) == found + Take(Fresh(stream, found), Budget(|found|, limit))
  {
    var w := stream[0];
    var b := Budget(|found|, limit);
    var rest := Fresh(stream[1..], found + [w]);
    TakeCons(w, rest, b);
    AppendCons(found, w, Take(rest, b - 1));
  }

  /** The collector takes the first `Budget` fresh words of the stream. */
  lemma {:induction false} FindWordsTakesFresh(stream: seq<Word>, found: seq<Word>, limit: nat)
    ensures FindWordsStream(stream, found, limit) == found + Take(Fresh(stream, found), Budget(|found|, limit))
    decreases |stream|
  {
    if |stream| == 0 {
      assert found + [] == found;
    } else if ValidUtf8(stream[0]) && stream[0] !in found {
      var grown := found + [stream[0]];
      if |grown| < limit {
        FindWordsTakesFresh(stream[1..], grown, limit);
      }
      TakesFreshStep(stream, found, limit);
    } else {
      FindWordsTakesFresh(stream[1..], found, limit);
    }
  }

  /** Stopping short of the limit means the stream was exhausted: every
      valid UTF-8 word of the stream was collected. */
  lemma {:induction false} FindWordsComplete(stream: seq<Word>, found: seq<Word>, limit: nat)
    ensures var r := FindWordsStream(stream, found, limit);
      |r| < limit ==> forall w :: w in stream && ValidUtf8(w) ==> w in r
    decreases |stream|
  {
    var r := FindWordsStream(stream, found, limit);
    if |stream| > 0 && |r| < limit {
      var w := stream[0];
      var grown := found + [w];
      if ValidUtf8(w) && w !in found {
        FindWordsComplete(stream[1..], grown, limit);
        assert r[..|grown|] == grown;
        assert w == r[|found|];
      } else {
        FindWordsComplete(stream[1..], found, limit);
        if w in found {
          assert r[..|found|] == found;
          var i :| 0 <= i < |found| && found[i] == w;
          assert r[i] == w;
        }
      }
      forall x | x in stream && ValidUtf8(x)
        ensures x in r
      {
        if x != w {
          assert x in stream[1..];
        }
      }
    }
  }

  /** `suggest_words`: completions of the word from the `begins` stream, then,
      while fewer than `limit` were found, typo corrections from the `typos`
      search run with the word's typo factor. `None` for an over-long word,
      for a failed search, and when nothing was found. */
  function SuggestWords(w: Word, limit: nat, maxTypo: Option<nat>,
                        begins: Option<seq<Word>>, typos: nat -> Option<seq<Word>>): (r: Option<seq<Word>>)
    ensures WordOverLimit(w) ==> r.None?
    ensures r.Some? ==> 0 < |r.value| <= (if limit == 0 then 1 else limit)
    ensures r.Some? ==> NoDup(r.value)
    ensures r.Some? ==> forall i :: 0 <= i < |r.value| ==>
      && ValidUtf8(r.value[i])
      && ((begins.Some? && r.value[i] in begins.value)
          || (typos(TypoFactor(|w|, maxTypo)).Some? && r.value[i] in typos(TypoFactor(|w|, maxTypo)).value))
  {
    if WordOverLimit(w) then None
    else
      var completed := match begins
        case Some(s) => FindWordsStream(s, [], limit)
        case None => [];
      var corrected :=
        if |completed| < limit then
          match typos(TypoFactor(|w|, maxTypo))
          case Some(s) => FindWordsStream(s, completed, limit)
          case None => completed
        else completed;
      if |corrected| > 0 then Some(corrected) else None
  }

  /** Completions come first, and when the result stops short of `limit`,
      every valid completion the `begins` stream offered is in it. */
  lemma SuggestCompletionsFirst(w: Word, limit: nat, maxTypo: Option<nat>,
                                begins: Option<seq<Word>>, typos: nat -> Option<seq<Word>>)
    requires !WordOverLimit(w) && begins.Some?
    ensures var r := SuggestWords(w, limit, maxTypo, begins, typos);
      var completed := FindWordsStream(begins.value, [], limit);
      && (r.Some? ==> |completed| <= |r.value| && r.value[..|completed|] == completed)
      && (r.None? ==> completed == [])
      && (r.Some? && |r.value| < limit ==> forall x :: x in begins.value && ValidUtf8(x) ==> x in r.value)
  {
    var r := SuggestWords(w, limit, maxTypo, begins, typos);
    var completed := FindWordsStream(begins.value, [], limit);
    FindWordsComplete(begins.value, [], limit);
    if r.Some? && |r.value| < limit {
      assert |completed| < limit;
      forall x | x in begins.value && ValidUtf8(x)
        ensures x in r.value
      {
        var i :| 0 <= i < |completed| && completed[i] == x;
        assert r.value[..|completed|][i] == x;
      }
    }
  }

  /** What the completion lookup collects: nothing when the search failed. */
  function Completions(begins: Option<seq<Word>>, limit: nat): seq<Word> {
    match begins
    case Some(s) => FindWordsStream(s, [], limit)
    case None => []
  }

  /** Reference for the completions: the first fresh valid words of the
      `begins` stream, up to the limit (one when the limit is 0). */
  function CompletionsRef(begins: Option<seq<Word>>, limit: nat): seq<Word> {
    if begins.Some? then Take(Fresh(begins.value, []), Budget(0, limit)) else []
  }

  /** Reference for the suggestions: the completions, then, only when they
      fall short of the limit and the typo search ran, the first fresh
      valid typo corrections filling the result up to the limit. */
  function SuggestRef(w: Word, limit: nat, maxTypo: Option<nat>,
                      begins: Option<seq<Word>>, typos: nat -> Option<seq<Word>>): seq<Word> {
    var completed := CompletionsRef(begins, limit);
    var t := typos(TypoFactor(|w|, maxTypo));
    if |completed| < limit && t.Some?
    then completed + Take(Fresh(t.value, completed), limit - |completed|)
    else completed
  }

  /** The suggestions are the reference ones, and `None` exactly when the
      reference finds nothing. */
  lemma SuggestWordsTakes(w: Word, limit: nat, maxTypo: Option<nat>,
                          begins: Option<seq<Word>>, typos: nat -> Option<seq<Word>>)
    requires !WordOverLimit(w)
    ensures var all := SuggestRef(w, limit, maxTypo, begins, typos);
      SuggestWords(w, limit, maxTypo, begins, typos) == if |all| > 0 then Some(all) else None
  {
    var c := Completions(begins, limit);
    var t := typos(TypoFactor(|w|, maxTypo));
    var gathered := if |c| < limit && t.Some? then FindWordsStream(t.value, c, limit) else c;
    CompletionsTake(begins, limit);
    TypoFill(c, t, limit);
    assert gathered == SuggestRef(w, limit, maxTypo, begins, typos);
    SuggestUnfold(w, limit, maxTypo, begins, typos);
  }

  /** The typo half: collecting a typo stream into completions short of
      `limit` fills them up to `limit` with its fresh words. */
  lemma TypoFill(completed: seq<Word>, t: Option<seq<Word>>, limit: nat)
    ensures (if |completed| < limit && t.Some? then FindWordsStream(t.value, completed, limit) else completed)
         == if |completed| < limit && t.Some?
            then completed + Take(Fresh(t.value, completed), limit - |completed|)
            else completed
  {
    if |completed| < limit && t.Some? {
      FindWordsTakesFresh(t.value, completed, limit);
    }
  }

  lemma CompletionsTake(begins: Option<seq<Word>>, limit: nat)
    ensures Completions(begins, limit) == CompletionsRef(begins, limit)
  {
    if begins.Some? {
      FindWordsTakesFresh(begins.value, [], limit);
      assert [] + Take(Fresh(begins.value, []), Budget(0, limit)) == Take(Fresh(begins.value, []), Budget(0, limit));
    }
  }

  /** `SuggestWords` in terms of the completions and the typo stream. */
  lemma SuggestUnfold(w: Word, limit: nat, maxTypo: Option<nat>,
                      begins: Option<seq<Word>>, typos: nat -> Option<seq<Word>>)
    requires !WordOverLimit(w)
    ensures var completed := Completions(begins, limit);
      var t := typos(TypoFactor(|w|, maxTypo));
      var all := if |completed| < limit && t.Some? then FindWordsStream(t.value, completed, limit) else completed;
      SuggestWords(w, limit, maxTypo, begins, typos) == if |all| > 0 then Some(all) else None
  {
  }

  /** Every word of the graph converts to a string (`into_strs`). */
  predicate AllUtf8(graph: seq<Word>) {
    forall i :: 0 <= i < |graph| ==> ValidUtf8(graph[i])
  }

  /** `list_words`: skip `offset` words of the graph, then take `limit`; the
      conversion of the whole stream to strings fails on any word that is
      not valid UTF-8. */
  function ListWords(graph: seq<Word>, limit: nat, offset: nat): (r: Result<seq<Word>>)
    ensures r.Err? <==> !AllUtf8(graph)
    ensures r.Ok? ==> |r.value| == Min(limit, |graph| - Min(offset, |graph|))
    ensures r.Ok? ==> forall i :: 0 <= i < |r.value| ==> r.value[i] == graph[offset + i]
  {
    if !AllUtf8(graph) then Err
    else
      var start := Min(offset, |graph|);
      Ok(graph[start..start + Min(limit, |graph| - start)])
  }

  /** Two consecutive pages make up the page that spans both. */
  lemma ListWordsPages(graph: seq<Word>, a: nat, b: nat, offset: nat)
    requires AllUtf8(graph)
    ensures ListWords(graph, a, offset).value + ListWords(graph, b, offset + a).value
         == ListWords(graph, a + b, offset).value
  {
  }

  /** A page of a sorted graph is sorted. */
  lemma ListWordsSorted(graph: seq<Word>, limit: nat, offset: nat)
    requires AllUtf8(graph) && StrictlyIncreasing(graph)
    ensures StrictlyIncreasing(ListWords(graph, limit, offset).value)
  {
    var page := ListWords(graph, limit, offset).value;
    forall i, j | 0 <= i < j < |page|
      ensures Less(page[i], page[j])
    {
      assert page[i] == graph[offset + i] && page[j] == graph[offset + j];
    }
  }
}
