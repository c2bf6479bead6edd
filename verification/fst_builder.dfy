/** The FST set builder as the consolidation uses it: it accepts keys only in
    strictly increasing order and reports an error for an out-of-order or
    duplicate key, leaving what it holds unchanged. */
module FstBuilder {
  import opened Words
  import opened Wrappers

  /** `insert`: append `w` after the keys inserted so far, or fail. */
  function Insert(keys: seq<Word>, w: Word): (r: Option<seq<Word>>)
    ensures r.Some? <==> Precedes(keys, w)
    ensures r.Some? ==> r.value == keys + [w]
    ensures StrictlyIncreasing(keys) && r.Some? ==> StrictlyIncreasing(r.value)
    ensures StrictlyIncreasing(keys) && r.None? ==> w in Elems(keys) || Less(w, Last(keys))
  {
    if Precedes(keys, w) then
      AppendIncreasing(keys, w);
      Some(keys + [w])
    else
      LessTotal(Last(keys), w);
      None
  }
}
