# Sonic FST word-graph store, modelled in Dafny

This project models the word-graph store of the Sonic search backend
(`src/store/fst.rs`). For each collection and bucket, the store keeps a
finite-state transducer (FST) set of words. Changes are not applied to the
FST directly. `push_word` and `pop_word` record them in two pending sets
and schedule the store in a consolidation register. A periodic
consolidation then rebuilds each scheduled FST. It streams the old words in
order and merges them with the sorted pending pushes, skipping pending
pops, under a word-count and byte-size limit. The FST builder accepts only
strictly increasing keys.

The model is functional. A store is an immutable record:

- the committed FST, as a strictly increasing sequence of byte strings;
- the pending push and pop sets;
- the time of its last scheduling.

Every operation is a pure function of its inputs. The following become
parameters:

- The configuration (`max_words`, `max_size`, `consolidate_after`) is a
  `Config` value.
- The builder's `bytes_written()` is a function from the keys inserted so
  far to a byte count.
- The FST's `size()` is a number stored with the graph.
- Clocks are integer seconds.
- File-system outcomes, such as whether a path exists, whether a removal
  succeeded, or what a directory listing returned, are values given to the
  operation.

The repository's CI release workflow is not modelled.

Files:

- `words.dfy`: byte strings, their lexicographic order, sorted sequences,
  the sort of a set, and UTF-8 well-formedness as section 4 of RFC 3629
  defines it.
- `limits.dfy`: `check_over_limits` and the typo factor.
- `fst_builder.dfy`: the builder's insert.
- `merge.dfy`: the merge loops of `consolidate_item`.
- `merge_facts.dfy`: what the merge produces.
- `store.dfy`: a store, `push_word`, `pop_word` and `should_consolidate`.
- `pool.dfy`: the pool and register, `close`, and the two erasures.
- `consolidate.dfy`: `consolidate_item` and the `consolidate` pass.
- `lookup.dfy`: `find_words_stream`, `suggest_words` and `list_words`.
- `paths.dfy`: path modes, file names, bucket counting and the dump walk.

## Model

| member | source | states |
|---|---|---|
| Limits.TypoFactor | src/store/fst.rs:858-870 | The factor is at most 3 and at most the cap. Without a cap it equals the reference budget: words of 1-3 bytes get 0 typos, 4-6 get 1, 7-9 get 2, and anything else, including the empty word, gets 3. With a cap it is the smaller of the budget and the cap. |
| Limits.TypoFactorMonotonic | src/store/fst.rs:858-870 | For non-empty words, a longer word never gets a smaller typo factor, under the same cap. |
| FstBuilder.Insert | src/store/fst.rs:587-598 | The insert succeeds exactly when the word sorts after every key so far. On success the builder holds the keys plus the word and stays strictly increasing. On failure, for a sorted builder, the word is a duplicate or sorts before the last key. |
| Merge.DrainUpTo | src/store/fst.rs:566-609 | The inner loop keeps the builder sorted and the counters consistent with its keys. It never goes past `max_words`. It inserts only words taken from the pushes and leaves the moved and popped counters alone. |
| Merge.Step | src/store/fst.rs:557-634 | After one turn of the main loop, the builder holds only earlier keys, drained pushes, and the prior word unless it was popped. When no limit tripped, the popped counter rose by exactly one for a popped word and stayed put otherwise. |
| Merge.MergeOld | src/store/fst.rs:557-635 | The main loop keeps the builder sorted and within `max_words`. The builder gains only prior words not pending a pop, plus pushes. At most one pop is counted per prior word. |
| Merge.Complete | src/store/fst.rs:639-661 | The final loop keeps the builder sorted and within `max_words`, and it adds only pushes. |
| Merge.Rebuild | src/store/fst.rs:541-661 | The rebuilt FST is strictly increasing and has at most `max_words` keys. It holds only prior words not pending a pop, plus pending pushes. Moved plus pushed equals its size, and popped is at most the number of prior words. |
| MergeFacts.DrainShape | src/store/fst.rs:566-609 | Without a tripped limit, the inner loop inserts a prefix of the sorted pushes, all successfully, and leaves exactly the suffix. |
| MergeFacts.DrainBoundary | src/store/fst.rs:566-609 | Without a tripped limit, the inner loop stops at the first push that sorts after the prior word, and the last push it drained sorts at or before that word. |
| MergeFacts.DrainRoom | src/store/fst.rs:576-584 | When the byte count stays under the limit and there is room for every push, the inner loop never trips a limit. |
| MergeFacts.CompleteExact | src/store/fst.rs:639-661 | Without a tripped limit, the final loop inserts every remaining push. With room for them all, it never trips. |
| MergeFacts.StepExact | src/store/fst.rs:557-634 | Without a tripped limit, one turn preserves a set: the builder's keys plus the remaining pushes equal what it started with, plus the prior word unless popped. Both stay sorted, and the builder still sorts before every remaining push. |
| MergeFacts.StepCounts | src/store/fst.rs:557-634 | When the prior word is not among the pushes, every insert of the turn succeeds, so the counters grow by exactly the words inserted. With room for all of them, no limit trips. |
| MergeFacts.MergeOldExact | src/store/fst.rs:557-635 | Without a tripped limit, after the main loop the builder and the remaining pushes hold exactly the prior words not pending a pop, plus the pushes. Both are sorted and in order relative to each other. |
| MergeFacts.MergeOldPopped | src/store/fst.rs:612-633 | Without a tripped limit, the popped counter equals the number of prior words pending a pop. |
| MergeFacts.MergeOldCounts | src/store/fst.rs:557-635 | When pushes and prior words are disjoint, every prior word not popped is moved and every drained push is counted. With room for all of them, no limit trips. |
| MergeFacts.RebuildElems | src/store/fst.rs:541-661 | Without a tripped limit, the rebuilt FST holds exactly the prior words not pending a pop, plus the pending pushes. |
| MergeFacts.MergeExact | src/store/fst.rs:541-661 | Without a tripped limit, the rebuilt FST is exactly the sorted enumeration of (prior minus pops) plus pushes, and popped counts the prior words pending a pop. |
| MergeFacts.MergeFits | src/store/fst.rs:541-661 | Suppose the pushes are disjoint from the prior words, bytes stay under the limit, and the result fits in `max_words`. Then no limit trips: moved equals the surviving prior words and pushed equals the pending pushes. |
| Limits.OverLimits | src/store/fst.rs:1250-1275 | A graph is full when its bytes reach `max_size` KiB or its words reach `max_words`; either limit alone suffices. |
| Limits.OverLimitsMonotonic | src/store/fst.rs:1250-1275 | A full graph stays full as it gains bytes or words, and a graph exactly at either limit is already full. |
| Words.WordOverLimit | src/store/fst.rs:1182-1190 | A word is refused when it is longer than 40 bytes; a word of exactly 40 bytes is accepted. |
| Words.SortedSeq | src/store/fst.rs:541-552 | The sorted pending pushes are strictly increasing and hold exactly the words of the set, one each. |
| Words.ValidUtf8 | src/store/fst.rs:1192-1211 | A word converts to a string exactly when it is well-formed UTF-8 as section 4 of RFC 3629 defines it. |
| Words.AsciiValid | src/store/fst.rs:1192-1211 | Every ASCII word converts to a string. |
| Words.Utf8Boundaries | src/store/fst.rs:1192-1211 | A stray continuation byte, an overlong form, an encoded surrogate, a code point above U+10FFFF and a truncated character are refused, and two-byte and four-byte characters are accepted. |
| Store.ShouldConsolidate | src/store/fst.rs:884-906 | The store ends up in the register. Its time is stamped to now only if it was not already registered. Nothing else changes. |
| Store.PushWord | src/store/fst.rs:1052-1090 | A word over 40 bytes changes nothing and reports false. Otherwise the word leaves the pending pops. It joins the pending pushes, and the call reports true, exactly when it is not committed, not already pending, pending pushes are below `max_words`, and the FST is not over its limits. The store is scheduled only on success, and its time is stamped to now exactly when that first schedules it. |
| Store.PopWord | src/store/fst.rs:1092-1124 | A word over 40 bytes changes nothing and reports false. Otherwise the word leaves the pending pushes. It joins the pending pops, and the call reports true, exactly when it is committed and not already pending a pop. The store is scheduled only on success, and its time is stamped to now exactly when that first schedules it. |
| Store.PushWordKeeps | src/store/fst.rs:1060-1085 | A push keeps the invariant that pushes and pops are disjoint, pushes are never committed, and pops always are. It also keeps pushes within `max_words` and a changed store registered. |
| Store.PopWordKeeps | src/store/fst.rs:1100-1119 | A pop keeps the same invariant. |
| Store.PushWordView | src/store/fst.rs:1052-1090 | A push adds the word to the words the store will hold when it succeeds or when it cancels a pending pop. In every other case the view is unchanged. A word already in the view is never reported as pushed. |
| Store.PopWordView | src/store/fst.rs:1092-1124 | A pop removes the word from the words the store will hold, unless it is over-long. |
| Store.PushThenPop | src/store/fst.rs:1052-1124 | A successful push followed by a pop of the same word restores the pending sets. |
| Store.PopThenPush | src/store/fst.rs:1052-1124 | A successful pop followed by a push of the same word restores the pending sets. |
| Store.RunKeeps | src/store/fst.rs:1052-1124 | Any sequence of pushes and pops keeps the bookkeeping invariant and the scheduling. |
| Pool.Close | src/store/fst.rs:753-763 | The key is gone from the pool and the register, and every other key is untouched. |
| Pool.CloseKeeps | src/store/fst.rs:753-763 | Closing keeps the pool invariant. |
| Pool.EraseReply | src/store/fst.rs:977-1000 | The reply is 1 when the path existed and was removed, an error when its removal failed, and 0 when it did not exist. |
| Pool.EraseCollection | src/store/fst.rs:930-1001 | No open store of the collection remains, and none of them stays registered. Every key outside the collection's open stores is untouched. The reply follows the disk outcome. |
| Pool.EraseCollectionKeeps | src/store/fst.rs:930-1001 | The erasure keeps the pool invariant. |
| Pool.EraseCollectionLeavesClosed | src/store/fst.rs:941-973 | A registered key of the collection whose store is not open stays in the register, because only open stores are force-closed. |
| Pool.EraseBucket | src/store/fst.rs:1003-1048 | The bucket's store is closed and unregistered, every other key is untouched, and the reply follows the disk outcome. |
| Pool.PoolPushWord | src/store/fst.rs:1052-1090 | A push through the pool changes only the target's entry, which becomes the pushed store, and the register becomes the push's register. It reports true exactly under the push guard. |
| Pool.PoolPopWord | src/store/fst.rs:1092-1124 | A pop through the pool changes only the target's entry, which becomes the popped store, and the register becomes the pop's register. It reports true exactly under the pop guard. |
| Pool.PoolPushWordKeeps | src/store/fst.rs:1052-1090 | A push through the pool keeps the pool invariant. |
| Pool.PoolPopWordKeeps | src/store/fst.rs:1092-1124 | A pop through the pool keeps the pool invariant. |
| Consolidate.ConsolidateItem | src/store/fst.rs:505-720 | With no pending change, the store is untouched and the report is `(false, 0, 0, 0)`. Otherwise both pending sets are emptied whatever happens. Without the prior FST the report is `(false, 0, 0, 0)`. Moved plus pushed never exceeds `max_words`. The store should close exactly when the old FST opened and the builder finished. The finished FST is sorted, holds only (prior minus pops) plus pushes, and has at most `max_words` keys. |
| Consolidate.ConsolidateExact | src/store/fst.rs:505-720 | Suppose the disk holds the committed words, bytes stay under the limit, and the pending result fits. Then the new FST is exactly the sorted view of the store, and the moved, pushed and popped counts are exact. |
| Consolidate.Due | src/store/fst.rs:198-228 | A key is due exactly when it is registered, open, and either forced or unconsolidated for at least `consolidate_after` seconds. |
| Consolidate.ConsolidatePool | src/store/fst.rs:174-308 | The due keys leave the register. Each due store either has its pending sets emptied or, when its rebuild finished, leaves the pool. Every other key is untouched. |
| Consolidate.ConsolidatePoolKeeps | src/store/fst.rs:174-308 | The pass keeps the pool invariant. |
| Consolidate.ForcedPassClears | src/store/fst.rs:174-308 | After a forced pass, no open store has pending changes. |
| Lookup.FindWordsStream | src/store/fst.rs:1192-1211 | The found words stay as an unchanged prefix. Each appended word is valid UTF-8, comes from the stream, and was not already found, so no duplicates appear. The result grows by at most the budget: up to `limit` in total, but one more word even when already full. |
| Lookup.FindWordsTakesFresh | src/store/fst.rs:1192-1211 | The collector appends exactly the first budget-many fresh valid words of the stream, in order. |
| Lookup.FindWordsComplete | src/store/fst.rs:1192-1211 | When the result stays below `limit`, every valid UTF-8 word of the stream is in it. |
| Lookup.SuggestWords | src/store/fst.rs:1126-1160 | An over-long word gives `None`. A result is non-empty and duplicate-free, has at most `limit` words (one when `limit` is 0), and every word in it is valid UTF-8 from the completion stream or from the typo stream searched with the word's typo factor. |
| Lookup.SuggestWordsTakes | src/store/fst.rs:1126-1160 | The suggestions are the first fresh valid completions, up to `limit` (one when `limit` is 0). When those fall short of `limit` and the typo search ran, the first fresh valid corrections follow, filling up to `limit`. The result is `None` exactly when both gave nothing. |
| Lookup.SuggestCompletionsFirst | src/store/fst.rs:1138-1153 | Completions come first in the result. When the result is shorter than `limit`, it contains every valid completion. |
| Lookup.ListWords | src/store/fst.rs:1162-1176 | The listing fails exactly when some word is not valid UTF-8. Otherwise it is the graph from `offset` on, cut to `limit` words. |
| Lookup.ListWordsPages | src/store/fst.rs:1162-1176 | Two consecutive pages concatenate to the page spanning both. |
| Lookup.ListWordsSorted | src/store/fst.rs:1162-1176 | A page of a sorted graph is sorted. |
| Paths.Extension | src/store/fst.rs:90-98 | Every extension starts with `.fst`, and the three end in different letters. |
| Paths.Hex | src/store/fst.rs:765-781 | Hash names are non-empty lower-case hexadecimal and start with `0` only for zero. |
| Paths.HexRoundTrip | src/store/fst.rs:400-407 | Reading a hash name back in base 16 gives the hash it was written from. |
| Paths.HexInjective | src/store/fst.rs:765-781 | Distinct hashes get distinct names. |
| Paths.PathOf | src/store/fst.rs:765-781 | The path is the collection's hex directory plus, for a bucket, its hex name followed by the mode's extension. |
| Paths.StripExtension | src/store/fst.rs:1232-1236 | A name is a bucket name exactly when it is longer than the extension and ends with it. The stripped name is non-empty and gives the name back with the extension appended. |
| Paths.StripOwn | src/store/fst.rs:1232-1236 | A non-empty name followed by a mode's extension strips back to that name under the same mode. |
| Paths.StripOther | src/store/fst.rs:1232-1236 | A name followed by one mode's extension is never taken for a file of another mode. |
| Paths.StripPathOf | src/store/fst.rs:342-350 | The file written for a bucket strips back to its hex name under its own mode, and under no other mode. |
| Paths.CountCollectionBuckets | src/store/fst.rs:1215-1248 | The count is 0 when the collection directory is missing and an error when it cannot be listed. Otherwise it is the number of listed entries whose name carries the permanent extension, with failed entries skipped. |
| Paths.DumpBuckets | src/store/fst.rs:335-358 | The walk of a collection directory hands at most one bucket per entry to the per-bucket action. When it goes through, no entry failed and the action took every bucket. Only the last bucket handed can be one the action failed on. |
| Paths.DumpOk | src/store/fst.rs:335-358 | The walk goes through exactly when no entry failed and the action took every bucket it was handed. |
| Paths.DumpAppend | src/store/fst.rs:335-358 | Over a listing split in two, a walk whose first part went through continues with the second part's buckets and ends with its outcome. A walk whose first part failed stops there, keeping what was handed before the failure. |
| Paths.DumpBucketsSound | src/store/fst.rs:335-358 | Every bucket handed over names a regular file of the listing, whose name is that bucket plus the mode's extension. |
| Paths.DumpWithinCount | src/store/fst.rs:335-358 | The walk hands over at most as many buckets as the count finds, and exactly as many when it goes through and every entry is a regular file. |
| Paths.DumpOwnFiles | src/store/fst.rs:335-358 | On a directory of the store's own files, with an action that takes every bucket, the walk hands over exactly their hex bucket names, in order, and goes through. |
| Paths.HexNamesParse | src/store/fst.rs:400-407 | The hex names of a bucket list parse back to its hashes. |

## Left out

- Locking and threads (`GRAPH_ACCESS_LOCK`, `GRAPH_ACQUIRE_LOCK`, `GRAPH_REBUILD_LOCK`, the `RwLock`s, `thread::yield_now`). They only order concurrent callers. The model runs each operation on its own.
- `SystemTime`. Times are integer seconds given to the operations. `elapsed().unwrap()` panics when the clock went backwards, and that panic is not modelled. There, the model computes a negative age, which is never due unless forced.
- File-system I/O. Whether a path exists, whether removing it succeeded, and what a directory listing returned are inputs. For a rebuild, the prior FST read from disk and `finish()` succeeding are inputs. Opening the old FST, creating the temporary directory or file, and starting the builder are folded into "prior FST available or not". The result of the final `rename` is not modelled, because it does not change what `consolidate_item` returns.
- FST library internals: the FST's `size()` is an input number and `bytes_written()` an input function. The regex of `lookup_begins` and the Levenshtein automaton of `lookup_typos` are given as the word streams they produce. A failure to build either one is a missing stream.
- `StoreKeyerHasher::to_compact`, which turns names into hashes, and the `RadixNum` conversion. Keys are given as hashes. Reading names back in base 16 is modelled by `ParseHex`.
- The generic pool code (`acquire`, `janitor`, the `build`/`open` path that loads a graph into the pool, `last_used`). Its code is not part of this model. Stores are taken as already open.
- The contents of `backup_item` and `restore_item`, which stream words to and from files. Of `dump_action`, only the walk inside one collection directory is modelled; the per-bucket action's outcome on each bucket is an input. The outer loop over collection directories and its `create_dir_all` are I/O.
- The `count`, `count_words` and `cardinality` accessors, which only report sizes.
- Consolidate.ConsolidatePool: the moved/pushed/popped totals of a pass are only logged, so they are not returned. The due stores are rebuilt one by one in the source. The model rebuilds them together, which is the same because each rebuild touches only its own store.
- Machine integer widths: `max_size * 1024` and the counters are `usize` in the source. The model uses unbounded integers and does not model overflow.
- Logging and `APP_CONF` loading.

## Behaviour worth knowing

These follow the source as written:

- `find_words_stream` checks the limit only after appending. Called with a limit already reached, it still appends one word. So `suggest_words` with a limit of 0 returns up to one word.
- The empty word falls into the catch-all arm of the typo factor and gets 3.
- A pending push that is also among the prior FST's words makes the second insert fail. The merge skips that insert and no counter records it. Such a duplicate cannot arise from `push_word`, which refuses committed words. It can arise when the file on disk differs from the open graph.
- Erasing a collection unregisters only the keys whose store is open.
