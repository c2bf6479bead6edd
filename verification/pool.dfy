/** The pool of open graphs (`GRAPH_POOL`) and the consolidation register
    (`GRAPH_CONSOLIDATE`), with the operations that take stores out of them:
    `close` and the two erasures. */
module Pool {
  import opened Words
  import opened Wrappers
  import opened Limits
  import opened Store

  datatype Pool = Pool(stores: map<Key, Store.Fst>, register: set<Key>)

  /** Every open store sits under its own key, keeps its bookkeeping
      invariants, and is registered when it has pending changes. */
  predicate PoolInv(cfg: Config, p: Pool) {
    forall k :: k in p.stores ==>
      && p.stores[k].target == k
      && WellFormed(p.stores[k]) && PushBounded(cfg, p.stores[k])
      && Scheduled(p.stores[k], p.register)
  }

  /** `p` and `q` agree on every key outside `gone`. */
  ghost predicate SameOutside(p: Pool, q: Pool, gone: set<Key>) {
    && (forall k :: k !in gone ==> (k in q.stores <==> k in p.stores))
    && (forall k :: k !in gone && k in q.stores ==> q.stores[k] == p.stores[k])
    && (forall k :: k !in gone ==> (k in q.register <==> k in p.register))
  }

  /** `StoreFSTBuilder::close`: drop the store from the pool and from the
      register. */
  function Close(p: Pool, key: Key): (r: Pool)
    ensures key !in r.stores && key !in r.register
    ensures SameOutside(p, r, {key})
  {
    Pool(p.stores - {key}, p.register - {key})
  }

  lemma CloseKeeps(cfg: Config, p: Pool, key: Key)
    requires PoolInv(cfg, p)
    ensures PoolInv(cfg, Close(p, key))
  {
    var r := Close(p, key);
    forall k | k in r.stores
      ensures Scheduled(r.stores[k], r.register)
    {
      assert k != key && r.stores[k] == p.stores[k];
    }
  }

  /** What the file system reports for the on-disk part of an erasure:
      whether the path exists, and whether removing it succeeded. */
  datatype Disk = Disk(present: bool, removed: bool)

  /** The erasure's reply: 1 when something was removed from disk, 0 when
      there was nothing there, an error when the removal failed. */
  function EraseReply(d: Disk): (r: Result<nat>)
    ensures r.Ok? <==> !d.present || d.removed
    ensures r.Ok? ==> r.value == if d.present then 1 else 0
  {
    if d.present then (if d.removed then Ok(1) else Err) else Ok(0)
  }

  /** The open stores of one collection. */
  function InCollection(p: Pool, collection: Atom): set<Key> {
    set k | k in p.stores && k.collection == collection
  }

  /** `proceed_erase_collection`: force-close every open store of the
      collection, removing each from the pool and the register, then erase
      the collection's directory. Registered keys of the collection whose
      store is no longer open stay registered. */
  function EraseCollection(p: Pool, collection: Atom, d: Disk): (r: (Pool, Result<nat>))
    ensures forall k :: k in r.0.stores ==> k.collection != collection
    ensures forall k :: k in p.stores && k.collection == collection ==> k !in r.0.register
    ensures SameOutside(p, r.0, InCollection(p, collection))
    ensures r.1 == EraseReply(d)
  {
    var gone := InCollection(p, collection);
    (Pool(p.stores - gone, p.register - gone), EraseReply(d))
  }

  lemma EraseCollectionKeeps(cfg: Config, p: Pool, collection: Atom, d: Disk)
    requires PoolInv(cfg, p)
    ensures PoolInv(cfg, EraseCollection(p, collection, d).0)
  {
    var r := EraseCollection(p, collection, d).0;
    forall k | k in r.stores
      ensures Scheduled(r.stores[k], r.register)
    {
      assert k !in InCollection(p, collection);
    }
  }

  /** A registered key whose store was already closed survives the erasure
      of its collection. */
  lemma EraseCollectionLeavesClosed(p: Pool, collection: Atom, d: Disk, k: Key)
    requires k in p.register && k !in p.stores && k.collection == collection
    ensures k in EraseCollection(p, collection, d).0.register
  {
    assert k !in InCollection(p, collection);
  }

  /** `proceed_erase_bucket`: close the bucket's store, then erase its file. */
  function EraseBucket(p: Pool, key: Key, d: Disk): (r: (Pool, Result<nat>))
    ensures key !in r.0.stores && key !in r.0.register
    ensures SameOutside(p, r.0, {key})
    ensures r.1 == EraseReply(d)
  {
    (Close(p, key), EraseReply(d))
  }

  /** A word action on an open store, through the pool (a store is opened
      under the key it targets). */
  function PoolPushWord(cfg: Config, p: Pool, key: Key, now: int, w: Word): (r: (Pool, bool))
    requires key in p.stores && p.stores[key].target == key
    ensures key in r.0.stores && SameOutside(p, r.0, {key})
    ensures r.1 <==> !WordOverLimit(w) && PushAccepted(cfg, p.stores[key], w)
    ensures var o := PushWord(cfg, p.stores[key], p.register, now, w);
      r.0.stores[key] == o.store && r.0.register == o.register
  {
    var o := PushWord(cfg, p.stores[key], p.register, now, w);
    (Pool(p.stores[key := o.store], o.register), o.done)
  }

  function PoolPopWord(p: Pool, key: Key, now: int, w: Word): (r: (Pool, bool))
    requires key in p.stores && p.stores[key].target == key
    ensures key in r.0.stores && SameOutside(p, r.0, {key})
    ensures r.1 <==> !WordOverLimit(w) && w in Elems(p.stores[key].graph) && w !in p.stores[key].pending.pop
    ensures var o := PopWord(p.stores[key], p.register, now, w);
      r.0.stores[key] == o.store && r.0.register == o.register
  {
    var o := PopWord(p.stores[key], p.register, now, w);
    (Pool(p.stores[key := o.store], o.register), o.done)
  }

  /** Word actions keep the pool invariant: a store's register entry only
      ever grows by its own key. */
  lemma PoolPushWordKeeps(cfg: Config, p: Pool, key: Key, now: int, w: Word)
    requires PoolInv(cfg, p) && key in p.stores
    ensures PoolInv(cfg, PoolPushWord(cfg, p, key, now, w).0)
  {
    PushWordKeeps(cfg, p.stores[key], p.register, now, w);
  }

  lemma PoolPopWordKeeps(cfg: Config, p: Pool, key: Key, now: int, w: Word)
    requires PoolInv(cfg, p) && key in p.stores
    ensures PoolInv(cfg, PoolPopWord(p, key, now, w).0)
  {
    PopWordKeeps(cfg, p.stores[key], p.register, now, w);
  }
}
