/** Where graphs live on disk, and how directory listings are read back.

    A graph's file is `<root>/<collection hash>/<bucket hash><extension>`,
    the hashes written in lower-case hexadecimal (`{:x?}`) and the extension
    chosen by the path mode. Counting a collection's buckets and the
    backup/restore walk both recognise bucket files by their extension and
    strip it to recover the bucket name. */
module Paths {
  import opened Wrappers
  import opened Store

  /** `StoreFSTPathMode`. */
  datatype PathMode = Permanent | Temporary | Backup

  /** `StoreFSTPathMode::extension`. */
  function Extension(mode: PathMode): (e: string)
    ensures |e| >= 4 && e[..4] == ".fst"
    ensures e[|e| - 1] == match mode case Permanent => 't' case Temporary => 'p' case Backup => 'k'
  {
    match mode
    case Permanent => ".fst"
    case Temporary => ".fst.tmp"
    case Backup => ".fst.bck"
  }

  predicate IsHexDigit(c: char) {
    '0' <= c <= '9' || 'a' <= c <= 'f'
  }

  function HexDigit(d: nat): (c: char)
    requires d < 16
    ensures IsHexDigit(c)
  {
    if d < 10 then '0' + d as char else 'a' + (d - 10) as char
  }

  function DigitValue(c: char): (d: nat)
    requires IsHexDigit(c)
    ensures d < 16 && HexDigit(d) == c
  {
    if c <= '9' then (c - '0') as nat else (c - 'a') as nat + 10
  }

  /** Lower-case hexadecimal without leading zeros, as `{:x?}` writes an
      integer. */
  function Hex(n: nat): (s: string)
    ensures |s| > 0 && forall i :: 0 <= i < |s| ==> IsHexDigit(s[i])
    ensures s[0] == '0' <==> n == 0
    decreases n
  {
    if n < 16 then [HexDigit(n)] else Hex(n / 16) + [HexDigit(n % 16)]
  }

  /** Reading a base-16 name back into a hash, as the backup walk does. */
  function ParseHex(s: string): nat
    requires forall i :: 0 <= i < |s| ==> IsHexDigit(s[i])
    decreases |s|
  {
    if |s| == 0 then 0 else ParseHex(s[..|s| - 1]) * 16 + DigitValue(s[|s| - 1])
  }

  lemma DigitRoundTrip(d: nat)
    requires d < 16
    ensures DigitValue(HexDigit(d)) == d
  {
  }

  /** The names the store writes read back to the hashes they came from. */
  lemma {:induction false} HexRoundTrip(n: nat)
    ensures ParseHex(Hex(n)) == n
    decreases n
  {
    DigitRoundTrip(n % 16);
    if n >= 16 {
      HexRoundTrip(n / 16);
      var s := Hex(n);
      assert s[..|s| - 1] == Hex(n / 16);
    }
  }

  /** Distinct hashes get distinct names. */
  lemma HexInjective(a: nat, b: nat)
    requires Hex(a) == Hex(b)
    ensures a == b
  {
    HexRoundTrip(a);
    HexRoundTrip(b);
  }

  /** A graph's location below the store root: the collection directory and,
      for a bucket, the file name. */
  datatype FstPath = FstPath(dir: string, file: Option<string>)

  /** `StoreFSTBuilder::path`. */
  function PathOf(mode: PathMode, collection: Atom, bucket: Option<Atom>): (p: FstPath)
    ensures p.dir == Hex(collection)
    ensures p.file.Some? <==> bucket.Some?
    ensures bucket.Some? ==> p.file.value == Hex(bucket.value) + Extension(mode)
  {
    FstPath(Hex(collection), match bucket case Some(b) => Some(Hex(b) + Extension(mode)) case None => None)
  }

  /** A bucket file name for the mode: longer than the extension and ending
      with it. The bucket name is what precedes the extension. */
  function StripExtension(name: string, mode: PathMode): (r: Option<string>)
    ensures r.Some? <==> |name| > |Extension(mode)| && name[|name| - |Extension(mode)|..] == Extension(mode)
    ensures r.Some? ==> |r.value| > 0 && r.value + Extension(mode) == name
  {
    var ext := Extension(mode);
    if |name| > |ext| && name[|name| - |ext|..] == ext then
      assert name[..|name| - |ext|] + ext == name;
      Some(name[..|name| - |ext|])
    else None
  }

  lemma StripOwn(name: string, mode: PathMode)
    requires |name| > 0
    ensures StripExtension(name + Extension(mode), mode) == Some(name)
  {
    var file := name + Extension(mode);
    assert file[|name|..] == Extension(mode);
    assert file[..|name|] == name;
  }

  /** The three extensions end in different letters, so no file name ends
      with two of them. */
  lemma StripOther(name: string, mode: PathMode, other: PathMode)
    requires other != mode
    ensures StripExtension(name + Extension(mode), other).None?
  {
    var file := name + Extension(mode);
    var ext := Extension(other);
    assert file[|file| - 1] == Extension(mode)[|Extension(mode)| - 1];
    if |file| > |ext| {
      assert file[|file| - |ext|..][|ext| - 1] == file[|file| - 1];
    }
  }

  /** The file the store writes for a bucket strips back to its name, and
      only under its own mode: a temporary or backup file is never taken for
      a permanent one, nor the other way round. */
  lemma StripPathOf(mode: PathMode, other: PathMode, collection: Atom, bucket: Atom)
    ensures StripExtension(PathOf(mode, collection, Some(bucket)).file.value, mode) == Some(Hex(bucket))
    ensures other != mode ==> StripExtension(PathOf(mode, collection, Some(bucket)).file.value, other).None?
  {
    StripOwn(Hex(bucket), mode);
    if other != mode {
      StripOther(Hex(bucket), mode, other);
    }
  }

  datatype Kind = File | Dir | Other

  /** A directory entry as the walk sees it: its name when that is valid
      Unicode, and its type when reading it succeeded. */
  datatype Entry = Entry(name: Option<string>, kind: Option<Kind>)

  /** The bucket an entry names under the mode, whatever its type. */
  function EntryBucket(e: Entry, mode: PathMode): Option<string> {
    match e.name
    case Some(n) => StripExtension(n, mode)
    case None => None
  }

  /** Reference count: the listed entries (failed entries skipped) that name
      a permanent bucket. */
  function BucketCount(entries: seq<Result<Entry>>): nat
    decreases |entries|
  {
    if |entries| == 0 then 0
    else
      var here := if entries[0].Ok? && EntryBucket(entries[0].value, Permanent).Some? then 1 else 0;
      here + BucketCount(entries[1..])
  }

  lemma {:induction false} BucketCountAppend(entries: seq<Result<Entry>>, e: Result<Entry>)
    ensures BucketCount(entries + [e]) == BucketCount(entries) + BucketCount([e])
    decreases |entries|
  {
    if |entries| > 0 {
      assert (entries + [e])[1..] == entries[1..] + [e];
      BucketCountAppend(entries[1..], e);
    } else {
      assert entries + [e] == [e];
    }
  }

  /** `count_collection_buckets`: 0 when the collection directory does not
      exist, an error when it cannot be listed, otherwise the number of
      entries whose name ends in the permanent extension. `listing` is what
      reading the directory gave. */
  method CountCollectionBuckets(dirExists: bool, listing: Option<seq<Result<Entry>>>) returns (r: Result<nat>)
    ensures !dirExists ==> r == Ok(0)
    ensures dirExists ==> (r.Err? <==> listing.None?)
    ensures dirExists && listing.Some? ==> r == Ok(BucketCount(listing.value))
  {
    if !dirExists {
      return Ok(0);
    }
    if listing.None? {
      return Err;
    }
    var entries := listing.value;
    var count := 0;
    var i := 0;
    while i < |entries|
      invariant 0 <= i <= |entries|
      invariant count == BucketCount(entries[..i])
    {
      BucketCountAppend(entries[..i], entries[i]);
      assert entries[..i + 1] == entries[..i] + [entries[i]];
      if entries[i].Ok? && EntryBucket(entries[i].value, Permanent).Some? {
        count := count + 1;
      }
      i := i + 1;
    }
    assert entries[..i] == entries;
    return Ok(count);
  }

  /** How the backup/restore walk over one collection directory went: the
      bucket names handed to the per-bucket action, in order, and whether
      the walk reached the end without an error. */
  datatype Walk = Walk(handed: seq<string>, ok: bool)

  /** No entry of the listing failed. */
  predicate AllListed(entries: seq<Result<Entry>>) {
    forall i :: 0 <= i < |entries| ==> entries[i].Ok?
  }

  /** The action succeeded on every name. */
  predicate AllTaken(names: seq<string>, itemOk: string -> bool) {
    forall k :: 0 <= k < |names| ==> itemOk(names[k])
  }

  /** The walk over one collection directory (the inner loop of
      `dump_action`): every regular file whose name ends in the mode's
      extension is handed, minus the extension, to the per-bucket action,
      whose outcome on each name is `itemOk`. A failed entry stops the walk
      before anything more is handed; a failed action stops it right after
      the name it failed on. Whatever was handed before stays handed. */
  function DumpBuckets(entries: seq<Result<Entry>>, mode: PathMode, itemOk: string -> bool): (r: Walk)
    ensures |r.handed| <= |entries|
    ensures r.ok ==> AllListed(entries) && AllTaken(r.handed, itemOk)
    ensures |r.handed| > 0 ==> AllTaken(r.handed[..|r.handed| - 1], itemOk)
    decreases |entries|
  {
    if |entries| == 0 then Walk([], true)
    else if entries[0].Err? then Walk([], false)
    else
      var here := Visited(entries[0].value, mode);
      if |here| > 0 && !itemOk(here[0]) then Walk(here, false)
      else
        var rest := DumpBuckets(entries[1..], mode, itemOk);
        AllListedCons(entries);
        TakenCons(here, rest.handed, itemOk);
        Walk(here + rest.handed, rest.ok)
  }

  lemma AllListedCons(entries: seq<Result<Entry>>)
    requires |entries| > 0
    ensures AllListed(entries) <==> entries[0].Ok? && AllListed(entries[1..])
  {
    if entries[0].Ok? && AllListed(entries[1..]) {
      forall i | 0 <= i < |entries|
        ensures entries[i].Ok?
      {
        if i > 0 {
          assert entries[1..][i - 1] == entries[i];
        }
      }
    }
  }

  lemma TakenCons(here: seq<string>, rest: seq<string>, itemOk: string -> bool)
    requires |here| <= 1 && AllTaken(here, itemOk)
    ensures AllTaken(here + rest, itemOk) <==> AllTaken(rest, itemOk)
    ensures |rest| > 0 && AllTaken(rest[..|rest| - 1], itemOk) ==>
      AllTaken((here + rest)[..|here + rest| - 1], itemOk)
  {
    if AllTaken(rest, itemOk) {
      forall k | 0 <= k < |here + rest|
        ensures itemOk((here + rest)[k])
      {
        if k >= |here| {
          assert (here + rest)[k] == rest[k - |here|];
        }
      }
    }
    if AllTaken(here + rest, itemOk) {
      forall k | 0 <= k < |rest|
        ensures itemOk(rest[k])
      {
        assert (here + rest)[k + |here|] == rest[k];
      }
    }
    if |rest| > 0 && AllTaken(rest[..|rest| - 1], itemOk) {
      var init := (here + rest)[..|here + rest| - 1];
      forall k | 0 <= k < |init|
        ensures itemOk(init[k])
      {
        if k >= |here| {
          assert init[k] == rest[..|rest| - 1][k - |here|];
        }
      }
    }
  }

  /** The walk goes through exactly when no entry failed and the action took
      every name it was handed. */
  lemma {:induction false} DumpOk(entries: seq<Result<Entry>>, mode: PathMode, itemOk: string -> bool)
    ensures var r := DumpBuckets(entries, mode, itemOk);
      r.ok <==> AllListed(entries) && AllTaken(r.handed, itemOk)
    decreases |entries|
  {
    if |entries| > 0 {
      AllListedCons(entries);
      if entries[0].Ok? {
        var here := Visited(entries[0].value, mode);
        if |here| == 0 || itemOk(here[0]) {
          DumpOk(entries[1..], mode, itemOk);
          TakenCons(here, DumpBuckets(entries[1..], mode, itemOk).handed, itemOk);
        }
      }
    }
  }

  /** The names the walk takes from one entry. */
  function Visited(e: Entry, mode: PathMode): seq<string> {
    if e.kind == Some(File) && EntryBucket(e, mode).Some? then [EntryBucket(e, mode).value] else []
  }

  /** The entry a visited name comes from. */
  predicate FileOf(entry: Result<Entry>, name: string, mode: PathMode) {
    entry == Ok(Entry(Some(name + Extension(mode)), Some(File)))
  }

  /** One step of the walk on an entry that did not fail and whose name, if
      any, the action took without error. */
  lemma DumpCons(entries: seq<Result<Entry>>, mode: PathMode, itemOk: string -> bool)
    requires |entries| > 0 && entries[0].Ok?
    requires var here := Visited(entries[0].value, mode); |here| == 0 || itemOk(here[0])
    ensures DumpBuckets(entries, mode, itemOk)
         == var rest := DumpBuckets(entries[1..], mode, itemOk);
            Walk(Visited(entries[0].value, mode) + rest.handed, rest.ok)
  {
  }

  lemma VisitedSound(e: Entry, mode: PathMode)
    ensures forall i :: 0 <= i < |Visited(e, mode)| ==> FileOf(Ok(e), Visited(e, mode)[i], mode)
  {
  }

  /** Every name comes from a regular file of the listing carrying the
      mode's extension. */
  ghost predicate FromListing(names: seq<string>, entries: seq<Result<Entry>>, mode: PathMode) {
    forall i :: 0 <= i < |names| ==> Listed(names[i], entries, mode)
  }

  /** Some regular file of the listing is the name plus the extension. */
  ghost predicate Listed(name: string, entries: seq<Result<Entry>>, mode: PathMode) {
    exists j :: 0 <= j < |entries| && FileOf(entries[j], name, mode)
  }

  lemma FromListingCons(here: seq<string>, rest: seq<string>, entries: seq<Result<Entry>>, mode: PathMode)
    requires |entries| > 0
    requires forall i :: 0 <= i < |here| ==> FileOf(entries[0], here[i], mode)
    requires FromListing(rest, entries[1..], mode)
    ensures FromListing(here + rest, entries, mode)
  {
    var names := here + rest;
    forall i | 0 <= i < |names|
      ensures Listed(names[i], entries, mode)
    {
      if i < |here| {
        assert FileOf(entries[0], names[i], mode);
      } else {
        var k := i - |here|;
        assert names[i] == rest[k] && Listed(rest[k], entries[1..], mode);
        var j :| 0 <= j < |entries[1..]| && FileOf(entries[1..][j], rest[k], mode);
        assert FileOf(entries[j + 1], names[i], mode);
      }
    }
  }

  /** Every name handed to the action is a regular file of the listing
      carrying the mode's extension, minus that extension. */
  lemma {:induction false} DumpBucketsSound(entries: seq<Result<Entry>>, mode: PathMode, itemOk: string -> bool)
    ensures FromListing(DumpBuckets(entries, mode, itemOk).handed, entries, mode)
    decreases |entries|
  {
    if |entries| > 0 && entries[0].Ok? {
      DumpHead(entries, mode, itemOk);
      VisitedSound(entries[0].value, mode);
      DumpBucketsSound(entries[1..], mode, itemOk);
      var here := Visited(entries[0].value, mode);
      if |here| > 0 && !itemOk(here[0]) {
        assert FromListing([], entries[1..], mode);
        FromListingCons(here, [], entries, mode);
        assert here + [] == here;
      } else {
        FromListingCons(here, DumpBuckets(entries[1..], mode, itemOk).handed, entries, mode);
      }
    }
  }

  /** The walk on one entry, given how the walk over the entries after it
      went. */
  function Then(e: Result<Entry>, mode: PathMode, itemOk: string -> bool, rest: Walk): Walk {
    if e.Err? then Walk([], false)
    else
      var here := Visited(e.value, mode);
      if |here| > 0 && !itemOk(here[0]) then Walk(here, false)
      else Walk(here + rest.handed, rest.ok)
  }

  lemma DumpHead(entries: seq<Result<Entry>>, mode: PathMode, itemOk: string -> bool)
    requires |entries| > 0
    ensures DumpBuckets(entries, mode, itemOk) == Then(entries[0], mode, itemOk, DumpBuckets(entries[1..], mode, itemOk))
  {
  }

  /** One entry in front of a walk that went on past some part `x`. */
  lemma ThenAppend(e: Result<Entry>, mode: PathMode, itemOk: string -> bool, x: Walk, y: Walk)
    ensures var first := Then(e, mode, itemOk, x);
      Then(e, mode, itemOk, if x.ok then Walk(x.handed + y.handed, y.ok) else x)
        == if first.ok then Walk(first.handed + y.handed, y.ok) else first
  {
    if e.Ok? && x.ok {
      var here := Visited(e.value, mode);
      assert here + (x.handed + y.handed) == (here + x.handed) + y.handed;
    }
  }

  /** The walk over a listing split in two: when the first part went through,
      the second part's buckets follow the first part's and its outcome is
      the walk's; when the first part failed, the walk stopped there, so
      what was handed before the failure is exactly what was handed. */
  lemma {:induction false} DumpAppend(a: seq<Result<Entry>>, b: seq<Result<Entry>>, mode: PathMode, itemOk: string -> bool)
    ensures var x := DumpBuckets(a, mode, itemOk);
      var y := DumpBuckets(b, mode, itemOk);
      DumpBuckets(a + b, mode, itemOk) == if x.ok then Walk(x.handed + y.handed, y.ok) else x
    decreases |a|
  {
    if |a| == 0 {
      assert a + b == b;
      assert [] + DumpBuckets(b, mode, itemOk).handed == DumpBuckets(b, mode, itemOk).handed;
    } else {
      assert (a + b)[0] == a[0] && (a + b)[1..] == a[1..] + b;
      DumpHead(a, mode, itemOk);
      DumpHead(a + b, mode, itemOk);
      DumpAppend(a[1..], b, mode, itemOk);
      ThenAppend(a[0], mode, itemOk, DumpBuckets(a[1..], mode, itemOk), DumpBuckets(b, mode, itemOk));
    }
  }

  /** The walk hands over no more buckets than the count finds, and, when it
      goes through and every entry is a regular file, exactly as many. */
  lemma {:induction false} DumpWithinCount(entries: seq<Result<Entry>>, itemOk: string -> bool)
    ensures |DumpBuckets(entries, Permanent, itemOk).handed| <= BucketCount(entries)
    ensures (DumpBuckets(entries, Permanent, itemOk).ok
             && forall i :: 0 <= i < |entries| ==> entries[i].Ok? && entries[i].value.kind == Some(File)) ==>
      |DumpBuckets(entries, Permanent, itemOk).handed| == BucketCount(entries)
    decreases |entries|
  {
    if |entries| > 0 {
      DumpWithinCount(entries[1..], itemOk);
      if forall i :: 0 <= i < |entries| ==> entries[i].Ok? && entries[i].value.kind == Some(File) {
        assert forall i :: 0 <= i < |entries[1..]| ==> entries[1..][i].Ok? && entries[1..][i].value.kind == Some(File) by {
          forall i | 0 <= i < |entries[1..]|
            ensures entries[1..][i].Ok? && entries[1..][i].value.kind == Some(File)
          {
            assert entries[1..][i] == entries[i + 1];
          }
        }
      }
    }
  }

  /** The listing of a collection directory holding exactly the files the
      store wrote under a mode for the given buckets. */
  function OwnEntries(mode: PathMode, collection: Atom, buckets: seq<Atom>): (r: seq<Result<Entry>>)
    ensures |r| == |buckets|
    decreases |buckets|
  {
    if |buckets| == 0 then []
    else [Ok(Entry(PathOf(mode, collection, Some(buckets[0])).file, Some(File)))]
         + OwnEntries(mode, collection, buckets[1..])
  }

  function HexNames(buckets: seq<Atom>): (r: seq<string>)
    ensures |r| == |buckets| && forall i :: 0 <= i < |r| ==> r[i] == Hex(buckets[i])
    decreases |buckets|
  {
    if |buckets| == 0 then [] else [Hex(buckets[0])] + HexNames(buckets[1..])
  }

  /** On a directory of the store's own files, with an action that takes
      every bucket, the walk hands over exactly their hex names, in order,
      and goes through. */
  lemma {:induction false} DumpOwnFiles(mode: PathMode, collection: Atom, buckets: seq<Atom>, itemOk: string -> bool)
    requires forall i :: 0 <= i < |buckets| ==> itemOk(Hex(buckets[i]))
    ensures DumpBuckets(OwnEntries(mode, collection, buckets), mode, itemOk) == Walk(HexNames(buckets), true)
    decreases |buckets|
  {
    if |buckets| > 0 {
      var entries := OwnEntries(mode, collection, buckets);
      assert entries[1..] == OwnEntries(mode, collection, buckets[1..]);
      StripPathOf(mode, mode, collection, buckets[0]);
      assert Visited(entries[0].value, mode) == [Hex(buckets[0])];
      DumpCons(entries, mode, itemOk);
      DumpOwnFiles(mode, collection, buckets[1..], itemOk);
    }
  }

  /** The hex names of a bucket list parse back to its hashes. */
  lemma HexNamesParse(buckets: seq<Atom>)
    ensures forall i :: 0 <= i < |buckets| ==> ParseHex(HexNames(buckets)[i]) == buckets[i]
  {
    forall i | 0 <= i < |buckets|
      ensures ParseHex(Hex(buckets[i])) == buckets[i]
    {
      HexRoundTrip(buckets[i]);
    }
  }
}
