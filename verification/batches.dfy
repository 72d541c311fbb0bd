/** The batched writer behind `confirmedReplace` and `confirmedInsert`: the items
    are cut into consecutive chunks of at most 1000, each chunk goes to an unordered
    `insertMany`, a duplicate-key error (code 11000) is swallowed and any other error
    ends the run. Everything here is a function of the collection's value; the class
    in module Store runs the same steps in place. */
module Batches {
  import opened Collection
  import opened Records

  const BatchSize: nat := 1000

  function Min(a: int, b: int): int
  {
    if a <= b then a else b
  }

  /** `Array.prototype.slice(start, end)` for non-negative bounds: a window that is
      clipped at the end of the array and empty when it starts past the end. */
  function Slice<T>(s: seq<T>, start: nat, end: nat): (r: seq<T>)
    ensures |r| == if start < end && start < |s| then Min(end, |s|) - start else 0
    ensures forall i :: 0 <= i < |r| ==> r[i] == s[start + i]
  {
    if start < end && start < |s| then s[start..Min(end, |s|)] else []
  }

  /** The chunks `items.slice(index, index + 1000)`, `items.slice(index + 1000, ...)`, ...
      up to (not including) the first empty one. */
  function ChunksFrom<T>(items: seq<T>, index: nat): seq<seq<T>>
    decreases |items| - index
  {
    var chunk := Slice(items, index, index + BatchSize);
    if |chunk| > 0 then [chunk] + ChunksFrom(items, index + BatchSize) else []
  }

  function Chunks<T>(items: seq<T>): seq<seq<T>>
  {
    ChunksFrom(items, 0)
  }

  function Flatten<T>(ss: seq<seq<T>>): seq<T>
  {
    if ss == [] then [] else ss[0] + Flatten(ss[1..])
  }

  // ---------------------------------------------------------------------------
  // Chunking

  /** There are ceil((n - index) / 1000) chunks, and chunk k is the window of
      items starting at index + 1000 k, at most 1000 long and never empty. */
  lemma {:induction false} ChunksFromShape<T>(items: seq<T>, index: nat)
    ensures |ChunksFrom(items, index)| ==
              if index < |items| then (|items| - index + BatchSize - 1) / BatchSize else 0
    ensures forall k :: 0 <= k < |ChunksFrom(items, index)| ==>
              ChunksFrom(items, index)[k] ==
                items[index + BatchSize * k .. Min(index + BatchSize * (k + 1), |items|)]
    ensures forall k :: 0 <= k < |ChunksFrom(items, index)| ==>
              0 < |ChunksFrom(items, index)[k]| <= BatchSize
    decreases |items| - index
  {
    var cs := ChunksFrom(items, index);
    if index < |items| {
      ChunksFromShape(items, index + BatchSize);
      var rest := ChunksFrom(items, index + BatchSize);
      ChunksFromFirst(items, index);
      if index + BatchSize < |items| {
        assert (|items| - index + BatchSize - 1) / BatchSize ==
               1 + (|items| - (index + BatchSize) + BatchSize - 1) / BatchSize;
      } else {
        assert |rest| == 0;
      }
      forall k | 0 <= k < |cs|
        ensures cs[k] == items[index + BatchSize * k .. Min(index + BatchSize * (k + 1), |items|)]
      {
        if k > 0 {
          assert cs[k] == rest[k - 1];
          assert index + BatchSize * k == index + BatchSize + BatchSize * (k - 1);
        }
      }
    }
  }

  /** Concatenating the chunks from `index` on gives back `items[index..]`. */
  lemma {:induction false} FlattenChunksFrom<T>(items: seq<T>, index: nat)
    requires index <= |items|
    ensures Flatten(ChunksFrom(items, index)) == items[index..]
    decreases |items| - index
  {
    if index < |items| {
      var chunk := items[index..Min(index + BatchSize, |items|)];
      if index + BatchSize <= |items| {
        FlattenChunksFrom(items, index + BatchSize);
        assert items[index..] == chunk + items[index + BatchSize..];
      } else {
        assert ChunksFrom(items, index + BatchSize) == [];
        assert chunk == items[index..];
      }
    }
  }

  /** The first m chunks from `index` on concatenate to the m * 1000 items that follow
      `index` (fewer at the end of the list). */
  lemma {:induction false} FlattenChunksPrefix<T>(items: seq<T>, index: nat, m: nat)
    requires index <= |items| && m <= |ChunksFrom(items, index)|
    ensures Flatten(ChunksFrom(items, index)[..m]) == items[index..Min(index + BatchSize * m, |items|)]
    decreases m
  {
    if m > 0 {
      assert index < |items|;
      var chunk := items[index..Min(index + BatchSize, |items|)];
      var rest := ChunksFrom(items, index + BatchSize);
      ChunksFromFirst(items, index);
      FlattenConsPrefix(chunk, rest, m);
      var end := Min(index + BatchSize * m, |items|);
      if m > 1 {
        FlattenChunksPrefix(items, index + BatchSize, m - 1);
        assert index + BatchSize + BatchSize * (m - 1) == index + BatchSize * m;
        assert items[index..end] == chunk + items[index + BatchSize..end];
      } else {
        assert rest[..0] == [];
      }
    }
  }

  lemma ChunksFromFirst<T>(items: seq<T>, index: nat)
    requires index < |items|
    ensures ChunksFrom(items, index) == [items[index..Min(index + BatchSize, |items|)]] + ChunksFrom(items, index + BatchSize)
  {
  }

  lemma FlattenConsPrefix<T>(chunk: seq<T>, rest: seq<seq<T>>, m: nat)
    requires 0 < m <= |rest| + 1
    ensures Flatten(([chunk] + rest)[..m]) == chunk + Flatten(rest[..m - 1])
  {
    assert ([chunk] + rest)[..m][1..] == rest[..m - 1];
  }

  /** One step of the chunk loop: a non-empty slice at `index` is the next chunk and
      the loop goes on from `index + 1000`; an empty one means no chunk is left. */
  lemma NextChunk<T>(items: seq<T>, index: nat, chunks: seq<seq<T>>, k: nat)
    requires k <= |chunks| && ChunksFrom(items, index) == chunks[k..]
    ensures var chunk := Slice(items, index, index + BatchSize);
      && (|chunk| > 0 ==>
            && index < |items| && k < |chunks| && chunks[k] == chunk
            && ChunksFrom(items, index + BatchSize) == chunks[k + 1..]
            && chunks[..k + 1] == chunks[..k] + [chunk])
      && (|chunk| == 0 ==> k == |chunks|)
  {
    var chunk := Slice(items, index, index + BatchSize);
    if |chunk| > 0 {
      assert chunks[k..] == [chunk] + ChunksFrom(items, index + BatchSize);
      assert chunks[k..][1..] == chunks[k + 1..];
    }
  }

  /** `n` items make ceil(n / 1000) chunks; none for an empty list. */
  lemma ChunkCount<T>(items: seq<T>)
    ensures |Chunks(items)| == (|items| + BatchSize - 1) / BatchSize
    ensures items == [] <==> Chunks(items) == []
    ensures Flatten(Chunks(items)) == items
  {
    ChunksFromShape(items, 0);
    FlattenChunksFrom(items, 0);
  }

  /** Every chunk is made of items. */
  lemma ChunksWithin<T(!new)>(items: seq<T>)
    ensures forall j :: 0 <= j < |Chunks(items)| ==> Elements(Chunks(items)[j]) <= Elements(items)
  {
    var cs := Chunks(items);
    ChunksFromShape(items, 0);
    forall j | 0 <= j < |cs| ensures Elements(cs[j]) <= Elements(items) {
      var lo, hi := BatchSize * j, Min(BatchSize * (j + 1), |items|);
      forall t | t in Elements(cs[j]) ensures t in Elements(items) {
        var i :| 0 <= i < |cs[j]| && cs[j][i] == t;
        assert t == items[lo + i];
      }
    }
  }

  /** 2500 items go out as three inserts of 1000, 1000 and 500. */
  lemma ChunksOf2500<T>(items: seq<T>)
    requires |items| == 2500
    ensures |Chunks(items)| == 3
    ensures |Chunks(items)[0]| == 1000 && |Chunks(items)[1]| == 1000 && |Chunks(items)[2]| == 500
  {
    ChunksFromShape(items, 0);
  }

  // ---------------------------------------------------------------------------
  // Unordered insert with an optional unique index on `tx.h`

  /** The documents of an unordered `insertMany` that a unique `tx.h` index lets
      through: those whose hash is not yet stored and not on an earlier document of
      the same call. */
  function Admitted(docs: seq<Txn>, taken: set<string>): (r: seq<Txn>)
    ensures |r| <= |docs|
    ensures |r| == |docs| ==> r == docs
    ensures forall t :: t in r ==> t in docs && t.h !in taken
    ensures HashSet(r) <= HashSet(docs)
    ensures HashSet(docs) <= taken + HashSet(r)
    ensures HashSet(docs) <= taken ==> r == []
    ensures DistinctHashes(r)
  {
    if docs == [] then []
    else
      HashSetCons(docs);
      if docs[0].h in taken then Admitted(docs[1..], taken)
      else
        var rest := Admitted(docs[1..], taken + {docs[0].h});
        AdmitFirst(docs[0], rest);
        [docs[0]] + rest
  }

  lemma HashSetCons(docs: seq<Txn>)
    requires |docs| > 0
    ensures HashSet(docs) == {docs[0].h} + HashSet(docs[1..])
  {
    HashSetAppend([docs[0]], docs[1..]);
    assert docs == [docs[0]] + docs[1..];
  }

  /** Putting a document in front of admitted ones whose hashes differ from its own. */
  lemma AdmitFirst(d: Txn, rest: seq<Txn>)
    requires forall t :: t in rest ==> t.h != d.h
    requires DistinctHashes(rest)
    ensures HashSet([d] + rest) == {d.h} + HashSet(rest)
    ensures DistinctHashes([d] + rest)
  {
    HashSetAppend([d], rest);
    assert ([d] + rest)[1..] == rest;
  }

  /** What an unordered `insertMany` leaves and the error code it reports, if any. */
  datatype InsertResult = InsertResult(coll: seq<Txn>, code: Option<int>)

  /** An unordered `insertMany` that the backend carries out: without a unique index
      every document is appended; with one, the documents a duplicate hash keeps out
      are skipped, the others are still appended, and the call reports 11000. */
  function InsertUnordered(coll: seq<Txn>, docs: seq<Txn>, unique: bool): (r: InsertResult)
    ensures coll <= r.coll
    ensures r.code.None? ==> r.coll == coll + docs
    ensures r.code.Some? ==> unique && r.code.value == DuplicateKeyCode
    ensures unique ==> HashSet(r.coll) == HashSet(coll) + HashSet(docs)
    ensures unique && DistinctHashes(coll) ==> DistinctHashes(r.coll)
    ensures unique && HashSet(docs) <= HashSet(coll) ==> r.coll == coll
    ensures forall t :: t in r.coll[|coll|..] ==> t in docs && (unique ==> t.h !in HashSet(coll))
  {
    if !unique then
      assert (coll + docs)[|coll|..] == docs;
      InsertResult(coll + docs, None)
    else
      var admitted := Admitted(docs, HashSet(coll));
      HashSetAppend(coll, admitted);
      AdmittedKeepsDistinct(coll, admitted);
      assert (coll + admitted)[|coll|..] == admitted;
      InsertResult(coll + admitted, if |admitted| < |docs| then Some(DuplicateKeyCode) else None)
  }

  lemma AdmittedKeepsDistinct(coll: seq<Txn>, admitted: seq<Txn>)
    requires DistinctHashes(admitted)
    requires forall t :: t in admitted ==> t.h !in HashSet(coll)
    ensures DistinctHashes(coll) ==> DistinctHashes(coll + admitted)
  {
    if DistinctHashes(coll) {
      forall x, y | x in coll && y in admitted ensures TxHash(x) != TxHash(y) {
        assert x.h in HashSet(coll);
      }
      AppendDisjointKeys(coll, admitted, TxHash);
    }
  }

  /** A failure the backend gives one `insertMany` call (a network error, say): the
      call reports `code`, and of the documents it would have admitted it has written
      only those in `written` (an unordered insert goes on past a failed document). */
  datatype InsertFault = InsertFault(code: int, written: set<Txn>)

  function WrittenBy(fault: InsertFault): Txn -> bool
  {
    (t: Txn) => t in fault.written
  }

  /** The error code of a call given its fault, when the fault decides it. */
  function FaultCode(fault: Option<InsertFault>): Option<int>
  {
    if fault.Some? then Some(fault.value.code) else None
  }

  /** The same call when the backend may fail it with `fault`: then the call writes
      part of what it would have written, in order, and reports the fault's code. */
  function InsertManyUnordered(coll: seq<Txn>, docs: seq<Txn>, unique: bool, fault: Option<InsertFault>): (r: InsertResult)
    ensures coll <= r.coll
    ensures fault.Some? ==> r.code == FaultCode(fault)
    ensures fault.None? ==> r == InsertUnordered(coll, docs, unique)
    ensures !unique && fault.Some? ==> r.coll == coll + Where(docs, WrittenBy(fault.value))
    ensures unique && fault.Some? ==> r.coll == coll + Where(Admitted(docs, HashSet(coll)), WrittenBy(fault.value))
    ensures fault.Some? ==> forall t :: t in r.coll[|coll|..] ==> t in fault.value.written
    ensures forall t :: t in r.coll[|coll|..] ==> t in docs && (unique ==> t.h !in HashSet(coll))
    ensures unique && DistinctHashes(coll) ==> DistinctHashes(r.coll)
  {
    if fault.None? then InsertUnordered(coll, docs, unique)
    else if unique then
      var written := Where(Admitted(docs, HashSet(coll)), WrittenBy(fault.value));
      WhereKeepsKeysDistinct(Admitted(docs, HashSet(coll)), WrittenBy(fault.value), TxHash);
      AdmittedKeepsDistinct(coll, written);
      assert (coll + written)[|coll|..] == written;
      InsertResult(coll + written, FaultCode(fault))
    else
      var written := Where(docs, WrittenBy(fault.value));
      assert (coll + written)[|coll|..] == written;
      InsertResult(coll + written, FaultCode(fault))
  }

  /** `if (err.code !== 11000) throw err`: no error, or a duplicate-key one. */
  predicate Swallowed(code: Option<int>)
  {
    code.None? || code.value == DuplicateKeyCode
  }

  /** The collection after a run, how many insertMany calls it issued, how it ended. */
  datatype BatchRun = BatchRun(coll: seq<Txn>, issued: nat, outcome: Outcome)

  /** The chunk loop from chunk `k` on; `faults[j]` is the failure the backend gives
      the call for chunk `j`, if any. */
  function RunBatches(coll: seq<Txn>, chunks: seq<seq<Txn>>, unique: bool, faults: seq<Option<InsertFault>>, k: nat): (r: BatchRun)
    requires k <= |chunks|
    ensures k + r.issued <= |chunks|
    ensures coll <= r.coll
    decreases |chunks| - k
  {
    if k == |chunks| then BatchRun(coll, 0, Done)
    else
      var res := InsertManyUnordered(coll, chunks[k], unique, FaultAt(faults, k));
      if !Swallowed(res.code) then BatchRun(res.coll, 1, Thrown(BackendError(res.code.value)))
      else
        var rest := RunBatches(res.coll, chunks, unique, faults, k + 1);
        BatchRun(rest.coll, rest.issued + 1, rest.outcome)
  }

  /** One step of the chunk loop: the call for chunk k either ends the run or is
      followed by the run from chunk k + 1. */
  lemma RunBatchesStep(coll: seq<Txn>, chunks: seq<seq<Txn>>, unique: bool, faults: seq<Option<InsertFault>>, k: nat)
    requires k < |chunks|
    ensures var res := InsertManyUnordered(coll, chunks[k], unique, FaultAt(faults, k));
      var r := RunBatches(coll, chunks, unique, faults, k);
      && (!Swallowed(res.code) ==> r == BatchRun(res.coll, 1, Thrown(BackendError(res.code.value))))
      && (Swallowed(res.code) ==>
            r.issued >= 1 && RunBatches(res.coll, chunks, unique, faults, k + 1) == BatchRun(r.coll, r.issued - 1, r.outcome))
  {
  }

  /** The whole loop of `confirmedInsert` over `items`. Whatever the index and the
      backend do, it only appends items, and with a unique index none whose hash was
      stored before. */
  function InsertBatches(coll: seq<Txn>, items: seq<Txn>, unique: bool, faults: seq<Option<InsertFault>>): (r: BatchRun)
    ensures coll <= r.coll && r.issued <= |Chunks(items)|
    ensures forall t :: t in r.coll[|coll|..] ==> t in items && (unique ==> t.h !in HashSet(coll))
  {
    InsertBatchesAppends(coll, items, unique, faults);
    RunBatches(coll, Chunks(items), unique, faults, 0)
  }

  /** A run ends normally exactly when no call for chunk k or later fails with a
      non-duplicate error, and then it has issued one call per chunk. */
  lemma {:induction false} RunBatchesDone(coll: seq<Txn>, chunks: seq<seq<Txn>>, unique: bool, faults: seq<Option<InsertFault>>, k: nat)
    requires k <= |chunks|
    ensures var r := RunBatches(coll, chunks, unique, faults, k);
      && (r.outcome.Done? <==> forall j :: k <= j < |chunks| ==> Swallowed(FaultCode(FaultAt(faults, j))))
      && (r.outcome.Done? ==> k + r.issued == |chunks|)
    decreases |chunks| - k
  {
    if k < |chunks| {
      var res := InsertManyUnordered(coll, chunks[k], unique, FaultAt(faults, k));
      if Swallowed(res.code) {
        RunBatchesDone(res.coll, chunks, unique, faults, k + 1);
      }
    }
  }

  /** A duplicate-key error is swallowed and the next chunk is still attempted; any
      other error ends the run with that error after the failing chunk, and no later
      chunk is attempted. */
  lemma {:induction false} RunBatchesStopsOnlyAtFatal(coll: seq<Txn>, chunks: seq<seq<Txn>>, unique: bool, faults: seq<Option<InsertFault>>, k: nat)
    requires k <= |chunks|
    ensures var r := RunBatches(coll, chunks, unique, faults, k);
      r.outcome.Thrown? ==>
        && 1 <= r.issued
        && !Swallowed(FaultCode(FaultAt(faults, k + r.issued - 1)))
        && r.outcome == Thrown(BackendError(FaultAt(faults, k + r.issued - 1).value.code))
        && forall j :: k <= j < k + r.issued - 1 ==> Swallowed(FaultCode(FaultAt(faults, j)))
    decreases |chunks| - k
  {
    if k < |chunks| {
      var res := InsertManyUnordered(coll, chunks[k], unique, FaultAt(faults, k));
      if Swallowed(res.code) {
        RunBatchesStopsOnlyAtFatal(res.coll, chunks, unique, faults, k + 1);
      }
    }
  }

  /** Without a unique index: when the calls before chunk m succeed and chunk m fails
      with a non-duplicate error (or m is the end), the chunks before m stay inserted,
      in order, then the part of chunk m the failed call wrote, and nothing else. */
  lemma {:induction false} RunBatchesPlain(coll: seq<Txn>, chunks: seq<seq<Txn>>, faults: seq<Option<InsertFault>>, k: nat, m: nat)
    requires k <= m <= |chunks|
    requires forall j :: k <= j < m ==> FaultAt(faults, j).None?
    requires m < |chunks| ==> !Swallowed(FaultCode(FaultAt(faults, m)))
    ensures var r := RunBatches(coll, chunks, false, faults, k);
      && r.coll == coll + Flatten(chunks[k..m]) +
                   (if m < |chunks| then Where(chunks[m], WrittenBy(FaultAt(faults, m).value)) else [])
      && r.issued == if m < |chunks| then m - k + 1 else m - k
    decreases |chunks| - k
  {
    if k < |chunks| {
      if k == m {
        assert chunks[k..m] == [];
        assert coll + [] == coll;
      } else {
        assert InsertManyUnordered(coll, chunks[k], false, FaultAt(faults, k)).coll == coll + chunks[k];
        RunBatchesPlain(coll + chunks[k], chunks, faults, k + 1, m);
        assert chunks[k..m][1..] == chunks[k + 1..m];
        assert Flatten(chunks[k..m]) == chunks[k] + Flatten(chunks[k + 1..m]);
      }
    } else {
      assert chunks[k..m] == [];
    }
  }

  /** Whatever the index and the backend do, a run only appends: what it adds comes
      from the chunks, and with a unique index carries no hash stored before the run. */
  lemma {:induction false} RunBatchesAppendsFrom(coll: seq<Txn>, chunks: seq<seq<Txn>>, unique: bool, faults: seq<Option<InsertFault>>, k: nat, from: set<Txn>)
    requires k <= |chunks|
    requires forall j :: k <= j < |chunks| ==> Elements(chunks[j]) <= from
    ensures var r := RunBatches(coll, chunks, unique, faults, k);
      forall t :: t in r.coll[|coll|..] ==> t in from && (unique ==> t.h !in HashSet(coll))
    decreases |chunks| - k
  {
    var r := RunBatches(coll, chunks, unique, faults, k);
    if k < |chunks| {
      var res := InsertManyUnordered(coll, chunks[k], unique, FaultAt(faults, k));
      var added := res.coll[|coll|..];
      assert forall t :: t in added ==> t in Elements(chunks[k]);
      if Swallowed(res.code) {
        RunBatchesAppendsFrom(res.coll, chunks, unique, faults, k + 1, from);
        PrefixThenRest(coll, res.coll);
        HashSetAppend(coll, added);
        PrefixChain(coll, res.coll, r.coll);
      }
    } else {
      assert r.coll[|coll|..] == [];
    }
  }

  /** With a unique index and no backend failure, every hash of the items ends up
      stored, nothing else is added, and the run ends normally. */
  lemma {:induction false} UniqueRunStoresAll(coll: seq<Txn>, chunks: seq<seq<Txn>>, k: nat)
    requires k <= |chunks|
    ensures var r := RunBatches(coll, chunks, true, [], k);
      r.outcome == Done && HashSet(r.coll) == HashSet(coll) + HashSet(Flatten(chunks[k..]))
    decreases |chunks| - k
  {
    if k == |chunks| {
      assert chunks[k..] == [];
    } else {
      var res := InsertUnordered(coll, chunks[k], true);
      UniqueRunStoresAll(res.coll, chunks, k + 1);
      assert chunks[k..][1..] == chunks[k + 1..];
      HashSetAppend(chunks[k], Flatten(chunks[k + 1..]));
    }
  }

  /** With a unique index and no backend failure, a run whose hashes are all stored
      already changes nothing. */
  lemma {:induction false} UniqueRunNoOp(coll: seq<Txn>, chunks: seq<seq<Txn>>, k: nat)
    requires k <= |chunks|
    requires HashSet(Flatten(chunks[k..])) <= HashSet(coll)
    ensures RunBatches(coll, chunks, true, [], k).coll == coll
    decreases |chunks| - k
  {
    if k < |chunks| {
      assert chunks[k..][1..] == chunks[k + 1..];
      HashSetAppend(chunks[k], Flatten(chunks[k + 1..]));
      UniqueRunNoOp(coll, chunks, k + 1);
    }
  }

  /** With a unique index, whatever the backend does, no hash is stored twice. */
  lemma {:induction false} UniqueRunKeepsDistinct(coll: seq<Txn>, chunks: seq<seq<Txn>>, faults: seq<Option<InsertFault>>, k: nat)
    requires k <= |chunks| && DistinctHashes(coll)
    ensures DistinctHashes(RunBatches(coll, chunks, true, faults, k).coll)
    decreases |chunks| - k
  {
    if k < |chunks| {
      var res := InsertManyUnordered(coll, chunks[k], true, FaultAt(faults, k));
      if Swallowed(res.code) {
        UniqueRunKeepsDistinct(res.coll, chunks, faults, k + 1);
      }
    }
  }

  /** Idempotence: with a unique `tx.h` index, inserting the same items a second time
      leaves the collection as the first time left it, and raises nothing. */
  lemma InsertBatchesIdempotent(coll: seq<Txn>, items: seq<Txn>)
    ensures var once := InsertBatches(coll, items, true, []);
      && once.outcome == Done
      && HashSet(once.coll) == HashSet(coll) + HashSet(items)
      && InsertBatches(once.coll, items, true, []).coll == once.coll
      && InsertBatches(once.coll, items, true, []).outcome == Done
  {
    var chunks := Chunks(items);
    assert chunks[0..] == chunks;
    ChunkCount(items);
    UniqueRunStoresAll(coll, chunks, 0);
    var once := InsertBatches(coll, items, true, []);
    UniqueRunNoOp(once.coll, chunks, 0);
    UniqueRunStoresAll(once.coll, chunks, 0);
  }

  lemma InsertBatchesAppends(coll: seq<Txn>, items: seq<Txn>, unique: bool, faults: seq<Option<InsertFault>>)
    ensures var r := RunBatches(coll, Chunks(items), unique, faults, 0);
      forall t :: t in r.coll[|coll|..] ==> t in items && (unique ==> t.h !in HashSet(coll))
  {
    ChunksWithin(items);
    RunBatchesAppendsFrom(coll, Chunks(items), unique, faults, 0, Elements(items));
  }

  /** Without a unique index and without backend failures, every item is appended in
      order through ceil(n / 1000) calls. */
  lemma InsertBatchesAppendsAll(coll: seq<Txn>, items: seq<Txn>)
    ensures var r := InsertBatches(coll, items, false, []);
      r.outcome == Done && r.coll == coll + items && r.issued == |Chunks(items)|
  {
    var chunks := Chunks(items);
    assert chunks[0..|chunks|] == chunks;
    RunBatchesPlain(coll, chunks, [], 0, |chunks|);
    RunBatchesDone(coll, chunks, false, [], 0);
    ChunkCount(items);
  }

  /** Without a unique index, when the call for chunk m is the first to fail (with
      a non-duplicate error), the first m * 1000 items stay inserted, followed by the
      part of chunk m that call wrote; m + 1 calls were issued, and the error is the
      one raised. */
  lemma InsertBatchesFailsAt(coll: seq<Txn>, items: seq<Txn>, faults: seq<Option<InsertFault>>, m: nat)
    requires BatchSize * m < |items|
    requires forall j :: 0 <= j < m ==> FaultAt(faults, j).None?
    requires !Swallowed(FaultCode(FaultAt(faults, m)))
    ensures var r := InsertBatches(coll, items, false, faults);
      && r.coll == coll + items[..BatchSize * m] +
                   Where(items[BatchSize * m..Min(BatchSize * (m + 1), |items|)], WrittenBy(FaultAt(faults, m).value))
      && r.issued == m + 1
      && r.outcome == Thrown(BackendError(FaultAt(faults, m).value.code))
  {
    var chunks := Chunks(items);
    ChunksFromShape(items, 0);
    assert m < |chunks|;
    assert chunks[m] == items[BatchSize * m..Min(BatchSize * (m + 1), |items|)];
    assert chunks[0..m] == chunks[..m];
    FlattenChunksPrefix(items, 0, m);
    assert Flatten(chunks[0..m]) == items[..BatchSize * m];
    RunBatchesPlain(coll, chunks, faults, 0, m);
    RunBatchesDone(coll, chunks, false, faults, 0);
    RunBatchesStopsOnlyAtFatal(coll, chunks, false, faults, 0);
  }

  // ---------------------------------------------------------------------------
  // confirmedReplace

  /** The pre-delete of `confirmedReplace`: with a truthy `blockIndex`, every record of
      that block; otherwise, for each item, every record with the item's `tx.h`. */
  function PreDelete(coll: seq<Txn>, items: seq<Txn>, blockIndex: Option<int>): (r: seq<Txn>)
    ensures TruthyNumber(blockIndex) ==>
              forall t :: t in r <==> t in coll && BlkIndex(t) != blockIndex
    ensures !TruthyNumber(blockIndex) ==>
              forall t :: t in r <==> t in coll && t.h !in HashSet(items)
  {
    WhereKeyIs(coll, BlkIndex, blockIndex);
    WhereKeyIn(coll, TxHash, HashSet(items));
    if TruthyNumber(blockIndex) then DeleteMany(coll, KeyIs(BlkIndex, blockIndex))
    else DeleteMany(coll, KeyIn(TxHash, HashSet(items)))
  }

  /** `items.filter(i => !i.blk).length > 0`. */
  predicate SomeItemLacksBlk(items: seq<Txn>)
  {
    |Where(items, LacksBlk())| > 0
  }

  /** The whole of `confirmedReplace` on the `confirmed` collection. */
  function ReplaceBatches(coll: seq<Txn>, items: seq<Txn>, blockIndex: Option<int>, unique: bool, faults: seq<Option<InsertFault>>): (r: BatchRun)
    ensures (exists t :: t in items && t.blk.None?) ==> r == BatchRun(coll, 0, Thrown(MissingBlk))
    ensures (forall t :: t in items ==> t.blk.Some?) ==>
              r == InsertBatches(PreDelete(coll, items, blockIndex), items, unique, faults)
  {
    if SomeItemLacksBlk(items) then
      assert Where(items, LacksBlk())[0] in Where(items, LacksBlk());
      BatchRun(coll, 0, Thrown(MissingBlk))
    else InsertBatches(PreDelete(coll, items, blockIndex), items, unique, faults)
  }

  /** Deleting what `p` selects and then inserting items that `p` all selects, with no
      unique index and no backend failure: `p` afterwards selects exactly the items,
      in order, and every other record is kept as it was. */
  lemma ReplaceSelects(coll: seq<Txn>, items: seq<Txn>, p: Txn -> bool)
    requires forall t :: t in items ==> p(t)
    ensures var r := InsertBatches(DeleteMany(coll, p), items, false, []);
      && r.outcome == Done
      && Where(r.coll, p) == items
      && DeleteMany(r.coll, p) == DeleteMany(coll, p)
  {
    var kept := DeleteMany(coll, p);
    InsertBatchesAppendsAll(kept, items);
    DeleteThenInsert(coll, p, items);
    WhereAll(items, p);
    WhereNone(items, Complement(p));
    assert kept + [] == kept;
  }

  /** Block replacement: with a truthy block height b, all items in block b, no unique
      index and no backend failure, block b afterwards holds exactly the items, in
      order, and every other record is kept as it was. */
  lemma ReplaceBlockSelects(coll: seq<Txn>, items: seq<Txn>, b: int)
    requires b != 0
    requires forall t :: t in items ==> BlkIndex(t) == Some(b)
    ensures var r := ReplaceBatches(coll, items, Some(b), false, []);
      && r.outcome == Done
      && Where(r.coll, KeyIs(BlkIndex, Some(b))) == items
      && DeleteMany(r.coll, KeyIs(BlkIndex, Some(b))) == DeleteMany(coll, KeyIs(BlkIndex, Some(b)))
  {
    ReplaceSelects(coll, items, KeyIs(BlkIndex, Some(b)));
  }

  /** Deleting what `p` selects and then inserting items that `p` all selects, in
      either index mode and whatever the backend does: `p` afterwards selects only
      items, and every other record is kept as it was. */
  lemma {:induction false} ReplaceKeepsOthers(coll: seq<Txn>, items: seq<Txn>, p: Txn -> bool, unique: bool, faults: seq<Option<InsertFault>>)
    requires forall t :: t in items ==> p(t)
    ensures var r := InsertBatches(DeleteMany(coll, p), items, unique, faults);
      && (forall t :: t in Where(r.coll, p) ==> t in items)
      && DeleteMany(r.coll, p) == DeleteMany(coll, p)
  {
    var kept := DeleteMany(coll, p);
    var r := InsertBatches(kept, items, unique, faults);
    var added := r.coll[|kept|..];
    assert r.coll == kept + added;
    DeleteThenInsert(coll, p, added);
    WhereNone(added, Complement(p));
    assert kept + [] == kept;
  }

  /** The same with a unique `tx.h` index and no backend failure: the run ends
      normally, `p` selects only items, their hashes are exactly the items' hashes
      not stored among the kept records, and every other record is kept as it was. */
  lemma UniqueReplace(coll: seq<Txn>, items: seq<Txn>, p: Txn -> bool)
    requires forall t :: t in items ==> p(t)
    ensures var r := InsertBatches(DeleteMany(coll, p), items, true, []);
      && r.outcome == Done
      && (forall t :: t in Where(r.coll, p) ==> t in items)
      && HashSet(Where(r.coll, p)) == HashSet(items) - HashSet(DeleteMany(coll, p))
      && DeleteMany(r.coll, p) == DeleteMany(coll, p)
  {
    var kept := DeleteMany(coll, p);
    var r := InsertBatches(kept, items, true, []);
    var added := r.coll[|kept|..];
    PrefixThenRest(kept, r.coll);
    ReplaceKeepsOthers(coll, items, p, true, []);
    UniqueRunStoresAll(kept, Chunks(items), 0);
    assert Chunks(items)[0..] == Chunks(items);
    ChunkCount(items);
    AddedSelected(kept, items, added, p);
  }

  /** The records a unique-index run appended to the kept ones (which `p` never
      selects) are what `p` selects afterwards, and they carry exactly the items'
      hashes not kept. */
  lemma AddedSelected(kept: seq<Txn>, items: seq<Txn>, added: seq<Txn>, p: Txn -> bool)
    requires forall t :: t in kept ==> !p(t)
    requires forall t :: t in items ==> p(t)
    requires forall t :: t in added ==> t in items && t.h !in HashSet(kept)
    requires HashSet(kept + added) == HashSet(kept) + HashSet(items)
    ensures Where(kept + added, p) == added
    ensures HashSet(added) == HashSet(items) - HashSet(kept)
  {
    WhereAppend(kept, added, p);
    WhereNone(kept, p);
    WhereAll(added, p);
    assert [] + added == added;
    HashSetAppend(kept, added);
    forall h | h in HashSet(added) ensures h !in HashSet(kept) && h in HashSet(items) {
      var t :| t in added && t.h == h;
    }
  }

  /** Block replacement in either index mode and whatever the backend does: block b
      afterwards holds only items, and every other record is kept as it was. */
  lemma ReplaceBlockKeepsOthers(coll: seq<Txn>, items: seq<Txn>, b: int, unique: bool, faults: seq<Option<InsertFault>>)
    requires b != 0
    requires forall t :: t in items ==> BlkIndex(t) == Some(b)
    ensures var r := ReplaceBatches(coll, items, Some(b), unique, faults);
      && (forall t :: t in Where(r.coll, KeyIs(BlkIndex, Some(b))) ==> t in items)
      && DeleteMany(r.coll, KeyIs(BlkIndex, Some(b))) == DeleteMany(coll, KeyIs(BlkIndex, Some(b)))
  {
    ReplaceKeepsOthers(coll, items, KeyIs(BlkIndex, Some(b)), unique, faults);
  }

  /** Block replacement with a unique `tx.h` index and no backend failure: block b
      afterwards holds only items, carrying exactly the items' hashes that are not
      stored outside block b (an item whose hash sits in another block is refused),
      and every other record is kept as it was. */
  lemma ReplaceBlockUnique(coll: seq<Txn>, items: seq<Txn>, b: int)
    requires b != 0
    requires forall t :: t in items ==> BlkIndex(t) == Some(b)
    ensures var r := ReplaceBatches(coll, items, Some(b), true, []);
      && r.outcome == Done
      && (forall t :: t in Where(r.coll, KeyIs(BlkIndex, Some(b))) ==> t in items)
      && HashSet(Where(r.coll, KeyIs(BlkIndex, Some(b)))) ==
           HashSet(items) - HashSet(DeleteMany(coll, KeyIs(BlkIndex, Some(b))))
      && DeleteMany(r.coll, KeyIs(BlkIndex, Some(b))) == DeleteMany(coll, KeyIs(BlkIndex, Some(b)))
  {
    UniqueReplace(coll, items, KeyIs(BlkIndex, Some(b)));
  }

  /** A transaction that a reorganisation moved from block 5 to block 7: with the
      unique index, replacing block 7 refuses it because its hash is still stored
      under block 5, so block 7 ends up empty and the run still ends normally. */
  lemma ReplaceBlockMovedTxn()
    ensures var old5 := Txn("a", Some(Blk(5)), Undefined, "");
      var new7 := Txn("a", Some(Blk(7)), Undefined, "x");
      var r := ReplaceBatches([old5], [new7], Some(7), true, []);
      && r.outcome == Done
      && Where(r.coll, KeyIs(BlkIndex, Some(7))) == []
      && r.coll == [old5]
  {
    var old5 := Txn("a", Some(Blk(5)), Undefined, "");
    var new7 := Txn("a", Some(Blk(7)), Undefined, "x");
    var p := KeyIs(BlkIndex, Some(7));
    assert BlkIndex(old5) == Some(5) && !p(old5);
    assert HashSet([old5]) == {"a"} == HashSet([new7]);
    DeleteManyNothing([old5], p);
    var r := ReplaceBatches([old5], [new7], Some(7), true, []);
    assert r == InsertBatches([old5], [new7], true, []);
    PrefixThenRest([old5], r.coll);
    NothingAdded([old5], r.coll[1..], [new7]);
    ReplaceBlockUnique([old5], [new7], 7);
  }

  /** A run that may add only items with hashes not stored adds nothing when every
      item's hash is stored. */
  lemma NothingAdded(coll: seq<Txn>, added: seq<Txn>, items: seq<Txn>)
    requires forall t :: t in added ==> t in items && t.h !in HashSet(coll)
    requires HashSet(items) <= HashSet(coll)
    ensures added == []
  {
    assert HashSet(added) <= HashSet(items) - HashSet(coll);
    assert HashSet(items) - HashSet(coll) == {};
    HashSetEmpty(added);
  }

  /** Two block replacements of the same height, in either index mode and whatever
      the backend does: only records of the second set remain in the block; without
      a unique index and without failures, exactly the second set, in order. */
  lemma ReplaceBlockTwice(coll: seq<Txn>, first: seq<Txn>, second: seq<Txn>, b: int,
                          unique: bool, faults1: seq<Option<InsertFault>>, faults2: seq<Option<InsertFault>>)
    requires b != 0
    requires forall t :: t in first ==> BlkIndex(t) == Some(b)
    requires forall t :: t in second ==> BlkIndex(t) == Some(b)
    ensures var once := ReplaceBatches(coll, first, Some(b), unique, faults1);
      var twice := ReplaceBatches(once.coll, second, Some(b), unique, faults2);
      && (forall t :: t in Where(twice.coll, KeyIs(BlkIndex, Some(b))) ==> t in second)
      && (!unique && faults1 == [] && faults2 == [] ==> Where(twice.coll, KeyIs(BlkIndex, Some(b))) == second)
  {
    var once := ReplaceBatches(coll, first, Some(b), unique, faults1);
    ReplaceBlockKeepsOthers(once.coll, second, b, unique, faults2);
    if !unique && faults1 == [] && faults2 == [] {
      ReplaceBlockSelects(once.coll, second, b);
    }
  }

  /** Replacement by hash: with a falsy block height, no unique index and no backend
      failure, the records sharing a hash with an item are exactly the items, and all
      others are kept. */
  lemma ReplaceByHashSelects(coll: seq<Txn>, items: seq<Txn>, blockIndex: Option<int>)
    requires !TruthyNumber(blockIndex)
    requires forall t :: t in items ==> t.blk.Some?
    ensures var r := ReplaceBatches(coll, items, blockIndex, false, []);
      && r.outcome == Done
      && Where(r.coll, KeyIn(TxHash, HashSet(items))) == items
      && DeleteMany(r.coll, KeyIn(TxHash, HashSet(items))) == DeleteMany(coll, KeyIn(TxHash, HashSet(items)))
  {
    ReplaceByHashIs(coll, items, blockIndex, false, []);
    ReplaceSelects(coll, items, KeyIn(TxHash, HashSet(items)));
  }

  /** With a falsy block height and every item in a block, replacement deletes the
      records sharing a hash with an item (a filter every item passes), then inserts. */
  lemma ReplaceByHashIs(coll: seq<Txn>, items: seq<Txn>, blockIndex: Option<int>, unique: bool, faults: seq<Option<InsertFault>>)
    requires !TruthyNumber(blockIndex)
    requires forall t :: t in items ==> t.blk.Some?
    ensures forall t :: t in items ==> KeyIn(TxHash, HashSet(items))(t)
    ensures ReplaceBatches(coll, items, blockIndex, unique, faults) ==
              InsertBatches(DeleteMany(coll, KeyIn(TxHash, HashSet(items))), items, unique, faults)
  {
    forall t | t in items ensures KeyIn(TxHash, HashSet(items))(t) {
      assert TxHash(t) in HashSet(items);
    }
  }

  /** What replacement by hash leaves behind with a unique `tx.h` index and no backend
      failure: the run ends normally, the records sharing a hash with an item are all
      items and the other records are kept (`HashKept`), and those records carry
      exactly the items' hashes, being each item (up to order) when the items' hashes
      are distinct (`HashCovered`). */
  ghost predicate ReplacedByHash(coll: seq<Txn>, items: seq<Txn>, r: BatchRun)
  {
    r.outcome == Done && HashKept(coll, items, r.coll) && HashCovered(items, r.coll)
  }

  ghost predicate HashKept(coll: seq<Txn>, items: seq<Txn>, after: seq<Txn>)
  {
    var p := KeyIn(TxHash, HashSet(items));
    && (forall t :: t in Where(after, p) ==> t in items)
    && DeleteMany(after, p) == DeleteMany(coll, p)
  }

  ghost predicate HashCovered(items: seq<Txn>, after: seq<Txn>)
  {
    var selected := Where(after, KeyIn(TxHash, HashSet(items)));
    && HashSet(selected) == HashSet(items)
    && (DistinctHashes(items) ==> Elements(selected) == Elements(items))
  }

  /** Replacement by hash with a unique `tx.h` index and no backend failure. */
  lemma ReplaceByHashUnique(coll: seq<Txn>, items: seq<Txn>, blockIndex: Option<int>)
    requires !TruthyNumber(blockIndex)
    requires forall t :: t in items ==> t.blk.Some?
    ensures ReplacedByHash(coll, items, ReplaceBatches(coll, items, blockIndex, true, []))
  {
    ReplaceByHashIs(coll, items, blockIndex, true, []);
    var p := KeyIn(TxHash, HashSet(items));
    UniqueRunStoresAll(DeleteMany(coll, p), Chunks(items), 0);
    HashReplaceKeeps(coll, items);
    HashReplaceCovers(coll, items);
  }

  /** The run that follows the delete by hash keeps the other records and adds only
      items. */
  lemma HashReplaceKeeps(coll: seq<Txn>, items: seq<Txn>)
    requires forall t :: t in items ==> KeyIn(TxHash, HashSet(items))(t)
    ensures HashKept(coll, items, InsertBatches(DeleteMany(coll, KeyIn(TxHash, HashSet(items))), items, true, []).coll)
  {
    ReplaceKeepsOthers(coll, items, KeyIn(TxHash, HashSet(items)), true, []);
  }

  /** The run that follows the delete by hash stores every item hash. */
  lemma HashReplaceCovers(coll: seq<Txn>, items: seq<Txn>)
    requires forall t :: t in items ==> KeyIn(TxHash, HashSet(items))(t)
    ensures HashCovered(items, InsertBatches(DeleteMany(coll, KeyIn(TxHash, HashSet(items))), items, true, []).coll)
  {
    var p := KeyIn(TxHash, HashSet(items));
    UniqueReplace(coll, items, p);
    DeletedHashesGone(coll, items);
    var r := InsertBatches(DeleteMany(coll, p), items, true, []);
    SelectedAreItems(Where(r.coll, p), items, DeleteMany(coll, p));
  }

  /** Documents drawn from the items that carry every item hash not kept elsewhere,
      when no item hash is kept elsewhere, carry all the items' hashes, and are all
      the items when those hashes are distinct. */
  lemma SelectedAreItems(selected: seq<Txn>, items: seq<Txn>, kept: seq<Txn>)
    requires forall t :: t in selected ==> t in items
    requires HashSet(selected) == HashSet(items) - HashSet(kept)
    requires HashSet(kept) !! HashSet(items)
    ensures HashSet(selected) == HashSet(items)
    ensures DistinctHashes(items) ==> Elements(selected) == Elements(items)
  {
    if DistinctHashes(items) {
      SameHashesSameItems(items, selected);
    }
  }

  /** Deleting by the items' hashes leaves none of them stored. */
  lemma DeletedHashesGone(coll: seq<Txn>, items: seq<Txn>)
    ensures HashSet(DeleteMany(coll, KeyIn(TxHash, HashSet(items)))) !! HashSet(items)
  {
    var kept := DeleteMany(coll, KeyIn(TxHash, HashSet(items)));
    forall h | h in HashSet(kept) ensures h !in HashSet(items) {
      var t :| t in kept && t.h == h;
    }
  }

  /** Documents drawn from items with distinct hashes that cover all of the items'
      hashes are all of the items. */
  lemma SameHashesSameItems(items: seq<Txn>, selected: seq<Txn>)
    requires DistinctHashes(items)
    requires forall t :: t in selected ==> t in items
    requires HashSet(items) <= HashSet(selected)
    ensures forall t :: t in items ==> t in selected
  {
    forall t | t in items ensures t in selected {
      assert t.h in HashSet(selected);
      var u :| u in selected && u.h == t.h;
      KeysDistinctSame(items, TxHash, t, u);
    }
  }
}
