/** The update loop of `graphItemsUpsert` over the `graphs` collection, as a function
    of the collection's value, and the paths its delete step filters by. */
module Graphs {
  import opened Collection
  import opened Records

  /** The path `graphItemsUpsert` deletes graph records by, spelled as in the source. */
  const GraphTxidPathAsWritten := "grpahTxn.txid"

  /** The filter `{ "tokenDetails.tokenIdHex": ..., "graphTxn.txid": ... }` of the
      record `g` replaces. */
  function SameGraphKey(g: GraphTxn): GraphTxn -> bool
  {
    KeyIs(GraphKey, GraphKey(g))
  }

  /** The graphs after the update loop, and the position of the item whose upsert
      neither modified nor inserted a record (where the loop throws), if any. */
  datatype UpsertRun = UpsertRun(graphs: seq<GraphTxn>, failedAt: Option<nat>)

  /** The update loop from item `k` on. */
  function UpsertFrom(graphs: seq<GraphTxn>, items: seq<GraphTxn>, k: nat): (r: UpsertRun)
    requires k <= |items|
    ensures r.failedAt.Some? ==> k <= r.failedAt.value < |items|
    decreases |items| - k
  {
    if k == |items| then UpsertRun(graphs, None)
    else
      var res := ReplaceOne(graphs, SameGraphKey(items[k]), items[k]);
      if res.modified == 0 && res.upserted == 0 then UpsertRun(res.coll, Some(k))
      else UpsertFrom(res.coll, items, k + 1)
  }

  /** The (token, txid) keys of some graph records. */
  function GraphKeys(items: seq<GraphTxn>): set<(string, string)>
  {
    set g | g in items :: GraphKey(g)
  }

  // ---------------------------------------------------------------------------

  /** The update loop keeps at most one record per (token, txid). */
  lemma {:induction false} UpsertFromKeepsDistinct(graphs: seq<GraphTxn>, items: seq<GraphTxn>, k: nat)
    requires k <= |items| && KeysDistinct(graphs, GraphKey)
    ensures KeysDistinct(UpsertFrom(graphs, items, k).graphs, GraphKey)
    decreases |items| - k
  {
    if k < |items| {
      var res := ReplaceOne(graphs, SameGraphKey(items[k]), items[k]);
      ReplaceOneKeepsKeysDistinct(graphs, GraphKey, items[k]);
      if !(res.modified == 0 && res.upserted == 0) {
        UpsertFromKeepsDistinct(res.coll, items, k + 1);
      }
    }
  }

  /** Upserts of other keys do not change what a find for `key` returns. */
  lemma {:induction false} UpsertFromKeepsOtherFind(graphs: seq<GraphTxn>, items: seq<GraphTxn>, k: nat, key: (string, string))
    requires k <= |items|
    requires forall j :: k <= j < |items| ==> GraphKey(items[j]) != key
    ensures FindOne(UpsertFrom(graphs, items, k).graphs, KeyIs(GraphKey, key)) == FindOne(graphs, KeyIs(GraphKey, key))
    decreases |items| - k
  {
    if k < |items| {
      var res := ReplaceOne(graphs, SameGraphKey(items[k]), items[k]);
      ReplaceOneKeepsOtherFind(graphs, SameGraphKey(items[k]), items[k], KeyIs(GraphKey, key));
      if !(res.modified == 0 && res.upserted == 0) {
        UpsertFromKeepsOtherFind(res.coll, items, k + 1, key);
      }
    }
  }

  /** When the loop runs to the end over items of distinct keys, every item is the
      record found for its key. */
  lemma {:induction false} UpsertFromStoresAll(graphs: seq<GraphTxn>, items: seq<GraphTxn>, k: nat)
    requires k <= |items| && KeysDistinct(items[k..], GraphKey)
    requires UpsertFrom(graphs, items, k).failedAt.None?
    ensures forall j :: k <= j < |items| ==>
              FindOne(UpsertFrom(graphs, items, k).graphs, SameGraphKey(items[j])) == Some(items[j])
    decreases |items| - k
  {
    if k < |items| {
      var d := items[k];
      var res := ReplaceOne(graphs, SameGraphKey(d), d);
      assert items[k..][0] == d && items[k..][1..] == items[k + 1..];
      UpsertFromStoresAll(res.coll, items, k + 1);
      ReplaceOneThenFind(graphs, SameGraphKey(d), d);
      forall j | k < j < |items| ensures GraphKey(items[j]) != GraphKey(d) {
        assert items[j] in items[k + 1..];
      }
      UpsertFromKeepsOtherFind(res.coll, items, k + 1, GraphKey(d));
    }
  }

  /** The update loop keeps every record whose key is not among the items', in order. */
  lemma {:induction false} UpsertFromKeepsOthers(graphs: seq<GraphTxn>, items: seq<GraphTxn>, k: nat)
    requires k <= |items|
    requires UpsertFrom(graphs, items, k).failedAt.None?
    ensures DeleteMany(UpsertFrom(graphs, items, k).graphs, KeyIn(GraphKey, GraphKeys(items[k..]))) ==
              DeleteMany(graphs, KeyIn(GraphKey, GraphKeys(items[k..])))
    decreases |items| - k
  {
    if k < |items| {
      var r := UpsertFrom(graphs, items, k).graphs;
      var d := items[k];
      var res := ReplaceOne(graphs, SameGraphKey(d), d);
      UpsertFromKeepsOthers(res.coll, items, k + 1);
      var all := GraphKeys(items[k..]);
      var later := GraphKeys(items[k + 1..]);
      GraphKeysStep(items, k);
      DeleteKeysStep(r, later, d);
      DeleteKeysStep(res.coll, later, d);
      ReplaceOneOutside(graphs, SameGraphKey(d), d, KeyIn(GraphKey, all));
    }
  }

  lemma GraphKeysStep(items: seq<GraphTxn>, k: nat)
    requires k < |items|
    ensures GraphKeys(items[k..]) == GraphKeys(items[k + 1..]) + {GraphKey(items[k])}
  {
    assert items[k..] == [items[k]] + items[k + 1..];
  }

  lemma DeleteKeysStep(s: seq<GraphTxn>, later: set<(string, string)>, d: GraphTxn)
    ensures DeleteMany(DeleteMany(s, KeyIn(GraphKey, later)), SameGraphKey(d)) ==
              DeleteMany(s, KeyIn(GraphKey, later + {GraphKey(d)}))
  {
    DeleteManyTwice(s, KeyIn(GraphKey, later), SameGraphKey(d), KeyIn(GraphKey, later + {GraphKey(d)}));
  }

  /** The quirk of the update loop: upserting the same items again finds every record
      already as it is, so the very first upsert reports neither a modification nor an
      insertion and the loop throws at item 0, leaving the graphs as they were. */
  lemma UpsertTwiceFails(graphs: seq<GraphTxn>, items: seq<GraphTxn>)
    requires |items| > 0 && KeysDistinct(items, GraphKey)
    requires UpsertFrom(graphs, items, 0).failedAt.None?
    ensures var once := UpsertFrom(graphs, items, 0).graphs;
      UpsertFrom(once, items, 0) == UpsertRun(once, Some(0))
  {
    assert items[0..] == items;
    UpsertFromStoresAll(graphs, items, 0);
  }

  /** A field path no graph record has selects nothing, so deleting by the
      misspelled path removes no record whatever the txids. */
  lemma MisspelledPathDeletesNothing(graphs: seq<GraphTxn>, txids: set<string>)
    ensures DeleteMany(graphs, GraphFieldIn(GraphTxidPathAsWritten, txids)) == graphs
  {
    DeleteManyNothing(graphs, GraphFieldIn(GraphTxidPathAsWritten, txids));
  }

  /** Deleting by the intended path removes exactly the records whose txid is listed. */
  lemma TxidPathDeletesListed(graphs: seq<GraphTxn>, txids: set<string>)
    ensures DeleteMany(graphs, GraphFieldIn(GraphTxidPath, txids)) == DeleteMany(graphs, KeyIn(GraphTxid, txids))
  {
    forall x | x in graphs
      ensures Complement(GraphFieldIn(GraphTxidPath, txids))(x) == Complement(KeyIn(GraphTxid, txids))(x)
    {
      assert GraphField(x, GraphTxidPath) == Some(x.txid);
      assert KeyIn(GraphTxid, txids)(x) == (GraphTxid(x) in txids);
    }
    WhereSame(graphs, Complement(GraphFieldIn(GraphTxidPath, txids)), Complement(KeyIn(GraphTxid, txids)));
  }

  /** One record whose txid is listed for deletion: the misspelled path keeps it, the
      intended path removes it. */
  lemma MisspelledPathCounterexample()
    ensures var g := GraphTxn("t", "x", None, "");
      && DeleteMany([g], GraphFieldIn(GraphTxidPathAsWritten, {"x"})) == [g]
      && DeleteMany([g], GraphFieldIn(GraphTxidPath, {"x"})) == []
  {
    var g := GraphTxn("t", "x", None, "");
    MisspelledPathDeletesNothing([g], {"x"});
    assert GraphFieldIn(GraphTxidPath, {"x"})(g);
  }
}
