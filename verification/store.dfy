/** The persistence layer of SLPDB: a `Db` holds the seven MongoDB collections the
    indexer keeps (statuses, tokens, graphs, addresses, utxos, unconfirmed and
    confirmed transactions) and the indexes built on them, and every operation reads
    or rewrites them in place through the primitives of module Collection. The
    backend's failures are given to the operations that handle them as `faults`. */
module Store {
  import opened Collection
  import opened Records
  import opened Batches
  import opened IndexPlan
  import opened Graphs

  /** The part of the configuration the layer reads: the optional `index` section,
      one entry per collection, in key order. */
  datatype DbConfig = DbConfig(index: Option<seq<(string, IndexConfig)>>)

  const ConfirmedName := "confirmed"
  const UnconfirmedName := "unconfirmed"

  /** The index that makes `tx.h` unique. */
  const UniqueHashIndex := Ascending(UniqueKey, true)

  /** The error `createIndex(call)` reports: the backend's own failure if it has one;
      otherwise building a unique `tx.h` index over confirmed or unconfirmed
      transactions fails with a duplicate-key error when two of them share a hash. */
  function CreateIndexError(call: IndexCall, fault: Option<int>, confirmed: seq<Txn>, unconfirmed: seq<Txn>): (r: Option<int>)
    ensures fault.Some? ==> r == fault
    ensures fault.None? && r.Some? ==> r.value == DuplicateKeyCode
    ensures r.None? && call == IndexCall(ConfirmedName, UniqueHashIndex) ==> DistinctHashes(confirmed)
    ensures r.None? && call == IndexCall(UnconfirmedName, UniqueHashIndex) ==> DistinctHashes(unconfirmed)
    ensures fault.None? && r.Some? ==>
      && call.spec == UniqueHashIndex
      && ((call.collection == ConfirmedName && !DistinctHashes(confirmed)) ||
          (call.collection == UnconfirmedName && !DistinctHashes(unconfirmed)))
  {
    DuplicateHashIffNotDistinct(confirmed);
    DuplicateHashIffNotDistinct(unconfirmed);
    if fault.Some? then fault
    else if call.spec == UniqueHashIndex &&
            ((call.collection == ConfirmedName && HasDuplicateHash(confirmed)) ||
             (call.collection == UnconfirmedName && HasDuplicateHash(unconfirmed)))
    then Some(DuplicateKeyCode)
    else None
  }

  /** The position of the first call of `plan`, from `k` on, that fails; |plan| when
      none does. */
  function FirstFailure(plan: seq<IndexCall>, faults: seq<Option<int>>, confirmed: seq<Txn>, unconfirmed: seq<Txn>, k: nat): (r: nat)
    requires k <= |plan|
    ensures k <= r <= |plan|
    ensures r < |plan| ==> CreateIndexError(plan[r], FaultAt(faults, r), confirmed, unconfirmed).Some?
    decreases |plan| - k
  {
    if k == |plan| then k
    else if CreateIndexError(plan[k], FaultAt(faults, k), confirmed, unconfirmed).Some? then k
    else FirstFailure(plan, faults, confirmed, unconfirmed, k + 1)
  }

  /** Every call before the first failure succeeds. */
  lemma {:induction false} FirstFailureIs(plan: seq<IndexCall>, faults: seq<Option<int>>, confirmed: seq<Txn>, unconfirmed: seq<Txn>, k: nat)
    requires k <= |plan|
    ensures var r := FirstFailure(plan, faults, confirmed, unconfirmed, k);
      forall j :: k <= j < r ==> CreateIndexError(plan[j], FaultAt(faults, j), confirmed, unconfirmed).None?
    decreases |plan| - k
  {
    if k < |plan| && CreateIndexError(plan[k], FaultAt(faults, k), confirmed, unconfirmed).None? {
      FirstFailureIs(plan, faults, confirmed, unconfirmed, k + 1);
    }
  }

  /** Without backend faults, and with distinct hashes among the confirmed and among
      the unconfirmed transactions, no planned call fails: a corollary of the
      contracts of `CreateIndexError` and `FirstFailure`. */
  lemma NoFailureWithDistinctHashes(plan: seq<IndexCall>, faults: seq<Option<int>>, confirmed: seq<Txn>, unconfirmed: seq<Txn>, k: nat)
    requires k <= |plan| && DistinctHashes(confirmed) && DistinctHashes(unconfirmed)
    requires forall j :: 0 <= j < |faults| ==> faults[j].None?
    ensures FirstFailure(plan, faults, confirmed, unconfirmed, k) == |plan|
    ensures forall j :: k <= j < |plan| ==> CreateIndexError(plan[j], FaultAt(faults, j), confirmed, unconfirmed).None?
  {
  }

  // ---------------------------------------------------------------------------
  // Properties of the replace-by-key writes

  /** statusUpdate keeps one checkpoint per context: afterwards statusFetch returns
      the new status for its context and what it returned before for any other. */
  lemma StatusUpdateThenFetch(statuses: seq<Status>, status: Status, context: string)
    ensures FindOne(ReplaceAll(statuses, KeyIs(StatusContext, status.context), [status]), KeyIs(StatusContext, context)) ==
              if context == status.context then Some(status) else FindOne(statuses, KeyIs(StatusContext, context))
  {
    var after := ReplaceAll(statuses, KeyIs(StatusContext, status.context), [status]);
    ReplaceAllFetch(statuses, StatusContext, status.context, [status], context);
    FindOneIsFirstOfWhere(after, KeyIs(StatusContext, context));
    FindOneIsFirstOfWhere(statuses, KeyIs(StatusContext, context));
  }

  /** The upsert of a token: afterwards tokenFetch returns it for its id and what it
      returned before for any other id. */
  lemma TokenUpsertThenFetch(tokens: seq<Token>, token: Token, tokenIdHex: string)
    ensures FindOne(ReplaceOne(tokens, KeyIs(TokenId, token.tokenIdHex), token).coll, KeyIs(TokenId, tokenIdHex)) ==
              if tokenIdHex == token.tokenIdHex then Some(token) else FindOne(tokens, KeyIs(TokenId, tokenIdHex))
  {
    assert KeyIs(TokenId, token.tokenIdHex)(token);
    if tokenIdHex == token.tokenIdHex {
      ReplaceOneThenFind(tokens, KeyIs(TokenId, token.tokenIdHex), token);
    } else {
      assert !KeyIs(TokenId, tokenIdHex)(token);
      ReplaceOneKeepsOtherFind(tokens, KeyIs(TokenId, token.tokenIdHex), token, KeyIs(TokenId, tokenIdHex));
    }
  }

  // ---------------------------------------------------------------------------
  // One more step of a delete loop

  lemma DeleteHashStep(c0: seq<Txn>, done: set<string>, h: string)
    ensures DeleteMany(DeleteMany(c0, KeyIn(TxHash, done)), KeyIs(TxHash, h)) == DeleteMany(c0, KeyIn(TxHash, done + {h}))
  {
    DeleteManyTwice(c0, KeyIn(TxHash, done), KeyIs(TxHash, h), KeyIn(TxHash, done + {h}));
  }

  lemma DeleteGraphStep(g0: seq<GraphTxn>, path: string, done: set<string>, txid: string)
    ensures DeleteMany(DeleteMany(g0, GraphFieldIn(path, done)), GraphFieldIn(path, {txid})) ==
              DeleteMany(g0, GraphFieldIn(path, done + {txid}))
  {
    DeleteManyTwice(g0, GraphFieldIn(path, done), GraphFieldIn(path, {txid}), GraphFieldIn(path, done + {txid}));
  }

  /** A delete keeps the hashes of what remains distinct. */
  lemma DeleteKeepsDistinctHashes(c: seq<Txn>, p: Txn -> bool)
    requires DistinctHashes(c)
    ensures DistinctHashes(DeleteMany(c, p))
  {
    WhereKeepsKeysDistinct(c, Complement(p), TxHash);
  }

  // ---------------------------------------------------------------------------

  class Db {
    const config: DbConfig

    /** Whether the client is connected (`this.mongo` is set). */
    var connected: bool

    var statuses: seq<Status>
    var tokens: seq<Token>
    var graphs: seq<GraphTxn>
    var addresses: seq<AddressBalance>
    var utxos: seq<Utxo>
    var unconfirmed: seq<Txn>
    var confirmed: seq<Txn>

    /** The indexes built so far. */
    var indexes: set<IndexCall>

    /** The chunks handed to `insertMany` on the confirmed collection, in order. */
    ghost var insertLog: seq<seq<Txn>>

    predicate ConfirmedUnique()
      reads this`indexes
    {
      IndexCall(ConfirmedName, UniqueHashIndex) in indexes
    }

    predicate UnconfirmedUnique()
      reads this`indexes
    {
      IndexCall(UnconfirmedName, UniqueHashIndex) in indexes
    }

    /** One checkpoint per context, one token per id and one graph record per
        (token, txid). */
    ghost predicate KeysValid()
      reads this`statuses, this`tokens, this`graphs
    {
      && KeysDistinct(statuses, StatusContext)
      && KeysDistinct(tokens, TokenId)
      && KeysDistinct(graphs, GraphKey)
    }

    /** Distinct hashes wherever a unique `tx.h` index exists. */
    ghost predicate HashesValid()
      reads this`indexes, this`confirmed, this`unconfirmed
    {
      && (IndexCall(ConfirmedName, UniqueHashIndex) in indexes ==> DistinctHashes(confirmed))
      && (IndexCall(UnconfirmedName, UniqueHashIndex) in indexes ==> DistinctHashes(unconfirmed))
    }

    ghost predicate Valid()
      reads this
    {
      KeysValid() && HashesValid()
    }

    /** A layer over an empty database, not yet connected. */
    constructor (config: DbConfig)
      ensures Valid() && this.config == config && !connected
      ensures statuses == [] && tokens == [] && graphs == [] && addresses == [] && utxos == []
      ensures unconfirmed == [] && confirmed == [] && indexes == {} && insertLog == []
    {
      this.config := config;
      connected := false;
      statuses, tokens, graphs, addresses, utxos := [], [], [], [], [];
      unconfirmed, confirmed := [], [];
      indexes := {};
      insertLog := [];
    }

    /** Connects on first use; reports whether this call made the connection. */
    method CheckClientStatus() returns (connectedNow: bool)
      modifies this`connected
      ensures connected
      ensures connectedNow <==> !old(connected)
    {
      if !connected {
        connected := true;
        return true;
      }
      return false;
    }

    // --- statuses ------------------------------------------------------------

    method StatusUpdate(status: Status)
      requires Valid()
      modifies this`connected, this`statuses
      ensures Valid() && connected
      ensures statuses == ReplaceAll(old(statuses), KeyIs(StatusContext, status.context), [status])
      ensures Where(statuses, KeyIs(StatusContext, status.context)) == [status]
      ensures DeleteMany(statuses, KeyIs(StatusContext, status.context)) == DeleteMany(old(statuses), KeyIs(StatusContext, status.context))
    {
      var _ := CheckClientStatus();
      DeleteThenInsertKeepsKeysDistinct(statuses, StatusContext, status);
      ReplaceAllFetch(statuses, StatusContext, status.context, [status], status.context);
      statuses := DeleteMany(statuses, KeyIs(StatusContext, status.context));
      statuses := statuses + [status];
    }

    method StatusFetch(context: string) returns (r: Option<Status>)
      requires Valid()
      modifies this`connected
      ensures connected
      ensures r == FindOne(statuses, KeyIs(StatusContext, context))
      ensures r.Some? ==> r.value in statuses && r.value.context == context
      ensures r.None? <==> forall s :: s in statuses ==> s.context != context
    {
      var _ := CheckClientStatus();
      r := FindOne(statuses, KeyIs(StatusContext, context));
      FindOneKeyIs(statuses, StatusContext, context);
    }

    // --- tokens --------------------------------------------------------------

    method TokenInsertReplace(token: Token)
      requires Valid()
      modifies this`connected, this`tokens
      ensures Valid() && connected
      ensures tokens == ReplaceOne(old(tokens), KeyIs(TokenId, token.tokenIdHex), token).coll
    {
      var _ := CheckClientStatus();
      ReplaceOneKeepsKeysDistinct(tokens, TokenId, token);
      tokens := ReplaceOne(tokens, KeyIs(TokenId, token.tokenIdHex), token).coll;
    }

    method TokenDelete(tokenIdHex: string) returns (deleted: nat)
      requires Valid()
      modifies this`connected, this`tokens
      ensures Valid() && connected
      ensures tokens == DeleteMany(old(tokens), KeyIs(TokenId, tokenIdHex))
      ensures deleted == |Where(old(tokens), KeyIs(TokenId, tokenIdHex))| <= 1
    {
      var _ := CheckClientStatus();
      DeletedCount(tokens, KeyIs(TokenId, tokenIdHex));
      AtMostOnePerKey(tokens, TokenId, tokenIdHex);
      WhereKeepsKeysDistinct(tokens, Complement(KeyIs(TokenId, tokenIdHex)), TokenId);
      var before := |tokens|;
      tokens := DeleteMany(tokens, KeyIs(TokenId, tokenIdHex));
      deleted := before - |tokens|;
    }

    method TokenFetch(tokenIdHex: string) returns (r: Option<Token>)
      requires Valid()
      modifies this`connected
      ensures connected
      ensures r == FindOne(tokens, KeyIs(TokenId, tokenIdHex))
      ensures r.None? <==> forall t :: t in tokens ==> t.tokenIdHex != tokenIdHex
    {
      var _ := CheckClientStatus();
      r := FindOne(tokens, KeyIs(TokenId, tokenIdHex));
      FindOneKeyIs(tokens, TokenId, tokenIdHex);
    }

    /** The tokens whose creation block is known, in stored order. */
    method TokenFetchAll() returns (r: seq<Token>)
      requires Valid()
      modifies this`connected
      ensures connected
      ensures r == Where(tokens, TokenCreated())
      ensures forall t :: t in r <==> t in tokens && t.blockCreated.Some?
    {
      var _ := CheckClientStatus();
      r := Where(tokens, TokenCreated());
    }

    method TokenReset()
      requires Valid()
      modifies this`connected, this`tokens
      ensures Valid() && connected && tokens == []
    {
      var _ := CheckClientStatus();
      tokens := [];
    }

    /** The token whose mint baton sits at the given outpoint. */
    method SingleMintUtxo(utxo: string) returns (r: Option<Token>)
      requires Valid()
      modifies this`connected
      ensures connected
      ensures r == FindOne(tokens, KeyIs(MintBaton, Some(utxo)))
      ensures r.Some? ==> r.value in tokens && r.value.mintBatonUtxo == Some(utxo)
    {
      var _ := CheckClientStatus();
      r := FindOne(tokens, KeyIs(MintBaton, Some(utxo)));
      FindOneKeyIs(tokens, MintBaton, Some(utxo));
    }

    // --- graphs --------------------------------------------------------------

    /** The update loop of graphItemsUpsert: stops at the first item whose upsert
        neither modified nor inserted a record. */
    method UpsertGraphItems(items: seq<GraphTxn>) returns (failedAt: Option<nat>)
      requires connected
      requires Valid()
      modifies this`graphs
      ensures Valid()
      ensures UpsertFrom(old(graphs), items, 0) == UpsertRun(graphs, failedAt)
    {
      failedAt := None;
      for k := 0 to |items|
        invariant UpsertFrom(old(graphs), items, 0) == UpsertFrom(graphs, items, k)
        invariant Valid()
      {
        var res := ReplaceOne(graphs, SameGraphKey(items[k]), items[k]);
        ReplaceOneKeepsKeysDistinct(graphs, GraphKey, items[k]);
        graphs := res.coll;
        if res.modified == 0 && res.upserted == 0 {
          failedAt := Some(k);
          return;
        }
      }
    }

    /** The delete loop of graphItemsUpsert: for each txid, the graph records whose
        field at `graphPath` is that txid, then the confirmed and the unconfirmed
        transactions with that hash. */
    method DeleteTxns(txids: seq<string>, graphPath: string)
      requires connected
      requires Valid()
      modifies this`graphs, this`confirmed, this`unconfirmed
      ensures Valid()
      ensures graphs == DeleteMany(old(graphs), GraphFieldIn(graphPath, Elements(txids)))
      ensures confirmed == DeleteMany(old(confirmed), KeyIn(TxHash, Elements(txids)))
      ensures unconfirmed == DeleteMany(old(unconfirmed), KeyIn(TxHash, Elements(txids)))
    {
      ghost var g0, c0, u0 := graphs, confirmed, unconfirmed;
      assert Elements(txids[..0]) == {};
      DeleteManyNothing(graphs, GraphFieldIn(graphPath, {}));
      DeleteManyNothing(confirmed, KeyIn(TxHash, {}));
      DeleteManyNothing(unconfirmed, KeyIn(TxHash, {}));
      for k := 0 to |txids|
        invariant graphs == DeleteMany(g0, GraphFieldIn(graphPath, Elements(txids[..k])))
        invariant confirmed == DeleteMany(c0, KeyIn(TxHash, Elements(txids[..k])))
        invariant unconfirmed == DeleteMany(u0, KeyIn(TxHash, Elements(txids[..k])))
        invariant Valid()
      {
        var txid := txids[k];
        ghost var done := Elements(txids[..k]);
        assert Elements(txids[..k + 1]) == done + {txid} by {
          assert txids[..k + 1] == txids[..k] + [txid];
        }
        DeleteGraphStep(g0, graphPath, done, txid);
        DeleteHashStep(c0, done, txid);
        DeleteHashStep(u0, done, txid);
        DeleteTxn(txid, graphPath);
      }
      assert txids[..|txids|] == txids;
    }

    /** One round of the delete loop of graphItemsUpsert. */
    method DeleteTxn(txid: string, graphPath: string)
      requires connected
      requires Valid()
      modifies this`graphs, this`confirmed, this`unconfirmed
      ensures Valid()
      ensures graphs == DeleteMany(old(graphs), GraphFieldIn(graphPath, {txid}))
      ensures confirmed == DeleteMany(old(confirmed), KeyIs(TxHash, txid))
      ensures unconfirmed == DeleteMany(old(unconfirmed), KeyIs(TxHash, txid))
    {
      WhereKeepsKeysDistinct(graphs, Complement(GraphFieldIn(graphPath, {txid})), GraphKey);
      if ConfirmedUnique() {
        DeleteKeepsDistinctHashes(confirmed, KeyIs(TxHash, txid));
      }
      if UnconfirmedUnique() {
        DeleteKeepsDistinctHashes(unconfirmed, KeyIs(TxHash, txid));
      }
      graphs := DeleteMany(graphs, GraphFieldIn(graphPath, {txid}));
      confirmed := DeleteMany(confirmed, KeyIs(TxHash, txid));
      unconfirmed := DeleteMany(unconfirmed, KeyIs(TxHash, txid));
    }

    /** graphItemsUpsert with the graph records deleted by the field at `graphPath`:
        the update loop, then (if it did not throw) the token upsert, then the delete
        loop. */
    method UpsertGraph(itemsToUpdate: seq<GraphTxn>, tokenDbo: Token, itemsToDelete: seq<string>, graphPath: string)
      returns (outcome: Outcome)
      requires Valid()
      modifies this`connected, this`graphs, this`tokens, this`confirmed, this`unconfirmed
      ensures Valid() && connected
      ensures var run := UpsertFrom(old(graphs), itemsToUpdate, 0);
        if run.failedAt.Some? then
          var item := itemsToUpdate[run.failedAt.value];
          && outcome == Thrown(GraphNotUpdated(item.txid, item.tokenIdHex))
          && graphs == run.graphs
          && tokens == old(tokens) && confirmed == old(confirmed) && unconfirmed == old(unconfirmed)
        else
          && outcome == Done
          && graphs == DeleteMany(run.graphs, GraphFieldIn(graphPath, Elements(itemsToDelete)))
          && tokens == ReplaceOne(old(tokens), KeyIs(TokenId, tokenDbo.tokenIdHex), tokenDbo).coll
          && confirmed == DeleteMany(old(confirmed), KeyIn(TxHash, Elements(itemsToDelete)))
          && unconfirmed == DeleteMany(old(unconfirmed), KeyIn(TxHash, Elements(itemsToDelete)))
    {
      var _ := CheckClientStatus();
      var failedAt := UpsertGraphItems(itemsToUpdate);
      if failedAt.Some? {
        var item := itemsToUpdate[failedAt.value];
        return Thrown(GraphNotUpdated(item.txid, item.tokenIdHex));
      }
      TokenInsertReplace(tokenDbo);
      DeleteTxns(itemsToDelete, graphPath);
      outcome := Done;
    }

    /** graphItemsUpsert as written: its delete step names the path `grpahTxn.txid`,
        which no graph record has, so the graphs end exactly as the update loop left
        them and no listed graph record is removed. */
    method GraphItemsUpsert(itemsToUpdate: seq<GraphTxn>, tokenDbo: Token, itemsToDelete: seq<string>)
      returns (outcome: Outcome)
      requires Valid()
      modifies this`connected, this`graphs, this`tokens, this`confirmed, this`unconfirmed
      ensures Valid() && connected
      ensures var run := UpsertFrom(old(graphs), itemsToUpdate, 0);
        && graphs == run.graphs
        && (run.failedAt.None? <==> outcome == Done)
        && (run.failedAt.None? ==>
              && tokens == ReplaceOne(old(tokens), KeyIs(TokenId, tokenDbo.tokenIdHex), tokenDbo).coll
              && confirmed == DeleteMany(old(confirmed), KeyIn(TxHash, Elements(itemsToDelete)))
              && unconfirmed == DeleteMany(old(unconfirmed), KeyIn(TxHash, Elements(itemsToDelete))))
        && (run.failedAt.Some? ==>
              && tokens == old(tokens) && confirmed == old(confirmed) && unconfirmed == old(unconfirmed))
    {
      ghost var run := UpsertFrom(graphs, itemsToUpdate, 0);
      outcome := UpsertGraph(itemsToUpdate, tokenDbo, itemsToDelete, GraphTxidPathAsWritten);
      MisspelledPathDeletesNothing(run.graphs, Elements(itemsToDelete));
    }

    /** graphItemsUpsert with its delete step on `graphTxn.txid`: every graph record
        whose txid is listed is removed after the update loop. */
    method GraphItemsUpsertIntended(itemsToUpdate: seq<GraphTxn>, tokenDbo: Token, itemsToDelete: seq<string>)
      returns (outcome: Outcome)
      requires Valid()
      modifies this`connected, this`graphs, this`tokens, this`confirmed, this`unconfirmed
      ensures Valid() && connected
      ensures var run := UpsertFrom(old(graphs), itemsToUpdate, 0);
        && (run.failedAt.None? <==> outcome == Done)
        && (run.failedAt.None? ==>
              && graphs == DeleteMany(run.graphs, KeyIn(GraphTxid, Elements(itemsToDelete)))
              && (forall g :: g in graphs ==> g.txid !in itemsToDelete)
              && tokens == ReplaceOne(old(tokens), KeyIs(TokenId, tokenDbo.tokenIdHex), tokenDbo).coll
              && confirmed == DeleteMany(old(confirmed), KeyIn(TxHash, Elements(itemsToDelete)))
              && unconfirmed == DeleteMany(old(unconfirmed), KeyIn(TxHash, Elements(itemsToDelete))))
        && (run.failedAt.Some? ==>
              && graphs == run.graphs
              && tokens == old(tokens) && confirmed == old(confirmed) && unconfirmed == old(unconfirmed))
    {
      ghost var run := UpsertFrom(graphs, itemsToUpdate, 0);
      outcome := UpsertGraph(itemsToUpdate, tokenDbo, itemsToDelete, GraphTxidPath);
      TxidPathDeletesListed(run.graphs, Elements(itemsToDelete));
    }

    method GraphDelete(tokenIdHex: string) returns (deleted: nat)
      requires Valid()
      modifies this`connected, this`graphs
      ensures Valid() && connected
      ensures graphs == DeleteMany(old(graphs), KeyIs(GraphToken, tokenIdHex))
      ensures deleted == |Where(old(graphs), KeyIs(GraphToken, tokenIdHex))|
    {
      var _ := CheckClientStatus();
      DeletedCount(graphs, KeyIs(GraphToken, tokenIdHex));
      WhereKeepsKeysDistinct(graphs, Complement(KeyIs(GraphToken, tokenIdHex)), GraphKey);
      var before := |graphs|;
      graphs := DeleteMany(graphs, KeyIs(GraphToken, tokenIdHex));
      deleted := before - |graphs|;
    }

    /** A token's graph records, all of them or, with a truthy `lastPrunedHeight`,
        those pruned after it, never pruned, or the token's genesis record. */
    method GraphFetch(tokenIdHex: string, lastPrunedHeight: Option<int>) returns (r: seq<GraphTxn>)
      requires Valid()
      modifies this`connected
      ensures connected
      ensures r == Where(graphs, GraphFetchFilter(tokenIdHex, lastPrunedHeight))
      ensures forall g :: g in r ==> g in graphs && g.tokenIdHex == tokenIdHex
    {
      var _ := CheckClientStatus();
      r := Where(graphs, GraphFetchFilter(tokenIdHex, lastPrunedHeight));
      forall g | g in r ensures g.tokenIdHex == tokenIdHex {
        GraphFetchFilterSelects(tokenIdHex, lastPrunedHeight, g);
      }
    }

    method GraphTxnFetch(txid: string) returns (r: Option<GraphTxn>)
      requires Valid()
      modifies this`connected
      ensures connected
      ensures r == FindOne(graphs, KeyIs(GraphTxid, txid))
      ensures r.Some? ==> r.value in graphs && r.value.txid == txid
    {
      var _ := CheckClientStatus();
      r := FindOne(graphs, KeyIs(GraphTxid, txid));
      FindOneKeyIs(graphs, GraphTxid, txid);
    }

    method GraphReset()
      requires Valid()
      modifies this`connected, this`graphs
      ensures Valid() && connected && graphs == []
    {
      var _ := CheckClientStatus();
      graphs := [];
    }

    // --- addresses -----------------------------------------------------------

    /** Replaces a token's address balances; the insert is issued (and its count
        returned) only when there is something to insert. */
    method AddressInsertReplace(balances: seq<AddressBalance>, tokenIdHex: string) returns (inserted: Option<nat>)
      requires Valid()
      modifies this`connected, this`addresses
      ensures Valid() && connected
      ensures addresses == ReplaceAll(old(addresses), KeyIs(AddressToken, tokenIdHex), balances)
      ensures AllKeyed(balances, AddressToken, tokenIdHex) ==>
        && Where(addresses, KeyIs(AddressToken, tokenIdHex)) == balances
        && DeleteMany(addresses, KeyIs(AddressToken, tokenIdHex)) == DeleteMany(old(addresses), KeyIs(AddressToken, tokenIdHex))
      ensures inserted == if |balances| > 0 then Some(|balances|) else None
    {
      var _ := CheckClientStatus();
      addresses := DeleteMany(addresses, KeyIs(AddressToken, tokenIdHex));
      inserted := None;
      if |balances| > 0 {
        addresses := addresses + balances;
        inserted := Some(|balances|);
      }
      if AllKeyed(balances, AddressToken, tokenIdHex) {
        ReplaceAllFetch(old(addresses), AddressToken, tokenIdHex, balances, tokenIdHex);
      }
    }

    /** Empty in the source: changes nothing. */
    method AddressUpsert(balances: seq<AddressBalance>)
    {
    }

    method AddressDelete(tokenIdHex: string) returns (deleted: nat)
      requires Valid()
      modifies this`connected, this`addresses
      ensures Valid() && connected
      ensures addresses == DeleteMany(old(addresses), KeyIs(AddressToken, tokenIdHex))
      ensures deleted == |Where(old(addresses), KeyIs(AddressToken, tokenIdHex))|
    {
      var _ := CheckClientStatus();
      DeletedCount(addresses, KeyIs(AddressToken, tokenIdHex));
      var before := |addresses|;
      addresses := DeleteMany(addresses, KeyIs(AddressToken, tokenIdHex));
      deleted := before - |addresses|;
    }

    method AddressFetch(tokenIdHex: string) returns (r: seq<AddressBalance>)
      requires Valid()
      modifies this`connected
      ensures connected
      ensures r == Where(addresses, KeyIs(AddressToken, tokenIdHex))
      ensures forall a :: a in r <==> a in addresses && a.tokenIdHex == tokenIdHex
    {
      var _ := CheckClientStatus();
      r := Where(addresses, KeyIs(AddressToken, tokenIdHex));
      WhereKeyIs(addresses, AddressToken, tokenIdHex);
    }

    method AddressReset()
      requires Valid()
      modifies this`connected, this`addresses
      ensures Valid() && connected && addresses == []
    {
      var _ := CheckClientStatus();
      addresses := [];
    }

    // --- utxos ---------------------------------------------------------------

    /** Replaces a token's unspent outputs; the insert is issued (and its count
        returned) only when there is something to insert. */
    method UtxoInsertReplace(outputs: seq<Utxo>, tokenIdHex: string) returns (inserted: Option<nat>)
      requires Valid()
      modifies this`connected, this`utxos
      ensures Valid() && connected
      ensures utxos == ReplaceAll(old(utxos), KeyIs(UtxoToken, tokenIdHex), outputs)
      ensures AllKeyed(outputs, UtxoToken, tokenIdHex) ==>
        && Where(utxos, KeyIs(UtxoToken, tokenIdHex)) == outputs
        && DeleteMany(utxos, KeyIs(UtxoToken, tokenIdHex)) == DeleteMany(old(utxos), KeyIs(UtxoToken, tokenIdHex))
      ensures inserted == if |outputs| > 0 then Some(|outputs|) else None
    {
      var _ := CheckClientStatus();
      utxos := DeleteMany(utxos, KeyIs(UtxoToken, tokenIdHex));
      inserted := None;
      if |outputs| > 0 {
        utxos := utxos + outputs;
        inserted := Some(|outputs|);
      }
      if AllKeyed(outputs, UtxoToken, tokenIdHex) {
        ReplaceAllFetch(old(utxos), UtxoToken, tokenIdHex, outputs, tokenIdHex);
      }
    }

    /** Empty in the source: changes nothing. */
    method UtxoUpsert(outputs: seq<Utxo>)
    {
    }

    method UtxoDelete(tokenIdHex: string) returns (deleted: nat)
      requires Valid()
      modifies this`connected, this`utxos
      ensures Valid() && connected
      ensures utxos == DeleteMany(old(utxos), KeyIs(UtxoToken, tokenIdHex))
      ensures deleted == |Where(old(utxos), KeyIs(UtxoToken, tokenIdHex))|
    {
      var _ := CheckClientStatus();
      DeletedCount(utxos, KeyIs(UtxoToken, tokenIdHex));
      var before := |utxos|;
      utxos := DeleteMany(utxos, KeyIs(UtxoToken, tokenIdHex));
      deleted := before - |utxos|;
    }

    method UtxoFetch(tokenIdHex: string) returns (r: seq<Utxo>)
      requires Valid()
      modifies this`connected
      ensures connected
      ensures r == Where(utxos, KeyIs(UtxoToken, tokenIdHex))
      ensures forall u :: u in r <==> u in utxos && u.tokenIdHex == tokenIdHex
    {
      var _ := CheckClientStatus();
      r := Where(utxos, KeyIs(UtxoToken, tokenIdHex));
      WhereKeyIs(utxos, UtxoToken, tokenIdHex);
    }

    /** The unspent output stored under the given outpoint locator. */
    method SingleUtxo(utxo: string) returns (r: Option<Utxo>)
      requires Valid()
      modifies this`connected
      ensures connected
      ensures r == FindOne(utxos, KeyIs(UtxoLocator, utxo))
      ensures r.Some? ==> r.value in utxos && r.value.utxo == utxo
    {
      var _ := CheckClientStatus();
      r := FindOne(utxos, KeyIs(UtxoLocator, utxo));
      FindOneKeyIs(utxos, UtxoLocator, utxo);
    }

    method UtxoReset()
      requires Valid()
      modifies this`connected, this`utxos
      ensures Valid() && connected && utxos == []
    {
      var _ := CheckClientStatus();
      utxos := [];
    }

    // --- unconfirmed transactions --------------------------------------------

    /** Inserts one mempool transaction; with a unique `tx.h` index a hash already
        stored is refused with the duplicate-key error, which is raised. */
    method UnconfirmedInsert(item: Txn) returns (outcome: Outcome)
      requires Valid()
      modifies this`connected, this`unconfirmed
      ensures Valid() && connected
      ensures var duplicate := UnconfirmedUnique() && item.h in HashSet(old(unconfirmed));
        && unconfirmed == (if duplicate then old(unconfirmed) else old(unconfirmed) + [item])
        && outcome == (if duplicate then Thrown(BackendError(DuplicateKeyCode)) else Done)
    {
      var _ := CheckClientStatus();
      var unique := UnconfirmedUnique();
      if unique && item.h !in HashSet(unconfirmed) {
        assert Admitted([item], HashSet(unconfirmed)) == [item] by {
          assert [item][1..] == [];
        }
      }
      if unique && item.h in HashSet(unconfirmed) {
        assert HashSet([item]) <= HashSet(unconfirmed) by {
          assert forall t :: t in [item] ==> t == item;
        }
      }
      var res := InsertUnordered(unconfirmed, [item], unique);
      unconfirmed := res.coll;
      if res.code.Some? {
        return Thrown(BackendError(res.code.value));
      }
      outcome := Done;
    }

    method UnconfirmedReset()
      requires Valid()
      modifies this`connected, this`unconfirmed
      ensures Valid() && connected && unconfirmed == []
    {
      var _ := CheckClientStatus();
      unconfirmed := [];
    }

    method UnconfirmedFetch(txid: string) returns (r: Option<Txn>)
      requires Valid()
      modifies this`connected
      ensures connected
      ensures r == FindOne(unconfirmed, KeyIs(TxHash, txid))
      ensures r.Some? ==> r.value in unconfirmed && r.value.h == txid
    {
      var _ := CheckClientStatus();
      r := FindOne(unconfirmed, KeyIs(TxHash, txid));
      FindOneKeyIs(unconfirmed, TxHash, txid);
    }

    method UnconfirmedDelete(txid: string) returns (deleted: nat)
      requires Valid()
      modifies this`connected, this`unconfirmed
      ensures Valid() && connected
      ensures unconfirmed == DeleteMany(old(unconfirmed), KeyIs(TxHash, txid))
      ensures deleted == |Where(old(unconfirmed), KeyIs(TxHash, txid))|
      ensures UnconfirmedUnique() ==> deleted <= 1
    {
      var _ := CheckClientStatus();
      DeletedCount(unconfirmed, KeyIs(TxHash, txid));
      if UnconfirmedUnique() {
        AtMostOnePerKey(unconfirmed, TxHash, txid);
        WhereKeepsKeysDistinct(unconfirmed, Complement(KeyIs(TxHash, txid)), TxHash);
      }
      var before := |unconfirmed|;
      unconfirmed := DeleteMany(unconfirmed, KeyIs(TxHash, txid));
      deleted := before - |unconfirmed|;
    }

    /** The unconfirmed transactions with a truthy `slp` field, in stored order. */
    method UnconfirmedProcessedSlp() returns (r: seq<Txn>)
      requires Valid()
      modifies this`connected
      ensures connected
      ensures r == Where(unconfirmed, SlpTagged())
      ensures forall t :: t in r <==> t in unconfirmed && Truthy(t.slp)
    {
      var _ := CheckClientStatus();
      r := Where(unconfirmed, SlpTagged());
    }

    // --- confirmed transactions ----------------------------------------------

    method ConfirmedFetch(txid: string) returns (r: Option<Txn>)
      requires Valid()
      modifies this`connected
      ensures connected
      ensures r == FindOne(confirmed, KeyIs(TxHash, txid))
      ensures r.Some? ==> r.value in confirmed && r.value.h == txid
    {
      var _ := CheckClientStatus();
      r := FindOne(confirmed, KeyIs(TxHash, txid));
      FindOneKeyIs(confirmed, TxHash, txid);
    }

    method ConfirmedDelete(txid: string) returns (deleted: nat)
      requires Valid()
      modifies this`connected, this`confirmed
      ensures Valid() && connected
      ensures confirmed == DeleteMany(old(confirmed), KeyIs(TxHash, txid))
      ensures deleted == |Where(old(confirmed), KeyIs(TxHash, txid))|
      ensures ConfirmedUnique() ==> deleted <= 1
    {
      var _ := CheckClientStatus();
      DeletedCount(confirmed, KeyIs(TxHash, txid));
      if ConfirmedUnique() {
        AtMostOnePerKey(confirmed, TxHash, txid);
        WhereKeepsKeysDistinct(confirmed, Complement(KeyIs(TxHash, txid)), TxHash);
      }
      var before := |confirmed|;
      confirmed := DeleteMany(confirmed, KeyIs(TxHash, txid));
      deleted := before - |confirmed|;
    }

    method ConfirmedReset()
      requires Valid()
      modifies this`connected, this`confirmed
      ensures Valid() && connected && confirmed == []
    {
      var _ := CheckClientStatus();
      confirmed := [];
    }

    /** One unordered `insertMany` of a chunk into the confirmed collection. */
    method InsertChunk(chunk: seq<Txn>, fault: Option<InsertFault>) returns (code: Option<int>)
      requires connected
      requires HashesValid()
      modifies this`confirmed, this`insertLog
      ensures HashesValid()
      ensures var res := InsertManyUnordered(old(confirmed), chunk, ConfirmedUnique(), fault);
        confirmed == res.coll && code == res.code
      ensures insertLog == old(insertLog) + [chunk]
    {
      var res := InsertManyUnordered(confirmed, chunk, ConfirmedUnique(), fault);
      confirmed := res.coll;
      code := res.code;
      insertLog := insertLog + [chunk];
    }

    /** Where the chunk loop stands after `call` chunks, the next one starting at
        `index`: the chunks so far are logged, and the rest of the run from here ends
        as `run`, the whole run, ends. */
    ghost predicate ChunkLoop(items: seq<Txn>, faults: seq<Option<InsertFault>>, log0: seq<seq<Txn>>, run: BatchRun, index: nat, call: nat)
      reads this`confirmed, this`insertLog, this`indexes
    {
      var chunks := Chunks(items);
      && call <= |chunks| && ChunksFrom(items, index) == chunks[call..]
      && call <= run.issued
      && RunBatches(confirmed, chunks, ConfirmedUnique(), faults, call) == BatchRun(run.coll, run.issued - call, run.outcome)
      && insertLog == log0 + chunks[..call]
    }

    /** One pass of the chunk loop: the slice at `index` goes to an insert unless it is
        empty; `more` says whether the loop goes on, `error` what it raises. */
    method ChunkStep(items: seq<Txn>, faults: seq<Option<InsertFault>>, ghost log0: seq<seq<Txn>>, ghost run: BatchRun, index: nat, call: nat)
      returns (more: bool, error: Option<int>)
      requires connected
      requires HashesValid() && ChunkLoop(items, faults, log0, run, index, call)
      modifies this`confirmed, this`insertLog
      ensures HashesValid()
      ensures more ==> index < |items| && error.None? && ChunkLoop(items, faults, log0, run, index + BatchSize, call + 1)
      ensures !more ==> confirmed == run.coll && insertLog == log0 + Chunks(items)[..run.issued]
      ensures !more && error.None? ==> run.outcome == Done
      ensures error.Some? ==> !more && run.outcome == Thrown(BackendError(error.value))
    {
      ghost var chunks := Chunks(items);
      var chunk := Slice(items, index, index + BatchSize);
      NextChunk(items, index, chunks, call);
      if |chunk| > 0 {
        RunBatchesStep(confirmed, chunks, ConfirmedUnique(), faults, call);
        var code := InsertChunk(chunk, FaultAt(faults, call));
        more := Swallowed(code);
        error := if more then None else Some(code.value);
      } else {
        more, error := false, None;
      }
    }

    /** The chunk loop shared by confirmedReplace and confirmedInsert: slices of 1000
        go to unordered inserts until the slice is empty; a duplicate-key error is
        swallowed and any other error is raised. */
    method InsertInChunks(items: seq<Txn>, faults: seq<Option<InsertFault>>) returns (outcome: Outcome)
      requires connected
      requires HashesValid()
      modifies this`confirmed, this`insertLog
      ensures HashesValid()
      ensures var run := InsertBatches(old(confirmed), items, ConfirmedUnique(), faults);
        && confirmed == run.coll
        && outcome == run.outcome
        && insertLog == old(insertLog) + Chunks(items)[..run.issued]
    {
      ghost var run := InsertBatches(confirmed, items, ConfirmedUnique(), faults);
      var index: nat := 0;
      var call: nat := 0;
      var more := true;
      var error: Option<int> := None;
      while more
        invariant HashesValid()
        invariant more ==> ChunkLoop(items, faults, old(insertLog), run, index, call)
        invariant !more ==> confirmed == run.coll && insertLog == old(insertLog) + Chunks(items)[..run.issued]
        invariant !more ==> run.outcome == if error.Some? then Thrown(BackendError(error.value)) else Done
        decreases |items| - index, more
      {
        more, error := ChunkStep(items, faults, old(insertLog), run, index, call);
        if more {
          index := index + BatchSize;
          call := call + 1;
        }
      }
      outcome := if error.Some? then Thrown(BackendError(error.value)) else Done;
    }

    /** Replaces a block's transactions: refuses items without block metadata, deletes
        the block (truthy `blockIndex`) or each item's hash, then inserts the items in
        chunks. */
    method ConfirmedReplace(items: seq<Txn>, blockIndex: Option<int>, faults: seq<Option<InsertFault>>) returns (outcome: Outcome)
      requires Valid()
      modifies this`connected, this`confirmed, this`insertLog
      ensures Valid() && connected
      ensures var run := ReplaceBatches(old(confirmed), items, blockIndex, ConfirmedUnique(), faults);
        && confirmed == run.coll
        && outcome == run.outcome
        && insertLog == old(insertLog) + Chunks(items)[..run.issued]
      ensures (exists t :: t in items && t.blk.None?) ==>
        confirmed == old(confirmed) && outcome == Thrown(MissingBlk) && insertLog == old(insertLog)
    {
      var _ := CheckClientStatus();
      if SomeItemLacksBlk(items) {
        assert Chunks(items)[..0] == [];
        return Thrown(MissingBlk);
      }
      if TruthyNumber(blockIndex) {
        if ConfirmedUnique() {
          DeleteKeepsDistinctHashes(confirmed, KeyIs(BlkIndex, blockIndex));
        }
        confirmed := DeleteMany(confirmed, KeyIs(BlkIndex, blockIndex));
      } else {
        DeleteEachHash(items);
      }
      outcome := InsertInChunks(items, faults);
    }

    /** The pre-delete of confirmedReplace without a block height: for each item, the
        confirmed transactions with its hash. */
    method DeleteEachHash(items: seq<Txn>)
      requires connected
      requires Valid()
      modifies this`confirmed
      ensures Valid()
      ensures confirmed == DeleteMany(old(confirmed), KeyIn(TxHash, HashSet(items)))
    {
      ghost var c0 := confirmed;
      DeleteManyNothing(confirmed, KeyIn(TxHash, HashSet(items[..0])));
      for i := 0 to |items|
        invariant confirmed == DeleteMany(c0, KeyIn(TxHash, HashSet(items[..i])))
        invariant Valid()
      {
        ghost var done := HashSet(items[..i]);
        assert HashSet(items[..i + 1]) == done + {items[i].h} by {
          assert items[..i + 1] == items[..i] + [items[i]];
          HashSetAppend(items[..i], [items[i]]);
        }
        DeleteHashStep(c0, done, items[i].h);
        if ConfirmedUnique() {
          DeleteKeepsDistinctHashes(confirmed, KeyIs(TxHash, items[i].h));
        }
        confirmed := DeleteMany(confirmed, KeyIs(TxHash, items[i].h));
      }
      assert items[..|items|] == items;
    }

    /** Appends transactions in chunks of 1000, tolerating duplicate-key errors. */
    method ConfirmedInsert(items: seq<Txn>, faults: seq<Option<InsertFault>>) returns (outcome: Outcome)
      requires Valid()
      modifies this`connected, this`confirmed, this`insertLog
      ensures Valid() && connected
      ensures var run := InsertBatches(old(confirmed), items, ConfirmedUnique(), faults);
        && confirmed == run.coll
        && outcome == run.outcome
        && insertLog == old(insertLog) + Chunks(items)[..run.issued]
    {
      var _ := CheckClientStatus();
      outcome := InsertInChunks(items, faults);
    }

    // --- indexes -------------------------------------------------------------

    /** `createIndex(call)`: records the index unless the backend refuses it. */
    method CreateIndex(call: IndexCall, fault: Option<int>) returns (error: Option<int>)
      requires connected && HashesValid()
      modifies this`indexes
      ensures HashesValid()
      ensures error == CreateIndexError(call, fault, confirmed, unconfirmed)
      ensures indexes == if error.None? then old(indexes) + {call} else old(indexes)
    {
      error := CreateIndexError(call, fault, confirmed, unconfirmed);
      if error.None? {
        indexes := indexes + {call};
      }
    }

    /** Call `n` of the index plan, all earlier calls having succeeded. */
    method CreatePlanned(ghost plan: seq<IndexCall>, ghost before: set<IndexCall>, ghost m: nat, faults: seq<Option<int>>, n: nat, call: IndexCall)
      returns (error: Option<int>)
      requires connected && HashesValid()
      requires n < |plan| && plan[n] == call
      requires m == FirstFailure(plan, faults, confirmed, unconfirmed, 0) && n <= m
      requires indexes == before + Elements(plan[..n])
      modifies this`indexes
      ensures HashesValid()
      ensures error.Some? ==>
        && m == n && indexes == before + Elements(plan[..n])
        && error == CreateIndexError(plan[n], FaultAt(faults, n), confirmed, unconfirmed)
      ensures error.None? ==> n + 1 <= m && indexes == before + Elements(plan[..n + 1])
    {
      FirstFailureIs(plan, faults, confirmed, unconfirmed, 0);
      error := CreateIndex(call, FaultAt(faults, n));
      assert plan[..n + 1] == plan[..n] + [call];
    }

    /** The key indexes of one collection, in order, which sit in the plan from
        position `start` on. */
    method IndexKeys(ghost plan: seq<IndexCall>, ghost before: set<IndexCall>, ghost m: nat, faults: seq<Option<int>>,
                     start: nat, name: string, keys: seq<string>)
      returns (error: Option<int>, calls: nat)
      requires connected && HashesValid()
      requires Span(plan, start, KeyCalls(name, keys))
      requires m == FirstFailure(plan, faults, confirmed, unconfirmed, 0) && start <= m
      requires indexes == before + Elements(plan[..start])
      modifies this`indexes
      ensures HashesValid()
      ensures calls <= m
        && indexes == before + Elements(plan[..calls])
        && (error.None? ==> calls == start + |keys|)
        && (error.Some? ==> m == calls < |plan| && error == CreateIndexError(plan[m], FaultAt(faults, m), confirmed, unconfirmed))
    {
      ghost var here := KeyCalls(name, keys);
      calls := start;
      error := None;
      for i := 0 to |keys|
        invariant calls == start + i && error.None?
        invariant calls <= m
        invariant indexes == before + Elements(plan[..calls])
        invariant HashesValid()
      {
        var call := IndexCall(name, KeySpec(keys[i]));
        SpanAt(plan, start, here, i);
        error := CreatePlanned(plan, before, m, faults, calls, call);
        if error.Some? {
          return;
        }
        calls := calls + 1;
      }
    }

    /** The calls of one collection's entry, which sit in the plan from position
        `start` on: its key indexes in order, then its text index. */
    method IndexCollection(ghost plan: seq<IndexCall>, ghost before: set<IndexCall>, ghost m: nat, faults: seq<Option<int>>,
                           start: nat, name: string, cfg: IndexConfig)
      returns (error: Option<int>, calls: nat)
      requires connected && HashesValid()
      requires Span(plan, start, CollectionPlan(name, cfg))
      requires m == FirstFailure(plan, faults, confirmed, unconfirmed, 0) && start <= m
      requires indexes == before + Elements(plan[..start])
      modifies this`indexes
      ensures HashesValid()
      ensures calls <= m
        && indexes == before + Elements(plan[..calls])
        && (error.None? ==> calls == start + |CollectionPlan(name, cfg)|)
        && (error.Some? ==> m == calls < |plan| && error == CreateIndexError(plan[m], FaultAt(faults, m), confirmed, unconfirmed))
    {
      ghost var keyCalls := if cfg.keys.Some? then KeyCalls(name, cfg.keys.value) else [];
      ghost var textCalls := TextCalls(name, cfg.fulltext);
      SpanSplit(plan, start, keyCalls, textCalls);
      calls := start;
      error := None;
      if cfg.keys.Some? {
        error, calls := IndexKeys(plan, before, m, faults, start, name, cfg.keys.value);
        if error.Some? {
          return;
        }
      }
      assert calls == start + |keyCalls|;
      if cfg.fulltext.Some? && |cfg.fulltext.value| > 0 {
        var call := IndexCall(name, Text(TextFields(cfg.fulltext.value), FulltextName));
        SpanAt(plan, calls, textCalls, 0);
        error := CreatePlanned(plan, before, m, faults, calls, call);
        if error.Some? {
          return;
        }
        calls := calls + 1;
      }
    }

    /** Entry `j` of the configured collections, those before it having been indexed. */
    method IndexEntry(ghost plan: seq<IndexCall>, ghost before: set<IndexCall>, ghost m: nat, faults: seq<Option<int>>,
                      entries: seq<(string, IndexConfig)>, j: nat, calls: nat)
      returns (error: Option<int>, calls': nat)
      requires connected && HashesValid()
      requires j < |entries| && plan == PlanOf(entries)
      requires m == FirstFailure(plan, faults, confirmed, unconfirmed, 0)
      requires calls == |PlanOf(entries[..j])| <= m
      requires indexes == before + Elements(plan[..calls])
      modifies this`indexes
      ensures HashesValid()
      ensures calls' <= m && indexes == before + Elements(plan[..calls'])
      ensures error.None? ==> calls' == |PlanOf(entries[..j + 1])|
      ensures error.Some? ==> m == calls' < |plan| && error == CreateIndexError(plan[m], FaultAt(faults, m), confirmed, unconfirmed)
    {
      var (name, cfg) := entries[j];
      PlanAt(entries, j);
      error, calls' := IndexCollection(plan, before, m, faults, calls, name, cfg);
    }

    /** The loop over the configured collections. */
    method IndexEntries(entries: seq<(string, IndexConfig)>, faults: seq<Option<int>>) returns (error: Option<int>)
      requires connected && HashesValid()
      modifies this`indexes
      ensures HashesValid()
      ensures var plan := PlanOf(entries);
        var m := FirstFailure(plan, faults, confirmed, unconfirmed, 0);
        && indexes == old(indexes) + Elements(plan[..m])
        && (error.None? <==> m == |plan|)
        && (m < |plan| ==> error == CreateIndexError(plan[m], FaultAt(faults, m), confirmed, unconfirmed))
    {
      ghost var before := indexes;
      ghost var plan := PlanOf(entries);
      ghost var m := FirstFailure(plan, faults, confirmed, unconfirmed, 0);
      var calls: nat := 0;
      error := None;
      assert entries[..0] == [] && entries[..|entries|] == entries;
      for j := 0 to |entries|
        invariant calls == |PlanOf(entries[..j])| <= m
        invariant indexes == before + Elements(plan[..calls])
        invariant HashesValid() && error.None?
      {
        error, calls := IndexEntry(plan, before, m, faults, entries, j, calls);
        if error.Some? {
          return;
        }
      }
    }

    /** Builds the configured indexes in order and raises the first failure; then
        reads back the index information of both transaction collections, raising
        `infoFault` when the backend fails that read. */
    method ConfirmedIndex(faults: seq<Option<int>>, infoFault: Option<int>) returns (outcome: Outcome)
      requires Valid()
      modifies this`connected, this`indexes
      ensures Valid() && connected
      ensures var plan := Plan(config.index);
        var m := FirstFailure(plan, faults, confirmed, unconfirmed, 0);
        && indexes == old(indexes) + Elements(plan[..m])
        && (outcome.Done? <==> m == |plan| && infoFault.None?)
        && (m < |plan| ==>
              outcome == Thrown(BackendError(CreateIndexError(plan[m], FaultAt(faults, m), confirmed, unconfirmed).value)))
        && (m == |plan| && infoFault.Some? ==> outcome == Thrown(BackendError(infoFault.value)))
    {
      var _ := CheckClientStatus();
      if config.index.Some? {
        var error := IndexEntries(config.index.value, faults);
        if error.Some? {
          return Thrown(BackendError(error.value));
        }
      }
      outcome := if infoFault.Some? then Thrown(BackendError(infoFault.value)) else Done;
    }
  }
}
