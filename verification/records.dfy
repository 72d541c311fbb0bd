/** The records the persistence layer stores, reduced to the fields its queries
    read, the filters it issues against them, and the errors it raises. */
module Records {
  import opened Collection

  /** A JavaScript value, as far as truthiness goes. */
  datatype JsValue = Undefined | Null | Bool(b: bool) | Number(n: int) | Str(s: string) | Object

  predicate Truthy(v: JsValue)
  {
    match v
    case Undefined => false
    case Null => false
    case Bool(b) => b
    case Number(n) => n != 0
    case Str(s) => s != ""
    case Object => true
  }

  /** An optional numeric argument (`blockIndex`, `lastPrunedHeight`) tested with `if (x)`:
      absent and zero are falsy. */
  predicate TruthyNumber(x: Option<int>)
  {
    x.Some? && x.value != 0
  }

  /** A sync checkpoint, one per `context`; the rest of the record is opaque here. */
  datatype Status = Status(context: string, body: string)

  /** A token document: `tokenDetails.tokenIdHex`, `tokenStats.block_created`, `mintBatonUtxo`. */
  datatype Token = Token(tokenIdHex: string, blockCreated: Option<int>, mintBatonUtxo: Option<string>, body: string)

  /** A graph document: `tokenDetails.tokenIdHex`, `graphTxn.txid`, `graphTxn.pruneHeight`. */
  datatype GraphTxn = GraphTxn(tokenIdHex: string, txid: string, pruneHeight: Option<int>, body: string)

  /** An address-balance document of one token. */
  datatype AddressBalance = AddressBalance(tokenIdHex: string, address: string, body: string)

  /** An unspent-output document of one token: `utxo` is its outpoint locator. */
  datatype Utxo = Utxo(tokenIdHex: string, utxo: string, body: string)

  /** Block metadata of a transaction: `blk.i` is the block height. */
  datatype Blk = Blk(i: int)

  /** A raw (confirmed or unconfirmed) transaction: `tx.h`, the optional `blk` and `slp`. */
  datatype Txn = Txn(h: string, blk: Option<Blk>, slp: JsValue, body: string)

  // Field accessors, one per field a filter reads.

  function StatusContext(s: Status): string { s.context }
  function TokenId(t: Token): string { t.tokenIdHex }
  function MintBaton(t: Token): Option<string> { t.mintBatonUtxo }
  function GraphToken(g: GraphTxn): string { g.tokenIdHex }
  function GraphTxid(g: GraphTxn): string { g.txid }
  function GraphKey(g: GraphTxn): (string, string) { (g.tokenIdHex, g.txid) }
  function AddressToken(a: AddressBalance): string { a.tokenIdHex }
  function UtxoToken(u: Utxo): string { u.tokenIdHex }
  function UtxoLocator(u: Utxo): string { u.utxo }
  function TxHash(t: Txn): string { t.h }

  /** `blk.i`, which a document without `blk` does not have. */
  function BlkIndex(t: Txn): Option<int>
  {
    if t.blk.Some? then Some(t.blk.value.i) else None
  }

  /** The dotted paths a graph filter can name, and the value each reads; a path no
      graph document has reads as missing and so equals no string. */
  const GraphTxidPath := "graphTxn.txid"
  const GraphTokenPath := "tokenDetails.tokenIdHex"

  function GraphField(g: GraphTxn, path: string): Option<string>
  {
    if path == GraphTxidPath then Some(g.txid)
    else if path == GraphTokenPath then Some(g.tokenIdHex)
    else None
  }

  /** `{ <path>: v }` for some `v` in `vs`. */
  function GraphFieldIn(path: string, vs: set<string>): GraphTxn -> bool
  {
    (g: GraphTxn) => GraphField(g, path).Some? && GraphField(g, path).value in vs
  }

  /** `{ "tokenStats.block_created": { "$ne": null } }`. */
  function TokenCreated(): Token -> bool
  {
    (t: Token) => t.blockCreated.Some?
  }

  /** The filter of `graphFetch(tokenIdHex, lastPrunedHeight)`. */
  function GraphFetchFilter(tokenIdHex: string, lastPrunedHeight: Option<int>): GraphTxn -> bool
  {
    if TruthyNumber(lastPrunedHeight) then
      (g: GraphTxn) => g.tokenIdHex == tokenIdHex &&
           ((g.pruneHeight.Some? && g.pruneHeight.value > lastPrunedHeight.value)
            || g.pruneHeight.None?
            || g.txid == tokenIdHex)
    else
      KeyIs(GraphToken, tokenIdHex)
  }

  /** `.filter(i => i.slp)` on the unconfirmed transactions. */
  function SlpTagged(): Txn -> bool
  {
    (t: Txn) => Truthy(t.slp)
  }

  /** `!i.blk`. */
  function LacksBlk(): Txn -> bool
  {
    (t: Txn) => t.blk.None?
  }

  /** The set of `tx.h` values of some transactions. */
  function HashSet(s: seq<Txn>): set<string>
  {
    set t | t in s :: t.h
  }

  ghost predicate DistinctHashes(s: seq<Txn>)
  {
    KeysDistinct(s, TxHash)
  }

  /** Two of the transactions share a `tx.h`: what makes building a unique index on
      `tx.h` fail. */
  predicate HasDuplicateHash(s: seq<Txn>)
  {
    exists i, j :: 0 <= i < j < |s| && s[i].h == s[j].h
  }

  lemma DuplicateHashIffNotDistinct(s: seq<Txn>)
    ensures HasDuplicateHash(s) <==> !DistinctHashes(s)
  {
    KeysDistinctByIndex(s, TxHash);
  }

  /** The code of MongoDB's duplicate-key error (E11000). */
  const DuplicateKeyCode := 11000

  datatype DbError =
    | BackendError(code: int)
    | MissingBlk
    | GraphNotUpdated(txid: string, tokenIdHex: string)

  /** How an operation ended: normally, or by throwing. */
  datatype Outcome = Done | Thrown(error: DbError)

  /** The failure, if any, the backend reports for call number `k`; calls past the
      end of `faults` succeed. */
  function FaultAt<F>(faults: seq<Option<F>>, k: nat): Option<F>
  {
    if k < |faults| then faults[k] else None
  }

  // ---------------------------------------------------------------------------
  // What the selection filters select

  /** The graph filter only ever selects records of the requested token; with a truthy
      watermark it keeps those pruned after it, those never pruned, and the token's
      genesis record; without one it keeps them all. */
  lemma GraphFetchFilterSelects(tokenIdHex: string, lastPrunedHeight: Option<int>, g: GraphTxn)
    ensures GraphFetchFilter(tokenIdHex, lastPrunedHeight)(g) ==> g.tokenIdHex == tokenIdHex
    ensures !TruthyNumber(lastPrunedHeight) ==>
              (GraphFetchFilter(tokenIdHex, lastPrunedHeight)(g) <==> g.tokenIdHex == tokenIdHex)
    ensures TruthyNumber(lastPrunedHeight) ==>
              (GraphFetchFilter(tokenIdHex, lastPrunedHeight)(g) <==>
                 g.tokenIdHex == tokenIdHex &&
                 (g.pruneHeight.None? || g.pruneHeight.value > lastPrunedHeight.value || g.txid == tokenIdHex))
    ensures g.tokenIdHex == tokenIdHex && g.txid == tokenIdHex ==> GraphFetchFilter(tokenIdHex, lastPrunedHeight)(g)
  {
    if !TruthyNumber(lastPrunedHeight) {
      assert KeyIs(GraphToken, tokenIdHex)(g) == (GraphToken(g) == tokenIdHex);
    }
  }

  /** A later watermark never selects a record an earlier (or absent) one leaves out. */
  lemma GraphFetchNarrows(tokenIdHex: string, earlier: Option<int>, later: Option<int>, g: GraphTxn)
    requires !TruthyNumber(earlier) || (TruthyNumber(later) && earlier.value <= later.value)
    ensures GraphFetchFilter(tokenIdHex, later)(g) ==> GraphFetchFilter(tokenIdHex, earlier)(g)
  {
    GraphFetchFilterSelects(tokenIdHex, earlier, g);
    GraphFetchFilterSelects(tokenIdHex, later, g);
  }

  lemma HashSetAppend(a: seq<Txn>, b: seq<Txn>)
    ensures HashSet(a + b) == HashSet(a) + HashSet(b)
  {
    forall h | h in HashSet(a + b) ensures h in HashSet(a) + HashSet(b) {
      var t :| t in a + b && t.h == h;
    }
    forall h | h in HashSet(a) + HashSet(b) ensures h in HashSet(a + b) {
      if h in HashSet(a) {
        var t :| t in a && t.h == h;
        assert t in a + b;
      } else {
        var t :| t in b && t.h == h;
        assert t in a + b;
      }
    }
  }

  lemma HashSetEmpty(s: seq<Txn>)
    ensures HashSet(s) == {} <==> s == []
  {
    if s != [] {
      assert s[0].h in HashSet(s);
    }
  }
}
