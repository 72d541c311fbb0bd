/** The few document-store primitives the persistence layer builds on, stated over
    a collection held as a sequence of documents in stored (natural) order.
    A filter is a predicate over documents; only the filters the layer actually
    issues are defined (in module Records). */
module Collection {

  datatype Option<T> = None | Some(value: T)

  /** The set of elements of a sequence. */
  function Elements<T(!new)>(s: seq<T>): set<T>
  {
    set x | x in s
  }

  /** The documents of `s` that `p` selects, in stored order: `find(filter)`. */
  function Where<T(!new)>(s: seq<T>, p: T -> bool): (r: seq<T>)
    ensures |r| <= |s|
    ensures forall x :: x in r <==> x in s && p(x)
  {
    if s == [] then []
    else if p(s[0]) then [s[0]] + Where(s[1..], p)
    else Where(s[1..], p)
  }

  function Complement<T(!new)>(p: T -> bool): T -> bool
  {
    x => !p(x)
  }

  /** What `deleteMany(filter)` leaves behind: the documents `p` does not select. */
  function DeleteMany<T(!new)>(s: seq<T>, p: T -> bool): (r: seq<T>)
    ensures |r| <= |s|
    ensures forall x :: x in r <==> x in s && !p(x)
  {
    Where(s, Complement(p))
  }

  /** The filter `{ field: k }` for the field that `key` reads. */
  function KeyIs<T(!new), K(==)>(key: T -> K, k: K): T -> bool
  {
    x => key(x) == k
  }

  /** Documents whose `key` lies in `ks`: the union of several `{ field: k }` filters. */
  function KeyIn<T(!new), K>(key: T -> K, ks: set<K>): T -> bool
  {
    x => key(x) in ks
  }

  /** What the key filters select, element by element. */
  lemma WhereKeyIs<T(!new), K>(s: seq<T>, key: T -> K, k: K)
    ensures forall x :: x in Where(s, KeyIs(key, k)) <==> x in s && key(x) == k
    ensures forall x :: x in DeleteMany(s, KeyIs(key, k)) <==> x in s && key(x) != k
  {
    forall x ensures KeyIs(key, k)(x) == (key(x) == k) {
    }
  }

  lemma WhereKeyIn<T(!new), K>(s: seq<T>, key: T -> K, ks: set<K>)
    ensures forall x :: x in Where(s, KeyIn(key, ks)) <==> x in s && key(x) in ks
    ensures forall x :: x in DeleteMany(s, KeyIn(key, ks)) <==> x in s && key(x) !in ks
  {
    forall x ensures KeyIn(key, ks)(x) == (key(x) in ks) {
    }
  }

  /** Position of the first document `p` selects. */
  function FirstIndex<T(!new)>(s: seq<T>, p: T -> bool): (r: Option<nat>)
    ensures r.Some? ==> r.value < |s| && p(s[r.value])
    ensures r.Some? ==> forall j :: 0 <= j < r.value ==> !p(s[j])
    ensures r.None? ==> forall j :: 0 <= j < |s| ==> !p(s[j])
  {
    if s == [] then None
    else if p(s[0]) then Some(0)
    else match FirstIndex(s[1..], p)
      case None => None
      case Some(i) => Some(i + 1)
  }

  /** `findOne(filter)`: the first matching document in stored order, or none. */
  function FindOne<T(!new)>(s: seq<T>, p: T -> bool): (r: Option<T>)
    ensures r.Some? ==> r.value in s && p(r.value)
    ensures r.None? <==> forall x :: x in s ==> !p(x)
  {
    match FirstIndex(s, p)
    case None => None
    case Some(i) => Some(s[i])
  }

  /** What a find by key returns: a stored document with that key, or none exactly
      when no stored document has it. */
  lemma FindOneKeyIs<T(!new), K>(s: seq<T>, key: T -> K, k: K)
    ensures var r := FindOne(s, KeyIs(key, k));
      && (r.Some? ==> r.value in s && key(r.value) == k)
      && (r.None? <==> forall x :: x in s ==> key(x) != k)
  {
    forall x ensures KeyIs(key, k)(x) == (key(x) == k) {
    }
  }

  /** Counts reported by `replaceOne(filter, doc, { upsert: true })`. */
  datatype ReplaceResult<T> = ReplaceResult(coll: seq<T>, matched: nat, modified: nat, upserted: nat)

  /** `replaceOne(filter, doc, { upsert: true })`: the first matching document is
      replaced by `doc` (reported as modified only when it differed); when nothing
      matches, `doc` is inserted. */
  function ReplaceOne<T(!new,==)>(s: seq<T>, p: T -> bool, doc: T): (r: ReplaceResult<T>)
    ensures r.upserted == 1 <==> FindOne(s, p).None?
    ensures r.matched + r.upserted == 1
    ensures r.modified == 0 && r.upserted == 0 <==> FindOne(s, p) == Some(doc)
    ensures r.modified == 0 && r.upserted == 0 ==> r.coll == s
    ensures |r.coll| == |s| + r.upserted
    ensures doc in r.coll
    ensures forall x :: x in s && !p(x) ==> x in r.coll
  {
    match FirstIndex(s, p)
    case None => ReplaceResult(s + [doc], 0, 0, 1)
    case Some(i) =>
      var c := s[i := doc];
      assert c[i] == doc;
      assert forall j :: 0 <= j < |s| && !p(s[j]) ==> s[j] == c[j];
      ReplaceResult(c, 1, if s[i] == doc then 0 else 1, 0)
  }

  /** At most one document per key: the invariant a replace-by-key write keeps. */
  ghost predicate KeysDistinct<T(!new), K>(s: seq<T>, key: T -> K)
    decreases |s|
  {
    |s| == 0 || ((forall y :: y in s[1..] ==> key(y) != key(s[0])) && KeysDistinct(s[1..], key))
  }

  // ---------------------------------------------------------------------------
  // Lemmas about Where and DeleteMany

  lemma {:induction false} WhereAppend<T(!new)>(a: seq<T>, b: seq<T>, p: T -> bool)
    ensures Where(a + b, p) == Where(a, p) + Where(b, p)
  {
    if a == [] {
      assert a + b == b;
    } else {
      assert (a + b)[1..] == a[1..] + b;
      WhereAppend(a[1..], b, p);
    }
  }

  lemma {:induction false} WhereNone<T(!new)>(s: seq<T>, p: T -> bool)
    requires forall x :: x in s ==> !p(x)
    ensures Where(s, p) == []
  {
    if s != [] {
      WhereNone(s[1..], p);
    }
  }

  lemma {:induction false} WhereAll<T(!new)>(s: seq<T>, p: T -> bool)
    requires forall x :: x in s ==> p(x)
    ensures Where(s, p) == s
  {
    if s != [] {
      WhereAll(s[1..], p);
    }
  }

  /** Filtering twice is filtering once with the conjunction. */
  lemma {:induction false} WhereTwice<T(!new)>(s: seq<T>, p: T -> bool, q: T -> bool, both: T -> bool)
    requires forall x :: both(x) == (p(x) && q(x))
    ensures Where(Where(s, p), q) == Where(s, both)
  {
    if s != [] {
      WhereTwice(s[1..], p, q, both);
    }
  }

  /** A deleteMany with `p` followed by one with `q` is one deleteMany with `p || q`. */
  lemma DeleteManyTwice<T(!new)>(s: seq<T>, p: T -> bool, q: T -> bool, either: T -> bool)
    requires forall x :: either(x) == (p(x) || q(x))
    ensures DeleteMany(DeleteMany(s, p), q) == DeleteMany(s, either)
  {
    WhereTwice(s, Complement(p), Complement(q), Complement(either));
  }

  /** A deleteMany whose filter selects nothing leaves the collection as it was. */
  lemma DeleteManyNothing<T(!new)>(s: seq<T>, p: T -> bool)
    requires forall x :: x in s ==> !p(x)
    ensures DeleteMany(s, p) == s
  {
    WhereAll(s, Complement(p));
  }

  /** Two filters that agree on every stored document select the same documents. */
  lemma {:induction false} WhereSame<T(!new)>(s: seq<T>, p: T -> bool, q: T -> bool)
    requires forall x :: x in s ==> p(x) == q(x)
    ensures Where(s, p) == Where(s, q)
  {
    if s != [] {
      WhereSame(s[1..], p, q);
    }
  }

  /** deleteMany reports the number of documents the filter selected. */
  lemma {:induction false} DeletedCount<T(!new)>(s: seq<T>, p: T -> bool)
    ensures |Where(s, p)| + |DeleteMany(s, p)| == |s|
  {
    if s != [] {
      DeletedCount(s[1..], p);
    }
  }

  /** Replace-by-key: after deleting what `p` selects and inserting `xs`, a find with
      `p` returns exactly the selected part of `xs`, and the unselected part is the
      old unselected part followed by that of `xs`. */
  lemma DeleteThenInsert<T(!new)>(s: seq<T>, p: T -> bool, xs: seq<T>)
    ensures Where(DeleteMany(s, p) + xs, p) == Where(xs, p)
    ensures DeleteMany(DeleteMany(s, p) + xs, p) == DeleteMany(s, p) + DeleteMany(xs, p)
  {
    var d := DeleteMany(s, p);
    WhereAppend(d, xs, p);
    WhereNone(d, p);
    WhereAppend(d, xs, Complement(p));
    WhereAll(d, Complement(p));
  }

  /** `deleteMany(p)` followed by an insert of `xs`: what `p` selected is replaced by
      `xs`, appended after the documents that are kept. */
  function ReplaceAll<T(!new)>(s: seq<T>, p: T -> bool, xs: seq<T>): (r: seq<T>)
    ensures Where(r, p) == Where(xs, p)
    ensures DeleteMany(r, p) == DeleteMany(s, p) + DeleteMany(xs, p)
  {
    DeleteThenInsert(s, p, xs);
    DeleteMany(s, p) + xs
  }

  /** Every document of `xs` has key `k`. */
  ghost predicate AllKeyed<T(!new), K>(xs: seq<T>, key: T -> K, k: K)
  {
    forall x :: x in xs ==> key(x) == k
  }

  /** Replacing the documents of key `k` by documents all of key `k`: a find for `k`
      returns exactly the new documents, a find for any other key is unchanged, and
      the documents of other keys are kept as they were. */
  lemma ReplaceAllFetch<T(!new), K>(s: seq<T>, key: T -> K, k: K, xs: seq<T>, u: K)
    requires AllKeyed(xs, key, k)
    ensures Where(ReplaceAll(s, KeyIs(key, k), xs), KeyIs(key, u)) ==
              if u == k then xs else Where(s, KeyIs(key, u))
    ensures DeleteMany(ReplaceAll(s, KeyIs(key, k), xs), KeyIs(key, k)) == DeleteMany(s, KeyIs(key, k))
  {
    var kept := DeleteMany(s, KeyIs(key, k));
    WhereNone(xs, Complement(KeyIs(key, k)));
    assert kept + [] == kept;
    WhereAppend(kept, xs, KeyIs(key, u));
    if u == k {
      WhereNone(kept, KeyIs(key, u));
      WhereAll(xs, KeyIs(key, u));
    } else {
      WhereNone(xs, KeyIs(key, u));
      WhereTwice(s, Complement(KeyIs(key, k)), KeyIs(key, u), KeyIs(key, u));
    }
  }

  /** Overwriting a document that the filter does not select with another one it
      does not select leaves the filter's result unchanged. */
  lemma {:induction false} WhereUpdateOutside<T(!new)>(s: seq<T>, i: nat, doc: T, q: T -> bool)
    requires i < |s| && !q(s[i]) && !q(doc)
    ensures Where(s[i := doc], q) == Where(s, q)
  {
    if i > 0 {
      assert s[i := doc][1..] == s[1..][i - 1 := doc];
      WhereUpdateOutside(s[1..], i - 1, doc, q);
    }
  }

  /** findOne returns the head of what find returns. */
  lemma {:induction false} FindOneIsFirstOfWhere<T(!new)>(s: seq<T>, p: T -> bool)
    ensures FindOne(s, p) == if Where(s, p) == [] then None else Some(Where(s, p)[0])
  {
    if s != [] && !p(s[0]) {
      FindOneIsFirstOfWhere(s[1..], p);
    }
  }

  /** After an upsert of a document the filter selects, findOne returns that document,
      and the documents the filter does not select are untouched, in order. */
  lemma ReplaceOneThenFind<T(!new)>(s: seq<T>, p: T -> bool, doc: T)
    requires p(doc)
    ensures FindOne(ReplaceOne(s, p, doc).coll, p) == Some(doc)
    ensures DeleteMany(ReplaceOne(s, p, doc).coll, p) == DeleteMany(s, p)
  {
    var r := ReplaceOne(s, p, doc);
    match FirstIndex(s, p)
    case None =>
      assert r.coll == s + [doc];
      WhereAppend(s, [doc], p);
      WhereNone(s, p);
      FindOneIsFirstOfWhere(r.coll, p);
      WhereAppend(s, [doc], Complement(p));
    case Some(i) =>
      assert r.coll == s[i := doc];
      assert FirstIndex(r.coll, p) == Some(i) by {
        FirstIndexIs(r.coll, p, i);
      }
      WhereUpdateOutside(s, i, doc, Complement(p));
  }

  /** An upsert under `p` leaves the documents outside any wider filter `q` untouched,
      in order. */
  lemma ReplaceOneOutside<T(!new)>(s: seq<T>, p: T -> bool, doc: T, q: T -> bool)
    requires p(doc) && q(doc)
    requires forall x :: p(x) ==> q(x)
    ensures DeleteMany(ReplaceOne(s, p, doc).coll, q) == DeleteMany(s, q)
  {
    match FirstIndex(s, p)
    case None =>
      WhereAppend(s, [doc], Complement(q));
    case Some(i) =>
      WhereUpdateOutside(s, i, doc, Complement(q));
  }

  /** The first index is the one before which nothing matches. */
  lemma FirstIndexIs<T(!new)>(s: seq<T>, p: T -> bool, i: nat)
    requires i < |s| && p(s[i]) && forall j :: 0 <= j < i ==> !p(s[j])
    ensures FirstIndex(s, p) == Some(i)
  {
  }

  /** An upsert under one filter does not change what findOne returns for a filter
      that selects neither the new document nor anything the first filter selects. */
  lemma ReplaceOneKeepsOtherFind<T(!new)>(s: seq<T>, p: T -> bool, doc: T, q: T -> bool)
    requires p(doc) && !q(doc)
    requires forall x :: p(x) ==> !q(x)
    ensures FindOne(ReplaceOne(s, p, doc).coll, q) == FindOne(s, q)
  {
    var r := ReplaceOne(s, p, doc);
    FindOneIsFirstOfWhere(s, q);
    FindOneIsFirstOfWhere(r.coll, q);
    match FirstIndex(s, p)
    case None =>
      WhereAppend(s, [doc], q);
    case Some(i) =>
      WhereUpdateOutside(s, i, doc, q);
  }

  // ---------------------------------------------------------------------------
  // Lemmas about KeysDistinct

  /** The recursive definition says the same as "no two positions share a key". */
  lemma {:induction false} KeysDistinctByIndex<T(!new), K>(s: seq<T>, key: T -> K)
    ensures KeysDistinct(s, key) <==> forall i, j :: 0 <= i < j < |s| ==> key(s[i]) != key(s[j])
  {
    if s != [] {
      var t := s[1..];
      KeysDistinctByIndex(t, key);
      if KeysDistinct(s, key) {
        forall i, j | 0 <= i < j < |s| ensures key(s[i]) != key(s[j]) {
          assert s[j] == t[j - 1];
          if i == 0 {
            assert s[j] in t;
          } else {
            assert s[i] == t[i - 1];
          }
        }
      }
      if forall i, j :: 0 <= i < j < |s| ==> key(s[i]) != key(s[j]) {
        forall y | y in t ensures key(y) != key(s[0]) {
          var j :| 0 <= j < |t| && t[j] == y;
          assert s[j + 1] == y;
        }
        forall i, j | 0 <= i < j < |t| ensures key(t[i]) != key(t[j]) {
          assert t[i] == s[i + 1] && t[j] == s[j + 1];
        }
      }
    }
  }

  lemma {:induction false} WhereKeepsKeysDistinct<T(!new), K>(s: seq<T>, p: T -> bool, key: T -> K)
    requires KeysDistinct(s, key)
    ensures KeysDistinct(Where(s, p), key)
  {
    if s != [] {
      WhereKeepsKeysDistinct(s[1..], p, key);
      if p(s[0]) {
        assert ([s[0]] + Where(s[1..], p))[1..] == Where(s[1..], p);
      }
    }
  }

  lemma {:induction false} AppendFreshKey<T(!new), K>(s: seq<T>, doc: T, key: T -> K)
    requires KeysDistinct(s, key)
    requires forall y :: y in s ==> key(y) != key(doc)
    ensures KeysDistinct(s + [doc], key)
  {
    if s != [] {
      assert (s + [doc])[1..] == s[1..] + [doc];
      AppendFreshKey(s[1..], doc, key);
    }
  }

  lemma {:induction false} UpdateSameKey<T(!new), K>(s: seq<T>, i: nat, doc: T, key: T -> K)
    requires KeysDistinct(s, key)
    requires i < |s| && key(s[i]) == key(doc)
    ensures KeysDistinct(s[i := doc], key)
  {
    if i == 0 {
      assert s[i := doc][1..] == s[1..];
    } else {
      assert s[i := doc][1..] == s[1..][i - 1 := doc];
      assert s[i] in s[1..];
      UpdateSameKey(s[1..], i - 1, doc, key);
    }
  }

  /** An upsert whose filter is `{ field: key(doc) }` keeps at most one document per key. */
  lemma ReplaceOneKeepsKeysDistinct<T(!new), K>(s: seq<T>, key: T -> K, doc: T)
    requires KeysDistinct(s, key)
    ensures KeysDistinct(ReplaceOne(s, KeyIs(key, key(doc)), doc).coll, key)
  {
    var p := KeyIs(key, key(doc));
    match FirstIndex(s, p)
    case None =>
      AppendFreshKey(s, doc, key);
    case Some(i) =>
      UpdateSameKey(s, i, doc, key);
  }

  /** Delete-then-insert of one document keeps at most one document per key. */
  lemma DeleteThenInsertKeepsKeysDistinct<T(!new), K>(s: seq<T>, key: T -> K, doc: T)
    requires KeysDistinct(s, key)
    ensures KeysDistinct(DeleteMany(s, KeyIs(key, key(doc))) + [doc], key)
  {
    WhereKeepsKeysDistinct(s, Complement(KeyIs(key, key(doc))), key);
    AppendFreshKey(DeleteMany(s, KeyIs(key, key(doc))), doc, key);
  }

  /** With distinct keys, a find by key returns at most one document. */
  lemma {:induction false} AtMostOnePerKey<T(!new), K>(s: seq<T>, key: T -> K, k: K)
    requires KeysDistinct(s, key)
    ensures |Where(s, KeyIs(key, k))| <= 1
  {
    if s != [] {
      AtMostOnePerKey(s[1..], key, k);
      if key(s[0]) == k {
        WhereNone(s[1..], KeyIs(key, k));
      }
    }
  }

  /** Two key-distinct sequences with no key in common concatenate to a key-distinct one. */
  lemma {:induction false} AppendDisjointKeys<T(!new), K>(a: seq<T>, b: seq<T>, key: T -> K)
    requires KeysDistinct(a, key) && KeysDistinct(b, key)
    requires forall x, y :: x in a && y in b ==> key(x) != key(y)
    ensures KeysDistinct(a + b, key)
  {
    if a != [] {
      assert (a + b)[1..] == a[1..] + b;
      assert (a + b)[0] == a[0] && a[0] in a;
      AppendDisjointKeys(a[1..], b, key);
      forall y | y in (a + b)[1..] ensures key(y) != key((a + b)[0]) {
        if y !in a[1..] {
          assert y in b;
        }
      }
    } else {
      assert a + b == b;
    }
  }

  /** With distinct keys, two stored documents with the same key are the same document. */
  lemma KeysDistinctSame<T(!new), K>(s: seq<T>, key: T -> K, x: T, y: T)
    requires KeysDistinct(s, key) && x in s && y in s && key(x) == key(y)
    ensures x == y
  {
    KeysDistinctByIndex(s, key);
    var i :| 0 <= i < |s| && s[i] == x;
    var j :| 0 <= j < |s| && s[j] == y;
    assert key(s[i]) == key(s[j]);
    assert i == j;
  }

  /** A collection that only grew is its old contents followed by what was added. */
  lemma PrefixThenRest<T>(a: seq<T>, b: seq<T>)
    requires a <= b
    ensures b == a + b[|a|..]
  {
  }

  /** What two successive growths added, together. */
  lemma PrefixChain<T>(a: seq<T>, b: seq<T>, c: seq<T>)
    requires a <= b <= c
    ensures c[|a|..] == b[|a|..] + c[|b|..]
  {
  }
}
