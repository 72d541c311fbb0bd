/** The indexes `confirmedIndex` asks for, derived from the `index` section of the
    configuration: for every collection, one ascending index per listed key (unique
    only for `tx.h`) and, when full-text fields are listed, one combined text index
    named `fulltext`. */
module IndexPlan {
  import opened Collection

  /** One collection's entry of the `index` configuration; either list may be absent. */
  datatype IndexConfig = IndexConfig(keys: Option<seq<string>>, fulltext: Option<seq<string>>)

  /** The index one `createIndex` call asks for: `{ [field]: 1 }`, unique or not, or
      `{ f1: 'text', f2: 'text', ... }` under a name. */
  datatype IndexSpec =
    | Ascending(field: string, unique: bool)
    | Text(fields: seq<string>, name: string)

  datatype IndexCall = IndexCall(collection: string, spec: IndexSpec)

  const UniqueKey := "tx.h"
  const FulltextName := "fulltext"

  /** The index a configured key gets. */
  function KeySpec(key: string): IndexSpec
  {
    Ascending(key, key == UniqueKey)
  }

  /** The keys of the object that `fulltext.forEach(key => o[key] = 'text')` builds:
      each field once, at the place of its first occurrence (field names are taken
      not to be integer-like, which JavaScript would order first). */
  function TextFields(fulltext: seq<string>): (r: seq<string>)
    ensures Elements(r) == Elements(fulltext)
    ensures forall i, j :: 0 <= i < j < |r| ==> r[i] != r[j]
    ensures |r| <= |fulltext|
  {
    if fulltext == [] then []
    else
      var init := fulltext[..|fulltext| - 1];
      var last := fulltext[|fulltext| - 1];
      var prev := TextFields(init);
      assert fulltext == init + [last];
      assert Elements(fulltext) == Elements(init) + {last};
      if last in prev then prev else prev + [last]
  }

  /** The ascending-index calls for one collection's keys, in order: call `i` is on
      the collection, ascends over key `i`, and is unique exactly when that key is
      `tx.h`; every key gets its call. */
  function KeyCalls(collection: string, keys: seq<string>): (r: seq<IndexCall>)
    ensures |r| == |keys|
    ensures forall i :: 0 <= i < |keys| ==> r[i] == IndexCall(collection, KeySpec(keys[i]))
    ensures forall i :: 0 <= i < |r| ==>
      && r[i].collection == collection && r[i].spec.Ascending? && r[i].spec.field == keys[i]
      && (r[i].spec.unique <==> keys[i] == "tx.h")
    ensures forall k :: k in keys ==> IndexCall(collection, Ascending(k, k == "tx.h")) in r
  {
    seq(|keys|, i requires 0 <= i < |keys| => IndexCall(collection, KeySpec(keys[i])))
  }

  /** Every key call is one a collection configured with just `keys` asks for. */
  lemma KeyCallsFromKeys(collection: string, keys: seq<string>)
    ensures forall c :: c in KeyCalls(collection, keys) ==> CallFromEntry(c, collection, IndexConfig(Some(keys), None))
  {
  }

  /** The text-index call for one collection, if its list is present and non-empty. */
  function TextCalls(collection: string, fulltext: Option<seq<string>>): seq<IndexCall>
  {
    if fulltext.Some? && |fulltext.value| > 0 then
      [IndexCall(collection, Text(TextFields(fulltext.value), FulltextName))]
    else []
  }

  function CollectionPlan(collection: string, cfg: IndexConfig): seq<IndexCall>
  {
    (if cfg.keys.Some? then KeyCalls(collection, cfg.keys.value) else []) + TextCalls(collection, cfg.fulltext)
  }

  /** The calls for the configured collections, in configuration order. */
  function PlanOf(entries: seq<(string, IndexConfig)>): seq<IndexCall>
  {
    if entries == [] then []
    else
      var n := |entries| - 1;
      PlanOf(entries[..n]) + CollectionPlan(entries[n].0, entries[n].1)
  }

  /** No `index` section, no calls. */
  function Plan(index: Option<seq<(string, IndexConfig)>>): seq<IndexCall>
  {
    if index.Some? then PlanOf(index.value) else []
  }

  // ---------------------------------------------------------------------------

  lemma PlanOfStep(entries: seq<(string, IndexConfig)>, j: nat)
    requires j < |entries|
    ensures PlanOf(entries[..j + 1]) == PlanOf(entries[..j]) + CollectionPlan(entries[j].0, entries[j].1)
  {
    assert entries[..j + 1][..j] == entries[..j];
  }

  /** The calls for the first j collections come first, in the same order. */
  lemma {:induction false} PlanOfPrefix(entries: seq<(string, IndexConfig)>, j: nat)
    requires j <= |entries|
    ensures PlanOf(entries[..j]) <= PlanOf(entries)
    decreases |entries| - j
  {
    if j < |entries| {
      PlanOfPrefix(entries, j + 1);
      PlanOfStep(entries, j);
    } else {
      assert entries[..j] == entries;
    }
  }

  /** `here` sits in `plan` from position `start` on. */
  ghost predicate Span<T>(plan: seq<T>, start: nat, here: seq<T>)
  {
    start + |here| <= |plan| && plan[start..start + |here|] == here
  }

  lemma SpanAt<T>(plan: seq<T>, start: nat, here: seq<T>, i: nat)
    requires Span(plan, start, here) && i < |here|
    ensures start + i < |plan| && plan[start + i] == here[i]
  {
    assert plan[start..start + |here|][i] == here[i];
  }

  /** A span made of two parts splits into a span for each. */
  lemma SpanSplit<T>(plan: seq<T>, start: nat, a: seq<T>, b: seq<T>)
    requires Span(plan, start, a + b)
    ensures Span(plan, start, a) && Span(plan, start + |a|, b)
  {
    assert plan[start..start + |a|] == (a + b)[..|a|] == a;
    assert plan[start + |a|..start + |a| + |b|] == (a + b)[|a|..] == b;
  }

  /** The calls for collection `j` sit in the plan right after those of the
      collections before it. */
  lemma PlanAt(entries: seq<(string, IndexConfig)>, j: nat)
    requires j < |entries|
    ensures var start := |PlanOf(entries[..j])|;
      var here := CollectionPlan(entries[j].0, entries[j].1);
      && start + |here| == |PlanOf(entries[..j + 1])|
      && Span(PlanOf(entries), start, here)
  {
    PlanOfStep(entries, j);
    PlanOfPrefix(entries, j + 1);
  }

  /** What a call derived from one collection's configuration looks like: an
      ascending index on one of its keys, unique exactly when the key is `tx.h`, or
      its text index named `fulltext` over exactly its listed fields. */
  ghost predicate CallFromEntry(c: IndexCall, collection: string, cfg: IndexConfig)
  {
    c.collection == collection &&
    match c.spec
    case Ascending(field, unique) =>
      cfg.keys.Some? && field in cfg.keys.value && (unique <==> field == "tx.h")
    case Text(fields, name) =>
      cfg.fulltext.Some? && |cfg.fulltext.value| > 0 &&
      Elements(fields) == Elements(cfg.fulltext.value) && name == "fulltext"
  }

  /** Every call comes from the configuration of one of the listed collections. */
  lemma {:induction false} PlanCallsFromConfig(entries: seq<(string, IndexConfig)>, c: IndexCall)
    requires c in PlanOf(entries)
    ensures exists j :: 0 <= j < |entries| && CallFromEntry(c, entries[j].0, entries[j].1)
  {
    var n := |entries| - 1;
    if c in PlanOf(entries[..n]) {
      PlanCallsFromConfig(entries[..n], c);
      var j :| 0 <= j < n && CallFromEntry(c, entries[..n][j].0, entries[..n][j].1);
      assert entries[..n][j] == entries[j];
    } else {
      var cfg := entries[n].1;
      var keyCalls := if cfg.keys.Some? then KeyCalls(entries[n].0, cfg.keys.value) else [];
      if c in keyCalls {
        var i :| 0 <= i < |keyCalls| && keyCalls[i] == c;
        assert cfg.keys.value[i] in cfg.keys.value;
      }
      assert CallFromEntry(c, entries[n].0, entries[n].1);
    }
  }

  /** Every configured key of every collection gets its ascending index, unique
      exactly when the key is `tx.h`. */
  lemma PlanCoversKeys(entries: seq<(string, IndexConfig)>, j: nat, i: nat)
    requires j < |entries| && entries[j].1.keys.Some? && i < |entries[j].1.keys.value|
    ensures var key := entries[j].1.keys.value[i];
      IndexCall(entries[j].0, Ascending(key, key == "tx.h")) in PlanOf(entries)
  {
    PlanOfPrefix(entries, j + 1);
    PlanOfStep(entries, j);
    var pre := PlanOf(entries[..j]);
    var key := entries[j].1.keys.value[i];
    var plan := PlanOf(entries);
    assert plan[|pre| + i] == IndexCall(entries[j].0, KeySpec(key));
  }

  /** Every collection with a non-empty `fulltext` list gets a text index named
      `fulltext` over exactly those fields. */
  lemma PlanCoversFulltext(entries: seq<(string, IndexConfig)>, j: nat)
    requires j < |entries| && entries[j].1.fulltext.Some? && |entries[j].1.fulltext.value| > 0
    ensures var ft := entries[j].1.fulltext.value;
      IndexCall(entries[j].0, Text(TextFields(ft), "fulltext")) in PlanOf(entries)
      && Elements(TextFields(ft)) == Elements(ft)
  {
    PlanOfPrefix(entries, j + 1);
    PlanOfStep(entries, j);
    var call := IndexCall(entries[j].0, Text(TextFields(entries[j].1.fulltext.value), FulltextName));
    var head := PlanOf(entries[..j + 1]);
    assert head[|head| - 1] == call;
    assert PlanOf(entries)[|head| - 1] == call;
  }
}
