/**
 * The vector-store adapter: a Chroma client holding named collections, each a map from
 * chunk id to (text, metadata). Embeddings, similarity ranking and the client's own
 * construction are not modelled; a collection is only the id-keyed map the adapter
 * reads and writes.
 *
 * Failures of the foreign client are inputs: a `Faults` value says which of the client's
 * calls raise during one adapter call.
 */
module EmbedStore {
  import opened Wrappers

  /** A metadata value as Chroma stores it (floats are not modelled). */
  datatype MetaValue = Str(s: string) | Int(n: int) | Bool(b: bool)

  type Metadata = map<string, MetaValue>

  /** An element of the `docs` list: `{"id": ..., "text": ..., "metadata": ...}`. */
  datatype Doc = Doc(id: string, text: string, metadata: Metadata)

  /** What a collection stores under one id. */
  datatype Entry = Entry(text: string, metadata: Metadata)

  type Entries = map<string, Entry>

  type Collections = map<string, Entries>

  const DEFAULT_COLLECTION := "rag_docs"

  const FILE_HASH := "file_hash"

  /** Which foreign calls raise during one adapter call. */
  datatype Faults = Faults(
    getOrCreateFails: bool,  // client.get_or_create_collection
    getFails: bool,          // client.get_collection (it also raises when the collection is missing)
    createFails: bool,       // client.create_collection (it also raises when the collection exists)
    callFails: bool,         // the collection call proper: col.get or col.add
    persistFails: bool)      // client.persist()

  /** The client calls `get_collection` makes, in the order it makes them. */
  datatype Attempt = GetOrCreate | Get | Create

  datatype StoreError = CollectionUnavailable(name: string) | CallFailed(name: string)

  /** The outcome of one adapter call: what it returns or raises, and the client's collections afterwards. */
  datatype StoreRun<T> = StoreRun(result: Result<T, StoreError>, collections: Collections)

  /** Chroma's `where` filter of equalities: every key of `filter` is in `metadata` with that value. */
  predicate Matches(metadata: Metadata, filter: Metadata) {
    forall k :: k in filter ==> k in metadata && metadata[k] == filter[k]
  }

  predicate CarriesHash(metadata: Metadata, fileHash: string) {
    FILE_HASH in metadata && metadata[FILE_HASH] == Str(fileHash)
  }

  /** Some stored entry carries `file_hash == fileHash` in its metadata. */
  predicate HoldsFileHash(entries: Entries, fileHash: string) {
    exists id :: id in entries && CarriesHash(entries[id].metadata, fileHash)
  }

  lemma HashFilterMatches(metadata: Metadata, fileHash: string)
    ensures Matches(metadata, map[FILE_HASH := Str(fileHash)]) <==> CarriesHash(metadata, fileHash)
  {
    assert FILE_HASH in map[FILE_HASH := Str(fileHash)];
  }

  function MatchingIds(entries: Entries, filter: Metadata): set<string> {
    set id | id in entries && Matches(entries[id].metadata, filter)
  }

  function Min(a: int, b: int): int {
    if a < b then a else b
  }

  lemma SubsetCardinality<T>(a: set<T>, b: set<T>)
    requires a <= b
    ensures |a| <= |b|
  {
    assert b == a + (b - a);
  }

  /**
   * `col.get(where=filter, limit=limit)`, the ids part of its answer: distinct matching
   * ids, as many as match up to `limit`. Which ones come back is Chroma's choice.
   */
  method GetWhere(entries: Entries, filter: Metadata, limit: nat) returns (ids: seq<string>)
    ensures forall k :: 0 <= k < |ids| ==> ids[k] in entries && Matches(entries[ids[k]].metadata, filter)
    ensures forall j, k :: 0 <= j < k < |ids| ==> ids[j] != ids[k]
    ensures |ids| == Min(limit, |MatchingIds(entries, filter)|)
  {
    ids := [];
    ghost var found: set<string> := {};
    var matching := MatchingIds(entries, filter);
    var pending := matching;
    while pending != {} && |ids| < limit
      invariant pending <= matching
      invariant found == matching - pending
      invariant forall k :: 0 <= k < |ids| ==> ids[k] in found
      invariant |found| == |ids| <= limit
      invariant forall j, k :: 0 <= j < k < |ids| ==> ids[j] != ids[k]
      decreases pending
    {
      var id :| id in pending;
      pending := pending - {id};
      ids := ids + [id];
      found := found + {id};
    }
    SubsetCardinality(found, matching);
  }

  /** `get_collection(name)` succeeds: one of its three attempts returns a collection. */
  predicate Reachable(cols: Collections, name: string, faults: Faults) {
    || !faults.getOrCreateFails
    || (name in cols && !faults.getFails)
    || (name !in cols && !faults.createFails)
  }

  /** The client's collections once `name` has been fetched or created. */
  function WithCollection(cols: Collections, name: string): (after: Collections)
    ensures name in after && after.Keys == cols.Keys + {name}
    ensures forall n :: n in cols ==> after[n] == cols[n]
    ensures name !in cols ==> after[name] == map[]
  {
    if name in cols then cols else cols[name := map[]]
  }

  /** Python's `[d["id"] for d in docs]`. */
  function Ids(docs: seq<Doc>): (ids: seq<string>)
    ensures |ids| == |docs|
  {
    seq(|docs|, k requires 0 <= k < |docs| => docs[k].id)
  }

  /** Python's `[d["text"] for d in docs]`. */
  function Texts(docs: seq<Doc>): (texts: seq<string>)
    ensures |texts| == |docs|
  {
    seq(|docs|, k requires 0 <= k < |docs| => docs[k].text)
  }

  /** Python's `[d["metadata"] for d in docs]`. */
  function Metadatas(docs: seq<Doc>): (metadatas: seq<Metadata>)
    ensures |metadatas| == |docs|
  {
    seq(|docs|, k requires 0 <= k < |docs| => docs[k].metadata)
  }

  /** `col.add(documents=texts, metadatas=metadatas, ids=ids)` as an upsert: later writes win. */
  function ChromaAdd(entries: Entries, ids: seq<string>, texts: seq<string>, metadatas: seq<Metadata>): Entries
    requires |ids| == |texts| == |metadatas|
  {
    if ids == [] then entries
    else
      var n := |ids|;
      ChromaAdd(entries, ids[..n - 1], texts[..n - 1], metadatas[..n - 1])[ids[n - 1] := Entry(texts[n - 1], metadatas[n - 1])]
  }

  /** The entries after adding `docs` through their three aligned projections. */
  function AddDocs(entries: Entries, docs: seq<Doc>): Entries {
    ChromaAdd(entries, Ids(docs), Texts(docs), Metadatas(docs))
  }

  lemma ProjectionsOfPrefix(docs: seq<Doc>, n: nat)
    requires n <= |docs|
    ensures Ids(docs)[..n] == Ids(docs[..n])
    ensures Texts(docs)[..n] == Texts(docs[..n])
    ensures Metadatas(docs)[..n] == Metadatas(docs[..n])
  {
  }

  lemma AddDocsLast(entries: Entries, docs: seq<Doc>)
    requires docs != []
    ensures var last := docs[|docs| - 1];
      AddDocs(entries, docs) == AddDocs(entries, docs[..|docs| - 1])[last.id := Entry(last.text, last.metadata)]
  {
    ProjectionsOfPrefix(docs, |docs| - 1);
  }

  /** The ids stored after an add are those stored before and those of the batch. */
  lemma {:induction false} AddDocsKeys(entries: Entries, docs: seq<Doc>)
    ensures AddDocs(entries, docs).Keys == entries.Keys + (set k | 0 <= k < |docs| :: docs[k].id)
  {
    if docs != [] {
      var n := |docs|;
      AddDocsLast(entries, docs);
      var front := docs[..n - 1];
      AddDocsKeys(entries, front);
      assert (set k | 0 <= k < |docs| :: docs[k].id) == (set k | 0 <= k < n - 1 :: front[k].id) + {docs[n - 1].id};
    }
  }

  /** An entry whose id is not in the batch is left as it was. */
  lemma {:induction false} AddDocsUntouched(entries: Entries, docs: seq<Doc>, id: string)
    requires id in entries && forall k :: 0 <= k < |docs| ==> docs[k].id != id
    ensures id in AddDocs(entries, docs) && AddDocs(entries, docs)[id] == entries[id]
  {
    if docs != [] {
      var n := |docs|;
      AddDocsLast(entries, docs);
      assert forall k :: 0 <= k < n - 1 ==> docs[..n - 1][k] == docs[k];
      AddDocsUntouched(entries, docs[..n - 1], id);
    }
  }

  /** With pairwise distinct ids, document `k` of the batch is stored under its id as given. */
  lemma {:induction false} AddDocsStored(entries: Entries, docs: seq<Doc>, k: nat)
    requires DistinctIds(docs)
    requires k < |docs|
    ensures docs[k].id in AddDocs(entries, docs) && AddDocs(entries, docs)[docs[k].id] == Entry(docs[k].text, docs[k].metadata)
  {
    var n := |docs|;
    AddDocsLast(entries, docs);
    if k < n - 1 {
      var front := docs[..n - 1];
      assert front[k] == docs[k];
      assert forall j1, j2 :: 0 <= j1 < j2 < |front| ==> front[j1].id == docs[j1].id && front[j2].id == docs[j2].id;
      AddDocsStored(entries, front, k);
      assert docs[n - 1].id != docs[k].id;
    }
  }

  /** Every entry of `before` is in `after`, unchanged. */
  predicate Preserves(before: Entries, after: Entries) {
    forall id :: id in before ==> id in after && after[id] == before[id]
  }

  /** Every document is in `entries` under its id, with its text and metadata. */
  predicate StoresAll(entries: Entries, docs: seq<Doc>) {
    forall k :: 0 <= k < |docs| ==> docs[k].id in entries && entries[docs[k].id] == Entry(docs[k].text, docs[k].metadata)
  }

  predicate DistinctIds(docs: seq<Doc>) {
    forall j, k :: 0 <= j < k < |docs| ==> docs[j].id != docs[k].id
  }

  /**
   * Adding documents with pairwise distinct ids stores each under its id, index for index,
   * and keeps every other entry as it was.
   */
  lemma AddDocsStoresEach(entries: Entries, docs: seq<Doc>)
    requires DistinctIds(docs)
    ensures AddDocs(entries, docs).Keys == entries.Keys + (set k | 0 <= k < |docs| :: docs[k].id)
    ensures StoresAll(AddDocs(entries, docs), docs)
    ensures forall id :: id in entries && (forall k :: 0 <= k < |docs| ==> docs[k].id != id) ==>
      AddDocs(entries, docs)[id] == entries[id]
  {
    AddDocsKeys(entries, docs);
    forall k | 0 <= k < |docs| {
      AddDocsStored(entries, docs, k);
    }
    forall id | id in entries && (forall k :: 0 <= k < |docs| ==> docs[k].id != id) {
      AddDocsUntouched(entries, docs, id);
    }
  }

  /** After a non-empty batch whose documents all carry `fileHash`, `file_exists(fileHash)` holds. */
  lemma AddDocsHoldsHash(entries: Entries, docs: seq<Doc>, fileHash: string)
    requires docs != []
    requires forall k :: 0 <= k < |docs| ==> CarriesHash(docs[k].metadata, fileHash)
    ensures HoldsFileHash(AddDocs(entries, docs), fileHash)
  {
    AddDocsLast(entries, docs);
    var last := docs[|docs| - 1];
    assert AddDocs(entries, docs)[last.id].metadata == last.metadata;
  }

  /** `file_exists(fileHash, name)`: what it returns or raises, and the collections afterwards. */
  function Lookup(cols: Collections, name: string, fileHash: string, faults: Faults): (run: StoreRun<bool>)
    ensures run.result.Success? <==> Reachable(cols, name, faults) && !faults.callFails
    ensures run.result.Success? ==> (run.result.value <==> name in cols && HoldsFileHash(cols[name], fileHash))
    ensures run.collections == if Reachable(cols, name, faults) then WithCollection(cols, name) else cols
  {
    if !Reachable(cols, name, faults) then StoreRun(Failure(CollectionUnavailable(name)), cols)
    else
      var after := WithCollection(cols, name);
      if faults.callFails then StoreRun(Failure(CallFailed(name)), after)
      else StoreRun(Success(HoldsFileHash(after[name], fileHash)), after)
  }

  /** `add_documents_to_chroma(docs, name)`: what it returns or raises, and the collections afterwards. */
  function Insert(cols: Collections, name: string, docs: seq<Doc>, faults: Faults): (run: StoreRun<nat>)
    ensures docs == [] ==> run == StoreRun(Success(0), cols)
    ensures docs != [] ==> (run.result.Success? <==> Reachable(cols, name, faults) && !faults.callFails)
    ensures run.result.Success? ==> run.result.value == |docs|
    ensures run.result.Failure? ==> run.collections == if Reachable(cols, name, faults) then WithCollection(cols, name) else cols
    ensures forall n :: n in cols && n != name ==> n in run.collections && run.collections[n] == cols[n]
  {
    if docs == [] then StoreRun(Success(0), cols)
    else if !Reachable(cols, name, faults) then StoreRun(Failure(CollectionUnavailable(name)), cols)
    else
      var before := WithCollection(cols, name);
      if faults.callFails then StoreRun(Failure(CallFailed(name)), before)
      else StoreRun(Success(|docs|), before[name := AddDocs(before[name], docs)])
  }

  /**
   * A failing `client.persist()` changes neither the count returned nor what is stored. The
   * model gives `persist()` no effect of its own (durability is not modelled), so this states
   * that its exception, swallowed by `except Exception: pass`, does not reach the caller.
   */
  lemma PersistFailureSwallowed(cols: Collections, name: string, docs: seq<Doc>, faults: Faults)
    ensures Insert(cols, name, docs, faults) == Insert(cols, name, docs, faults.(persistFails := !faults.persistFails))
  {
  }

  /** The Chroma client: its collections by name. */
  class Store {
    var collections: Collections

    constructor ()
      ensures collections == map[]
    {
      collections := map[];
    }

    /**
     * `get_collection(name)`: get-or-create, then get, then create, each tried only
     * when the one before raised; at most three client calls and no retry loop.
     */
    method GetCollection(name: string, faults: Faults) returns (ok: bool, ghost attempts: seq<Attempt>)
      modifies this
      ensures ok == Reachable(old(collections), name, faults)
      ensures collections == if ok then WithCollection(old(collections), name) else old(collections)
      ensures 1 <= |attempts| <= 3 && attempts == [GetOrCreate, Get, Create][..|attempts|]
      ensures |attempts| == 1 <==> !faults.getOrCreateFails
    {
      attempts := [GetOrCreate];
      if !faults.getOrCreateFails {
        collections := WithCollection(collections, name);
        return true, attempts;
      }
      attempts := attempts + [Get];
      if !faults.getFails && name in collections {
        return true, attempts;
      }
      attempts := attempts + [Create];
      if !faults.createFails && name !in collections {
        collections := collections[name := map[]];
        return true, attempts;
      }
      ok := false;
    }

    /** `file_exists(fileHash, name)`: a `where` query on `file_hash` with limit 1. */
    method FileExists(fileHash: string, name: string, faults: Faults) returns (r: Result<bool, StoreError>)
      modifies this
      ensures r == Lookup(old(collections), name, fileHash, faults).result
      ensures collections == Lookup(old(collections), name, fileHash, faults).collections
    {
      var ok, _ := GetCollection(name, faults);
      if !ok {
        return Failure(CollectionUnavailable(name));
      }
      if faults.callFails {
        return Failure(CallFailed(name));
      }
      var filter := map[FILE_HASH := Str(fileHash)];
      var entries := collections[name];
      var ids := GetWhere(entries, filter, 1);
      if |ids| > 0 {
        HashFilterMatches(entries[ids[0]].metadata, fileHash);
      } else {
        forall id | id in entries
          ensures !CarriesHash(entries[id].metadata, fileHash)
        {
          assert id !in MatchingIds(entries, filter);
          HashFilterMatches(entries[id].metadata, fileHash);
        }
      }
      r := Success(|ids| > 0);
    }

    /** `add_documents_to_chroma(docs, name)`. */
    method AddDocuments(docs: seq<Doc>, name: string, faults: Faults) returns (r: Result<nat, StoreError>)
      modifies this
      ensures r == Insert(old(collections), name, docs, faults).result
      ensures collections == Insert(old(collections), name, docs, faults).collections
    {
      if docs == [] {
        return Success(0);
      }
      var ok, _ := GetCollection(name, faults);
      if !ok {
        return Failure(CollectionUnavailable(name));
      }
      var texts := seq(|docs|, k requires 0 <= k < |docs| => docs[k].text);
      var metadatas := seq(|docs|, k requires 0 <= k < |docs| => docs[k].metadata);
      var ids := seq(|docs|, k requires 0 <= k < |docs| => docs[k].id);
      if faults.callFails {
        return Failure(CallFailed(name));
      }
      collections := collections[name := ChromaAdd(collections[name], ids, texts, metadatas)];
      // client.persist() may raise; the exception is swallowed either way.
      r := Success(|texts|);
    }
  }
}
