/**
 The memory cell itself (src/cells/memory-cell.ts): its tables as fields, its methods as they update
 them, each tied to what MemoryIndex, MemoryRuns and MemorySearch say about values.
 */
module MemoryCell {
  import opened Lists
  import opened Text
  import opened Sorting
  import opened VectorStore
  import opened MemoryIndex
  import opened MemoryRuns
  import opened MemoryLife
  import opened MemorySearch
  import Providers

  /** `embed(m, t)` is what model m's provider returns for text t; `round` is storing as float32. */
  datatype Provider = Provider(embed: (Model, string) -> Vector, round: Vector -> Vector)

  /** The text a memory is embedded as. */
  function EmbedText(content: Content): string {
    var parts := [
      content.subject, content.summary, content.details,
      if content.tags != [] then "tags: " + Join(content.tags, ", ") else "",
      if content.category.Some? && content.category.value != "" then "category: " + content.category.value else ""];
    Providers.TruncateEmbedInput(Join(Filter(parts, (p: string) => p != ""), "\n"))
  }

  /** The vector of `text`, as a float32 column keeps it. */
  function Embedding(provider: Provider, model: Model, text: string): Vector {
    provider.round(provider.embed(model, Providers.TruncateEmbedInput(text)))
  }

  // ------------------------------------------------------------------ embedding cache

  const EMBEDDING_CACHE_MAX := 5000

  /** `modelId:sha256(text)`, with SHA-256 taken as injective. */
  datatype Key = Key(model: Model, text: string)

  datatype Cached = Cached(vector: Vector, createdAt: int)

  type Cache = map<Key, Cached>

  /** The key `embedCached` looks a text up under. */
  function KeyOf(model: Model, text: string): Key {
    Key(model, Providers.TruncateEmbedInput(text))
  }

  ghost predicate CacheSound(cache: Cache, provider: Provider) {
    forall k :: k in cache ==> cache[k].vector == provider.round(provider.embed(k.model, k.text))
  }

  /** What `DELETE … NOT IN (… ORDER BY created_at DESC LIMIT max)` may leave of `full`. */
  ghost predicate Newest(full: Cache, kept: Cache, max: nat) {
    && (forall k :: k in kept ==> k in full && kept[k] == full[k])
    && |kept| == (if |full| < max then |full| else max)
    && forall k, d :: k in kept && d in full && d !in kept ==> full[d].createdAt <= full[k].createdAt
  }

  method KeepNewest(full: Cache, max: nat) returns (kept: Cache)
    ensures Newest(full, kept, max)
  {
    kept := full;
    while |kept| > max
      invariant forall k :: k in kept ==> k in full && kept[k] == full[k]
      invariant |full| <= max ==> kept == full
      invariant |full| >= max ==> |kept| >= max
      invariant forall k, d :: k in kept && d in full && d !in kept ==> full[d].createdAt <= full[k].createdAt
      decreases |kept|
    {
      OldestExists(kept);
      var k :| k in kept && forall j :: j in kept ==> kept[k].createdAt <= kept[j].createdAt;
      OneLess(kept, k);
      kept := kept - {k};
    }
  }

  lemma OldestExists(cache: Cache)
    requires |cache| > 0
    ensures exists k :: k in cache && forall j :: j in cache ==> cache[k].createdAt <= cache[j].createdAt
  {
    assert |cache.Keys| == |cache|;
    LeastExists(cache.Keys, (k: Key) => if k in cache then cache[k].createdAt else 0);
  }

  lemma OneLess(cache: Cache, k: Key)
    requires k in cache
    ensures |cache - {k}| == |cache| - 1
  {
    var rest := cache - {k};
    assert cache.Keys == rest.Keys + {k};
    assert |cache.Keys| == |cache| && |rest.Keys| == |rest|;
  }

  /** The vector is the key's embedding, as returned or as read back from a float32 column. */
  ghost predicate RightFor(provider: Provider, k: Key, v: Vector) {
    provider.round(v) == provider.round(provider.embed(k.model, k.text))
  }

  /** The stored vectors of the keys that have one. */
  method Lookup(keys: seq<Key>, cache: Cache) returns (cached: map<Key, Vector>)
    ensures forall k :: k in cached <==> k in keys && k in cache
    ensures forall k :: k in cached ==> cached[k] == cache[k].vector
  {
    cached := map[];
    for i := 0 to |keys|
      invariant forall k :: k in cached <==> k in keys[..i] && k in cache
      invariant forall k :: k in cached ==> cached[k] == cache[k].vector
    {
      assert keys[..i + 1] == keys[..i] + [keys[i]];
      if keys[i] in cache {
        cached := cached[keys[i] := cache[keys[i]].vector];
      }
    }
    assert keys[..|keys|] == keys;
  }

  /** The keys without a vector, each once. */
  method Missing(keys: seq<Key>, cached: map<Key, Vector>) returns (missing: seq<Key>)
    ensures forall k :: k in missing <==> k in keys && k !in cached
    ensures Distinct(missing)
  {
    missing := [];
    for i := 0 to |keys|
      invariant forall k :: k in missing <==> k in keys[..i] && k !in cached
      invariant Distinct(missing)
    {
      assert keys[..i + 1] == keys[..i] + [keys[i]];
      if keys[i] !in cached && keys[i] !in missing {
        missing := missing + [keys[i]];
      }
    }
    assert keys[..|keys|] == keys;
  }

  /** Keep the answers for the caller as they came, and for the cache as float32. */
  method Store(provider: Provider, missing: seq<Key>, answers: seq<Vector>, now: int,
               cached: map<Key, Vector>, cache: Cache)
    returns (all: map<Key, Vector>, full: Cache)
    requires |answers| == |missing|
    requires CacheSound(cache, provider)
    requires forall i :: 0 <= i < |missing| ==> answers[i] == provider.embed(missing[i].model, missing[i].text)
    requires forall k :: k in cached ==> RightFor(provider, k, cached[k])
    ensures CacheSound(full, provider) && full.Keys == cache.Keys + set k | k in missing
    ensures forall k :: k in all <==> k in cached || k in missing
    ensures forall k :: k in all ==> RightFor(provider, k, all[k])
  {
    all, full := cached, cache;
    for i := 0 to |missing|
      invariant CacheSound(full, provider) && full.Keys == cache.Keys + set k | k in missing[..i]
      invariant forall k :: k in all <==> k in cached || k in missing[..i]
      invariant forall k :: k in all ==> RightFor(provider, k, all[k])
    {
      assert missing[..i + 1] == missing[..i] + [missing[i]];
      all := all[missing[i] := answers[i]];
      full := full[missing[i] := Cached(provider.round(answers[i]), now)];
    }
    assert missing[..|missing|] == missing;
  }

  function Pick(keys: seq<Key>, cached: map<Key, Vector>): (r: seq<Vector>)
    requires forall k :: k in keys ==> k in cached
    ensures |r| == |keys| && forall i :: 0 <= i < |keys| ==> r[i] == cached[keys[i]]
  {
    seq(|keys|, i requires 0 <= i < |keys| => cached[keys[i]])
  }

  datatype EmbedResult = NoProvider | Threw | Vectors(vectors: seq<Vector>)

  /** What can fail while a batch is indexed. */
  datatype Weather = Weather(createFails: bool, providerDown: bool, cut: Option<Cut>)

  // ------------------------------------------------------------------- bridging lemmas

  type Batch = seq<(Id, Row)>

  ghost predicate BatchIds(batch: Batch) {
    forall i, j :: 0 <= i < j < |batch| ==> batch[i].0 != batch[j].0
  }

  function BatchMap(batch: Batch): map<Id, Row> {
    if batch == [] then map[] else BatchMap(batch[..|batch| - 1])[batch[|batch| - 1].0 := batch[|batch| - 1].1]
  }

  ghost predicate HasId(batch: Batch, id: Id) {
    exists i :: 0 <= i < |batch| && batch[i].0 == id
  }

  lemma ListsLast(batch: Batch, id: Id)
    requires batch != []
    ensures HasId(batch, id) <==> batch[|batch| - 1].0 == id || HasId(batch[..|batch| - 1], id)
  {
    var front := batch[..|batch| - 1];
    if HasId(batch, id) {
      var i :| 0 <= i < |batch| && batch[i].0 == id;
      assert i < |front| ==> front[i].0 == id;
    }
    if HasId(front, id) {
      var i :| 0 <= i < |front| && front[i].0 == id;
      assert batch[i].0 == id;
    }
  }

  lemma {:induction false} BatchMapKeys(batch: Batch)
    ensures forall id :: id in BatchMap(batch) <==> exists i :: 0 <= i < |batch| && batch[i].0 == id
    ensures BatchIds(batch) ==> forall i :: 0 <= i < |batch| ==> BatchMap(batch)[batch[i].0] == batch[i].1
  {
    if batch != [] {
      var n := |batch| - 1;
      var front := batch[..n];
      BatchMapKeys(front);
      forall id ensures id in BatchMap(batch) <==> HasId(batch, id) {
        ListsLast(batch, id);
        assert id in BatchMap(front) <==> HasId(front, id);
      }
      if BatchIds(batch) {
        assert BatchIds(front);
        forall i | 0 <= i < |batch| ensures BatchMap(batch)[batch[i].0] == batch[i].1 {
          if i < n { assert front[i] == batch[i]; }
        }
      }
    }
  }

  /** The written records say what the entries of the written rows say. */
  lemma {:induction false} RecordsAreEntries(env: Env, model: Model, batch: Batch, records: seq<VectorRecord>)
    requires |records| == |batch|
    requires forall i :: 0 <= i < |batch| ==>
      records[i] ==
        VectorRecord(batch[i].0, env.vectorOf(model, batch[i].1.content), PayloadFor(env.userId, batch[i].1))
    ensures RecordMap(records) == Entries(env, model, BatchMap(batch))
  {
    if batch != [] {
      RecordsAreEntries(env, model, batch[..|batch| - 1], records[..|records| - 1]);
    }
  }

  lemma BatchMapPrefix(batch: Batch, n: nat)
    requires BatchIds(batch) && n <= |batch|
    ensures BatchMap(batch[..n]).Keys <= BatchMap(batch).Keys
    ensures forall id :: id in BatchMap(batch[..n]) ==> BatchMap(batch[..n])[id] == BatchMap(batch)[id]
    ensures n < |batch| ==> batch[n].0 in BatchMap(batch) && batch[n].0 !in BatchMap(batch[..n])
  {
    BatchMapKeys(batch);
    BatchMapKeys(batch[..n]);
    forall id | id in BatchMap(batch[..n])
      ensures id in BatchMap(batch) && BatchMap(batch[..n])[id] == BatchMap(batch)[id]
    {
      var i :| 0 <= i < n && batch[..n][i].0 == id;
      assert batch[i].0 == id && batch[..n][i] == batch[i];
    }
  }

  /** Where a cut stops a batch. */
  function StopOf(batch: Batch, cut: Option<Cut>): Stop {
    if cut.None? || cut.value.written >= |batch| then Complete
    else Stopped(
      BatchMap(batch[..cut.value.written]).Keys,
      if cut.value.deletedNext then {batch[cut.value.written].0} else {})
  }

  lemma StopOfFits(batch: Batch, cut: Option<Cut>)
    requires BatchIds(batch)
    ensures StopFits(StopOf(batch, cut), BatchMap(batch))
  {
    if cut.Some? && cut.value.written < |batch| {
      BatchMapPrefix(batch, cut.value.written);
    }
  }

  /** A cut write of the records is the cut write of the entries. */
  lemma CutRecordsAreEntries(env: Env, model: Model, batch: Batch, records: seq<VectorRecord>, n: nat)
    requires |records| == |batch| && n <= |batch| && BatchIds(batch)
    requires forall i :: 0 <= i < |batch| ==>
      records[i] ==
        VectorRecord(batch[i].0, env.vectorOf(model, batch[i].1.content), PayloadFor(env.userId, batch[i].1))
    ensures var entries := Entries(env, model, BatchMap(batch));
      RecordMap(records[..n]) == entries - (entries.Keys - BatchMap(batch[..n]).Keys)
  {
    RecordsAreEntries(env, model, batch[..n], records[..n]);
    BatchMapPrefix(batch, n);
  }

  /** Half-way through selecting: the newest are in `page`, the others in `left`. */
  ghost predicate PageSoFar(rows: map<Id, Row>, stale: set<Id>, page: map<Id, Row>, left: set<Id>) {
    && page.Keys <= stale <= rows.Keys && left == stale - page.Keys
    && (forall id :: id in page ==> page[id] == rows[id])
    && forall p, q :: p in page && q in left ==> rows[p].updatedAt >= rows[q].updatedAt
  }

  lemma PageGrows(rows: map<Id, Row>, stale: set<Id>, page: map<Id, Row>, left: set<Id>, id: Id)
    requires PageSoFar(rows, stale, page, left) && id in left
    requires forall j :: j in left ==> rows[j].updatedAt <= rows[id].updatedAt
    ensures PageSoFar(rows, stale, page[id := rows[id]], left - {id})
  {
    var longer, rest := page[id := rows[id]], left - {id};
    assert longer.Keys == page.Keys + {id};
    forall p, q | p in longer && q in rest ensures rows[p].updatedAt >= rows[q].updatedAt {
      assert q in left;
    }
  }

  lemma PageDone(rows: map<Id, Row>, stale: set<Id>, page: map<Id, Row>, left: set<Id>)
    requires PageSoFar(rows, stale, page, left)
    ensures |stale| == |page| + |left| && page == Chosen(rows, page.Keys)
  {
    assert stale == page.Keys + left;
    assert |page| == |page.Keys|;
  }

  method AddToPage(page: Batch, id: Id, row: Row) returns (longer: Batch)
    requires BatchIds(page) && id !in BatchMap(page) && |BatchMap(page)| == |page|
    ensures BatchIds(longer) && |longer| == |page| + 1 && BatchMap(longer) == BatchMap(page)[id := row]
    ensures |BatchMap(longer)| == |longer|
  {
    longer := page + [(id, row)];
    assert longer[..|longer| - 1] == page;
    BatchMapKeys(page);
    assert forall i :: 0 <= i < |page| ==> page[i].0 in BatchMap(page);
  }

  method NewestFirst(rows: map<Id, Row>, stale: set<Id>, limit: nat) returns (page: Batch, ghost left: set<Id>)
    requires stale <= rows.Keys
    ensures BatchIds(page) && |BatchMap(page)| == |page| <= limit
    ensures PageSoFar(rows, stale, BatchMap(page), left) && (|page| == limit || left == {})
  {
    var rest := stale;
    page := [];
    while |page| < limit && rest != {}
      invariant |page| <= limit && BatchIds(page) && |BatchMap(page)| == |page|
      invariant PageSoFar(rows, stale, BatchMap(page), rest)
      decreases limit - |page|
    {
      var id := NewestIn(rows, rest);
      PageGrows(rows, stale, BatchMap(page), rest, id);
      page := AddToPage(page, id, rows[id]);
      rest := rest - {id};
    }
    left := rest;
  }

  method NewestIn(rows: map<Id, Row>, ids: set<Id>) returns (id: Id)
    requires ids <= rows.Keys && ids != {}
    ensures id in ids && forall j :: j in ids ==> rows[j].updatedAt <= rows[id].updatedAt
  {
    LeastExists(ids, (k: Id) => if k in rows then -rows[k].updatedAt else 0);
    id :| id in ids && forall j :: j in ids ==> rows[j].updatedAt <= rows[id].updatedAt;
  }

  // --------------------------------------------------------------------------- the cell

  class MemoryCell {
    const model: Option<Model>
    const userId: string
    const provider: Provider
    const vectors: LocalVectorStore
    var rows: map<Id, Row>
    var suppressions: Suppressions
    var cache: Cache
    var ready: bool

    /** A process starts over whatever the tables hold. */
    constructor (model: Option<Model>, userId: string, provider: Provider, vectors: LocalVectorStore,
                 rows: map<Id, Row>, suppressions: Suppressions, cache: Cache)
      ensures this.model == model && this.userId == userId && this.provider == provider && this.vectors == vectors
      ensures this.rows == rows && this.suppressions == suppressions && this.cache == cache && !ready
    {
      this.model, this.userId, this.provider, this.vectors := model, userId, provider, vectors;
      this.rows, this.suppressions, this.cache, this.ready := rows, suppressions, cache, false;
    }

    ghost function State(): Cell
      reads this, vectors
    {
      Cell(rows, vectors.table, ready)
    }

    ghost function Environment(): Env {
      Env(model, userId, (m, c) => Embedding(provider, m, EmbedText(c)))
    }

    ghost predicate Valid()
      reads this, vectors
    {
      && (model.Some? ==> model.value.dimensions > 0)
      && (ready ==> vectors.table.Table?)
      && CacheSound(cache, provider)
      && forall v :: provider.round(provider.round(v)) == provider.round(v)
    }

    method EnsureVectors(createFails: bool) returns (ok: bool)
      requires Valid()
      modifies `ready, `rows, vectors
      ensures Valid()
      ensures (State(), ok) == MemoryIndex.EnsureVectors(old(State()), Environment(), createFails)
    {
      if model.None? || ready {
        return true;
      }
      var recreated := vectors.Ensure(model.value.dimensions, createFails);
      if recreated.None? {
        ready := false;
        return false;
      }
      if recreated.value {
        rows := ClearStamps(rows);
      }
      ready := true;
      return true;
    }

    /** The cached or freshly asked vectors of the keys, which are all of this cell's model. */
    method EmbedKeys(keys: seq<Key>, now: int, providerDown: bool) returns (r: EmbedResult)
      requires Valid() && forall k :: k in keys ==> Some(k.model) == model
      modifies `cache
      ensures Valid() && !r.NoProvider?
      ensures r.Threw? ==> providerDown && cache == old(cache) && exists i :: 0 <= i < |keys| && keys[i] !in old(cache)
      ensures r.Vectors? ==> |r.vectors| == |keys|
      ensures r.Vectors? ==> forall i :: 0 <= i < |keys| ==> RightFor(provider, keys[i], r.vectors[i])
      ensures cache == old(cache) || |cache| <= EMBEDDING_CACHE_MAX
    {
      var cached := Lookup(keys, cache);
      assert forall k :: k in cached ==> RightFor(provider, k, cached[k]);
      var missing := Missing(keys, cached);
      if |missing| > 0 {
        if providerDown {
          assert missing[0] in keys;
          return Threw;
        }
        cached := Ask(missing, now, cached);
      }
      r := Vectors(Pick(keys, cached));
    }

    /** Ask the provider for the missing vectors, and store them in the trimmed cache. */
    method Ask(missing: seq<Key>, now: int, cached: map<Key, Vector>) returns (all: map<Key, Vector>)
      requires Valid() && forall k :: k in cached ==> RightFor(provider, k, cached[k])
      modifies `cache
      ensures Valid() && |cache| <= EMBEDDING_CACHE_MAX
      ensures forall k :: k in all <==> k in cached || k in missing
      ensures forall k :: k in all ==> RightFor(provider, k, all[k])
    {
      var answers := Map(missing, (k: Key) => provider.embed(k.model, k.text));
      var full: Cache;
      all, full := Store(provider, missing, answers, now, cached, cache);
      cache := KeepNewest(full, EMBEDDING_CACHE_MAX);
    }

    /**
     Whatever the cache holds, result i is the embedding of text i; a failure needs the provider to be
     down and a text it was asked about; and whatever is stored, the newest 5000 entries remain.
     */
    method EmbedCached(texts: seq<string>, now: int, providerDown: bool) returns (r: EmbedResult)
      requires Valid()
      modifies `cache
      ensures Valid()
      ensures r.NoProvider? <==> model.None?
      ensures r.Threw? ==> providerDown && cache == old(cache)
      ensures r.Threw? ==> exists i :: 0 <= i < |texts| && KeyOf(model.value, texts[i]) !in old(cache)
      ensures r.Vectors? ==> |r.vectors| == |texts|
      ensures r.Vectors? ==> forall i :: 0 <= i < |texts| ==>
        provider.round(r.vectors[i]) == Embedding(provider, model.value, texts[i])
      ensures cache == old(cache) || |cache| <= EMBEDDING_CACHE_MAX
    {
      if model.None? {
        return NoProvider;
      }
      var keys := Map(texts, (text: string) => KeyOf(model.value, text));
      r := EmbedKeys(keys, now, providerDown);
      if r.Vectors? {
        forall i | 0 <= i < |texts| ensures provider.round(r.vectors[i]) == Embedding(provider, model.value, texts[i]) {
          assert RightFor(provider, keys[i], r.vectors[i]);
        }
      }
    }

    method Stamp(batch: Batch)
      requires model.Some?
      modifies `rows
      ensures rows == StampAll(old(rows), BatchMap(batch).Keys, model.value)
    {
      for i := 0 to |batch|
        invariant rows == StampAll(old(rows), BatchMap(batch[..i]).Keys, model.value)
      {
        assert batch[..i + 1][..i] == batch[..i];
        if batch[i].0 in rows {
          rows := rows[batch[i].0 := rows[batch[i].0].(embeddedModel := model)];
        }
      }
      assert batch[..|batch|] == batch;
    }

    /** Write the batch's records and, if all of them got in, stamp its rows one by one. */
    method WriteAndStamp(batch: Batch, records: seq<VectorRecord>, cut: Option<Cut>) returns (ok: bool)
      requires Valid() && model.Some? && vectors.table.Table? && BatchIds(batch) && |records| == |batch|
      requires forall i :: 0 <= i < |batch| ==>
        records[i] == VectorRecord(
          batch[i].0, Environment().vectorOf(model.value, batch[i].1.content), PayloadFor(userId, batch[i].1))
      modifies `rows, vectors
      ensures Valid()
      ensures (State(), ok) == Finish(old(State()), Environment(), model.value, BatchMap(batch), StopOf(batch, cut))
    {
      ghost var env, was := Environment(), State();
      ok := vectors.Upsert(records, cut);
      if ok {
        RecordsAreEntries(env, model.value, batch, records);
        Stamp(batch);
      } else {
        CutRecordsAreEntries(env, model.value, batch, records, cut.value.written);
        assert LostBy(records, cut.value) == StopOf(batch, cut).lost;
      }
    }

    /** `f` is what actually failed: the provider only counts if it had to be asked. */
    method IndexMemories(batch: Batch, now: int, weather: Weather) returns (ok: bool, ghost f: Faults)
      requires Valid() && BatchIds(batch)
      modifies `ready, `rows, `cache, vectors
      ensures Valid()
      ensures (State(), ok) == MemoryIndex.IndexMemories(old(State()), Environment(), BatchMap(batch), f)
      ensures f.createFails == weather.createFails && f.stop == StopOf(batch, weather.cut)
      ensures f.providerFails ==> weather.providerDown
    {
      f := Faults(weather.createFails, false, StopOf(batch, weather.cut));
      if model.None? || |batch| == 0 {
        return true, f;
      }
      assert batch[|batch| - 1].0 in BatchMap(batch);
      var ensured := EnsureVectors(weather.createFails);
      if !ensured {
        return false, f;
      }
      var embedded := EmbedBatch(batch, now, weather.providerDown);
      if embedded.Threw? {
        return false, f.(providerFails := true);
      }
      var written := WriteAndStamp(batch, RecordsOf(batch, embedded.vectors), weather.cut);
      return written, f;
    }

    method EmbedBatch(batch: Batch, now: int, providerDown: bool) returns (r: EmbedResult)
      requires Valid() && model.Some?
      modifies `cache
      ensures Valid() && !r.NoProvider? && (r.Threw? ==> providerDown)
      ensures r.Vectors? ==> |r.vectors| == |batch| && forall i :: 0 <= i < |batch| ==>
        provider.round(r.vectors[i]) == Environment().vectorOf(model.value, batch[i].1.content)
    {
      var texts := Map(batch, (b: (Id, Row)) => EmbedText(b.1.content));
      r := EmbedCached(texts, now, providerDown);
    }

    /** The records of a batch; the vector column is float32. */
    function RecordsOf(batch: Batch, vs: seq<Vector>): (records: seq<VectorRecord>)
      requires |vs| == |batch|
      ensures |records| == |batch|
      ensures forall i :: 0 <= i < |batch| ==>
        records[i] == VectorRecord(batch[i].0, provider.round(vs[i]), PayloadFor(userId, batch[i].1))
    {
      seq(|batch|, i requires 0 <= i < |batch| =>
        VectorRecord(batch[i].0, provider.round(vs[i]), PayloadFor(userId, batch[i].1)))
    }

    // --------------------------------------------------------------- repair and reindex

    /** `SELECT … WHERE embedded_model is stale ORDER BY updated_at DESC LIMIT limit`. */
    method SelectStale(limit: nat) returns (page: Batch)
      requires model.Some?
      ensures BatchIds(page) && |BatchMap(page)| == |page|
      ensures IsStalePage(rows, model.value, limit, BatchMap(page).Keys)
      ensures BatchMap(page) == Chosen(rows, BatchMap(page).Keys)
    {
      ghost var left: set<Id>;
      page, left := NewestFirst(rows, StaleIds(rows, model.value), limit);
      PageDone(rows, StaleIds(rows, model.value), BatchMap(page), left);
    }

    method RepairStaleVectors(limit: nat, now: int, weather: Weather)
      returns (repaired: Option<nat>, ghost page: set<Id>, ghost f: Faults)
      requires Valid()
      modifies `ready, `rows, `cache, vectors
      ensures Valid()
      ensures model.Some? ==>
        IsStalePage(old(rows), model.value, limit, page) && StopFits(f.stop, Chosen(old(rows), page))
      ensures (State(), repaired) == Repair(old(State()), Environment(), page, f)
      ensures f.createFails == weather.createFails
    {
      if model.None? {
        return Some(0), {}, Faults(weather.createFails, false, Complete);
      }
      var batch := SelectStale(limit);
      page := BatchMap(batch).Keys;
      StopOfFits(batch, weather.cut);
      var ok: bool;
      ok, f := IndexMemories(batch, now, weather);
      repaired := if ok then Some(|batch|) else None;
    }

    /**
     Whatever fails in whatever pass, the stamps stay truthful and the memories as they were; and a
     reported total is the number of memories, every one of them now embedded by the current model.
     */
    method MemoryReindex(now: int, createFails: bool, weather: nat -> Weather) returns (reindexed: Option<nat>)
      requires Valid() && Agrees(State(), Environment()) && EnsureIsClean(State(), Environment(), createFails)
      modifies `ready, `rows, `cache, vectors
      ensures Valid() && Agrees(State(), Environment()) && SameContents(old(rows), rows)
      ensures model.None? ==> reindexed == Some(0) && State() == old(State())
      ensures model.Some? && reindexed.Some? ==>
        reindexed.value == |rows| && forall id :: id in rows ==> rows[id].embeddedModel == model
    {
      if model.None? {
        return Some(0);
      }
      EnsureKeepsAgreementIff(State(), Environment(), createFails);
      EnsureKeepsContents(State(), Environment(), createFails);
      var ensured := EnsureVectors(createFails);
      if !ensured {
        return None;
      }
      ClearingKeepsAgreement(State(), Environment(), model.value);
      SameContentsTransitive(old(rows), rows, ClearStamps(rows));
      rows := ClearStamps(rows);
      reindexed := ReindexPasses(now, weather);
      if reindexed.Some? {
        forall id | id in rows ensures rows[id].embeddedModel == model {
          assert id !in StaleIds(rows, model.value);
        }
      }
    }

    /** The loop of `memoryReindex`; the number of stale rows decides that it ends. */
    method ReindexPasses(now: int, weather: nat -> Weather) returns (total: Option<nat>)
      requires Valid() && model.Some? && ready && Agrees(State(), Environment())
      requires OnlyOwnStamps(rows, model.value) && StaleIds(rows, model.value) == rows.Keys
      modifies `ready, `rows, `cache, vectors
      ensures Valid() && Agrees(State(), Environment()) && SameContents(old(rows), rows)
      ensures total.Some? ==> total.value == |rows| && StaleIds(rows, model.value) == {}
    {
      ghost var m := model.value;
      var counted, pass := 0, 0;
      assert |rows| == |rows.Keys|;
      while true
        invariant Valid() && ready && Agrees(State(), Environment()) && SameContents(old(rows), rows)
        invariant OnlyOwnStamps(rows, m) && counted + |StaleIds(rows, m)| == |old(rows)|
        decreases |StaleIds(rows, m)|
      {
        ghost var before := State();
        var repaired, page, f := RepairStaleVectors(LAZY_REINDEX_BATCH, now, weather(pass));
        PassKeepsAgreement(before, Environment(), page, f);
        SameContentsTransitive(old(rows), before.rows, rows);
        if repaired.None? {
          return None;
        }
        RepairStamps(before, Environment(), page, f);
        StampedStale(before.rows, page, m);
        counted, pass := counted + repaired.value, pass + 1;
        if repaired.value < LAZY_REINDEX_BATCH {
          SubsetSize(page, StaleIds(before.rows, m));
          assert |rows| == |rows.Keys| == |old(rows).Keys|;
          return Some(counted);
        }
      }
    }

    // ----------------------------------------------------------------- upsert and delete

    /** `SELECT … WHERE dedupe_key = ? AND id != ?`. */
    method FindByKey(key: string, other: Option<Id>) returns (found: Option<Id>)
      ensures found.Some? ==> Owns(rows, found.value, Some(key)) && found != other
      ensures found.None? ==> forall id :: Owns(rows, id, Some(key)) ==> Some(id) == other
    {
      if id :| id in rows && rows[id].content.dedupeKey == Some(key) && Some(id) != other {
        assert Owns(rows, id, Some(key));
        return Some(id);
      }
      return None;
    }

    method MemoryUpsert(edit: Edit, newId: Id, now: int, weather: Weather)
      returns (result: UpsertResult, ghost f: Faults)
      requires Valid() && DedupeUnique(rows)
      modifies `ready, `rows, `cache, vectors
      ensures Valid()
      ensures (State(), result) == Upsert(old(State()), Environment(), edit, newId, now, f)
      ensures f.createFails == weather.createFails
      ensures f.stop.Stopped? ==> f.stop.done == {} && f.stop.lost <= {UpsertId(old(rows), edit, newId)}
    {
      f := Faults(weather.createFails, false, Complete);
      var key := edit.content.dedupeKey;
      OwnerIsUnique(rows, key);
      var existing: Option<Id> := None;
      if edit.id.Some? {
        if edit.id.value !in rows {
          return NotFound, f;
        }
        existing := edit.id;
      } else if key.Some? {
        existing := FindByKey(key.value, None);
      }
      assert existing == UpsertTarget(rows, edit);
      if key.Some? {
        var clash := FindByKey(key.value, existing);
        if clash.Some? {
          return Conflict(clash.value), f;
        }
        assert OwnerOf(rows, key).Some? ==> Owns(rows, OwnerOf(rows, key).value, Some(key.value));
      }
      result, f := SaveMemory(edit, existing, newId, now, weather);
    }

    /** The writing half of an upsert. */
    method SaveMemory(edit: Edit, existing: Option<Id>, newId: Id, now: int, weather: Weather)
      returns (result: UpsertResult, ghost f: Faults)
      requires Valid() && (existing.Some? ==> existing.value in rows)
      modifies `ready, `rows, `cache, vectors
      ensures Valid()
      ensures (State(), result) == Save(old(State()), Environment(), edit, existing, newId, now, f)
      ensures f.createFails == weather.createFails
      ensures f.stop.Stopped? ==> f.stop.done == {} && f.stop.lost <= {if existing.Some? then existing.value else newId}
    {
      var id := if existing.Some? then existing.value else newId;
      WriteRow(edit, existing, id, now);
      var ok: bool;
      ok, f := IndexOne(id, now, weather);
      return Saved(existing.None?, id, !ok), f;
    }

    /** The UPDATE or INSERT of an upsert. */
    method WriteRow(edit: Edit, existing: Option<Id>, id: Id, now: int)
      requires existing.Some? ==> existing.value == id && id in rows
      modifies `rows
      ensures rows == old(rows)[id := EditedRow(if existing.Some? then Some(old(rows)[id]) else None, edit, now)]
    {
      var status :=
        if edit.status.Some? then edit.status.value
        else if existing.Some? && rows[id].status != Deleted then rows[id].status
        else Active;
      if existing.Some? {
        var deletedAt :=
          if status != Deleted then None else if rows[id].deletedAt.Some? then rows[id].deletedAt else Some(now);
        rows := rows[id := rows[id].(content := edit.content, status := status, embeddedModel := None,
                                     updatedAt := now, deletedAt := deletedAt)];
      } else {
        rows := rows[id := Row(edit.content, status, None, now, now, None, None)];
      }
    }

    /** `indexMemories([row])` for a row just written. */
    method IndexOne(id: Id, now: int, weather: Weather) returns (ok: bool, ghost f: Faults)
      requires Valid() && id in rows
      modifies `ready, `rows, `cache, vectors
      ensures Valid()
      ensures (State(), ok) == MemoryIndex.IndexMemories(old(State()), Environment(), map[id := old(rows[id])], f)
      ensures f.createFails == weather.createFails && (f.stop.Stopped? ==> f.stop.done == {} && f.stop.lost <= {id})
    {
      var batch := [(id, rows[id])];
      assert batch[..0] == [];
      assert BatchMap(batch) == map[id := rows[id]];
      ok, f := IndexMemories(batch, now, weather);
    }

    method MemorySoftDelete(id: Id, now: int, weather: Weather) returns (found: bool, ghost f: Faults)
      requires Valid()
      modifies `ready, `rows, `cache, vectors
      ensures Valid()
      ensures found <==> id in old(rows)
      ensures State() == SoftDelete(old(State()), Environment(), id, now, f)
      ensures f.createFails == weather.createFails && (f.stop.Stopped? ==> f.stop.done == {} && f.stop.lost <= {id})
    {
      f := Faults(weather.createFails, false, Complete);
      if id !in rows {
        return false, f;
      }
      rows := rows[id := rows[id].(status := Deleted, deletedAt := Some(now), updatedAt := now, embeddedModel := None)];
      var _, f' := IndexOne(id, now, weather);
      return true, f';
    }

    /** A failure comes after the memory and its suppressions are gone. */
    method MemoryHardDelete(id: Id, createFails: bool, deleteFails: bool) returns (found: bool, ok: bool)
      requires Valid()
      modifies `ready, `rows, `suppressions, vectors
      ensures Valid()
      ensures found <==> id in old(rows)
      ensures (State(), ok) == HardDelete(old(State()), Environment(), id, createFails, deleteFails)
      ensures suppressions == if found then Forget(old(suppressions), id) else old(suppressions)
    {
      if id !in rows {
        return false, true;
      }
      rows := rows - {id};
      suppressions := Forget(suppressions, id);
      if model.Some? {
        var ensured := EnsureVectors(createFails);
        if !ensured || deleteFails {
          return true, false;
        }
        vectors.Delete([id]);
        assert IdSet([id]) == {id};
      }
      return true, true;
    }

    // ---------------------------------------------------------------------------- search

    /** The part of a search in front of the ranking: what the vector store contributes. */
    method SemanticHits(query: string, offered: seq<Id>, now: int, createFails: bool, weather: Weather, queryDown: bool)
      returns (hits: seq<Id>, ghost page: set<Id>, ghost f: Faults)
      requires Valid()
      modifies `ready, `rows, `cache, vectors
      ensures Valid()
      ensures hits == offered || hits == []
      ensures model.None? ==> hits == []
      ensures State() == SearchIndexing(old(State()), Environment(), createFails, page, f)
      ensures SameContents(old(rows), rows)
      ensures PageFits(old(State()), Environment(), createFails, page, f)
    {
      hits, page, f := [], {}, Faults(createFails, false, Complete);
      if model.None? {
        return;
      }
      EnsureKeepsContents(State(), Environment(), createFails);
      var ensured := EnsureVectors(createFails);
      if !ensured {
        return;
      }
      ghost var between := State();
      var repaired: Option<nat>;
      repaired, page, f := RepairStaleVectors(LAZY_REINDEX_BATCH, now, weather);
      IndexKeepsContents(between, Environment(), Chosen(between.rows, page), f);
      SameContentsTransitive(old(rows), between.rows, rows);
      if repaired.Some? {
        var queryVector := EmbedCached([query], now, weather.providerDown);
        if queryVector.Vectors? && !queryDown {
          hits := offered;
        }
      }
    }

    /**
     `offered` is whatever the vector store answers. The returned ids and the suppressions left
     behind are those of the search's tail over the full ranking.
     */
    method MemorySearch(query: string, input: SearchInput, lexical: seq<Id>, offered: seq<Id>,
                        collate: (Id, Id) -> bool,
                        now: int, pruneAt: int, ackAt: int, createFails: bool, weather: Weather, queryDown: bool)
      returns (matches: seq<Found>, suppressedCount: nat, ghost hits: seq<Id>, ghost page: set<Id>, ghost f: Faults)
      requires Valid() && TotalPreorder(collate)
      modifies `ready, `rows, `cache, `suppressions, vectors
      ensures Valid()
      ensures hits == offered || hits == []
      ensures State() ==
        SearchEffect(old(State()), Environment(), createFails, page, f, IdSet(FoundIds(matches)), ackAt)
      ensures PageFits(old(State()), Environment(), createFails, page, f)
      ensures (FoundIds(matches), suppressions)
           == Tail(old(suppressions), input, Ranked(old(rows), input, lexical, hits, collate), pruneAt, ackAt)
      ensures suppressedCount
           == HiddenCount(Prune(old(suppressions), pruneAt), input, Ranked(old(rows), input, lexical, hits, collate))
      ensures MatchesSay(matches, old(rows), lexical, hits, Fused(lexical, hits))
    {
      var found: seq<Id>;
      found, page, f := SemanticHits(query, offered, now, createFails, weather, queryDown);
      hits := found;
      RankedReadsContents(old(rows), rows, input, lexical, found, collate);
      ghost var between := rows;
      matches, suppressedCount := Respond(input, lexical, found, collate, pruneAt, ackAt);
      MatchesReadContents(matches, old(rows), between, lexical, found, Fused(lexical, found));
    }

    /** The memory that owns the candidate's key, and the related ones; nothing is acknowledged. */
    method MemoryVerify(key: Option<string>, query: string, limit: Option<int>, conversation: Option<Conversation>,
                        includeSuppressed: bool, lexical: seq<Id>, offered: seq<Id>, collate: (Id, Id) -> bool,
                        now: int, pruneAt: int, ackAt: int, createFails: bool, weather: Weather, queryDown: bool)
      returns (exact: Option<Id>, matches: seq<Found>, suppressedCount: nat, ghost hits: seq<Id>, ghost page: set<Id>,
               ghost f: Faults)
      requires Valid() && TotalPreorder(collate)
      modifies `ready, `rows, `cache, `suppressions, vectors
      ensures Valid()
      ensures exact.Some? ==> Owns(old(rows), exact.value, key)
      ensures exact.None? ==> forall id :: !Owns(old(rows), id, key)
      ensures State() ==
        SearchEffect(old(State()), Environment(), createFails, page, f, IdSet(FoundIds(matches)), ackAt)
      ensures PageFits(old(State()), Environment(), createFails, page, f)
      ensures suppressions == Prune(old(suppressions), pruneAt)
      ensures var input := VerifyInput(limit, conversation, includeSuppressed);
        var ranked := Ranked(old(rows), input, lexical, hits, collate);
        FoundIds(matches) == Tail(old(suppressions), input, ranked, pruneAt, ackAt).0
        && suppressedCount == HiddenCount(Prune(old(suppressions), pruneAt), input, ranked)
    {
      exact := None;
      if key.Some? {
        exact := FindByKey(key.value, None);
      }
      matches, suppressedCount, hits, page, f := MemorySearch(
        query, VerifyInput(limit, conversation, includeSuppressed), lexical, offered, collate,
        now, pruneAt, ackAt, createFails, weather, queryDown);
    }

    /** The tail of a search, in one turn of the event loop. */
    method Respond(input: SearchInput, lexical: seq<Id>, hits: seq<Id>, collate: (Id, Id) -> bool, pruneAt: int,
                   ackAt: int)
      returns (matches: seq<Found>, suppressedCount: nat)
      requires Valid() && TotalPreorder(collate)
      modifies `rows, `suppressions
      ensures Valid()
      ensures rows == Touch(old(rows), IdSet(FoundIds(matches)), ackAt)
      ensures (FoundIds(matches), suppressions)
           == Tail(old(suppressions), input, Ranked(old(rows), input, lexical, hits, collate), pruneAt, ackAt)
      ensures suppressedCount
           == HiddenCount(Prune(old(suppressions), pruneAt), input, Ranked(old(rows), input, lexical, hits, collate))
      ensures MatchesSay(matches, old(rows), lexical, hits, Fused(lexical, hits))
    {
      suppressions := Prune(suppressions, pruneAt);
      var top: seq<Id>;
      top, suppressedCount := ChooseTop(input, lexical, hits, collate);
      matches := Matches(rows, lexical, hits, top, Fused(lexical, hits));
      RecordTop(input, top, ackAt);
    }

    /** The visible ranking's head, and how many of the full ranking are hidden. */
    method ChooseTop(input: SearchInput, lexical: seq<Id>, hits: seq<Id>, collate: (Id, Id) -> bool)
      returns (top: seq<Id>, suppressedCount: nat)
      requires TotalPreorder(collate)
      ensures top == Take(Visible(suppressions, input, Ranked(rows, input, lexical, hits, collate)), Limit(input))
      ensures suppressedCount == HiddenCount(suppressions, input, Ranked(rows, input, lexical, hits, collate))
      ensures forall id :: id in top ==> id in rows && Fused(lexical, hits)(id) > 0.0
    {
      var ranked := Ranked(rows, input, lexical, hits, collate);
      var visible := Visible(suppressions, input, ranked);
      RankedQuality(rows, input, lexical, hits, collate);
      VisibleQuality(suppressions, input, ranked, lexical, hits, collate);
      suppressedCount := |ranked| - |visible|;
      top := Take(visible, Limit(input));
      forall id | id in top ensures id in rows && Fused(lexical, hits)(id) > 0.0 {
        assert id in visible;
        FusedScore(lexical, hits, id);
      }
    }

    /** Touch what is returned and, if asked to, let it rest in this conversation. */
    method RecordTop(input: SearchInput, top: seq<Id>, ackAt: int)
      modifies `rows, `suppressions
      ensures rows == Touch(old(rows), IdSet(top), ackAt)
      ensures suppressions ==
        if top != [] && input.conversation.Some? && input.acknowledge
        then Acknowledge(old(suppressions), input.conversation.value, top, ackAt + SUPPRESSION_TTL_MS)
        else old(suppressions)
    {
      if |top| > 0 {
        TouchRows(top, ackAt);
        if input.conversation.Some? && input.acknowledge {
          AcknowledgeAll(input.conversation.value, top, ackAt + SUPPRESSION_TTL_MS);
        }
      } else {
        assert IdSet(top) == {};
        assert Touch(rows, {}, ackAt) == rows;
      }
    }

    method TouchRows(top: seq<Id>, now: int)
      modifies `rows
      ensures rows == Touch(old(rows), IdSet(top), now)
    {
      for i := 0 to |top|
        invariant rows == Touch(old(rows), IdSet(top[..i]), now)
      {
        assert top[..i + 1] == top[..i] + [top[i]];
        assert IdSet(top[..i + 1]) == IdSet(top[..i]) + {top[i]};
        if top[i] in rows {
          rows := rows[top[i] := rows[top[i]].(lastAccessedAt := Some(now))];
        }
      }
      assert top[..|top|] == top;
    }

    method AcknowledgeAll(conversation: Conversation, top: seq<Id>, expires: int)
      modifies `suppressions
      ensures suppressions == Acknowledge(old(suppressions), conversation, top, expires)
    {
      for i := 0 to |top|
        invariant suppressions == Acknowledge(old(suppressions), conversation, top[..i], expires)
      {
        assert top[..i + 1] == top[..i] + [top[i]];
        suppressions := suppressions[(conversation, top[i]) := expires];
      }
      assert top[..|top|] == top;
    }
  }

  /** Each match carries its row, its ranks in both lists, and its score relative to the first. */
  ghost predicate MatchesSay(matches: seq<Found>, rows: map<Id, Row>, lexical: seq<Id>, hits: seq<Id>,
                             score: Id -> real)
  {
    forall m :: m in matches ==>
      && m.id in rows && m.row.content == rows[m.id].content && m.row.status == rows[m.id].status
      && m.lexicalRank == RankIn(lexical, m.id) && m.vectorRank == RankIn(hits, m.id)
      && m.score * score(matches[0].id) == score(m.id)
  }

  lemma MatchesReadContents(matches: seq<Found>, a: map<Id, Row>, b: map<Id, Row>, lexical: seq<Id>, hits: seq<Id>,
                            score: Id -> real)
    requires SameContents(a, b) && MatchesSay(matches, b, lexical, hits, score)
    ensures MatchesSay(matches, a, lexical, hits, score)
  {
    forall id | id in a ensures a[id].content == b[id].content && a[id].status == b[id].status {
      assert a[id].(embeddedModel := None) == b[id].(embeddedModel := None);
    }
  }

  method Matches(rows: map<Id, Row>, lexical: seq<Id>, hits: seq<Id>, top: seq<Id>, score: Id -> real)
    returns (matches: seq<Found>)
    requires forall id :: id in top ==> id in rows && score(id) > 0.0
    ensures FoundIds(matches) == top && MatchesSay(matches, rows, lexical, hits, score)
  {
    if |top| == 0 {
      return [];
    }
    var best := score(top[0]);
    matches := seq(|top|, i requires 0 <= i < |top| => FoundFor(rows, lexical, hits, score, best, top[i]));
    FoundSay(matches, rows, lexical, hits, top, score);
  }

  lemma FoundSay(matches: seq<Found>, rows: map<Id, Row>, lexical: seq<Id>, hits: seq<Id>, top: seq<Id>,
                 score: Id -> real)
    requires top != [] && |matches| == |top| && forall id :: id in top ==> id in rows && score(id) > 0.0
    requires forall i :: 0 <= i < |top| ==>
      matches[i] == FoundFor(rows, lexical, hits, score, score(top[0]), top[i])
    ensures FoundIds(matches) == top && MatchesSay(matches, rows, lexical, hits, score)
  {
  }
}
