/**
 What the memory cell's operations do to the memories and to the vector table that indexes them
 (src/cells/memory-cell.ts), as functions on values, and what every run of them keeps.
 */
module MemoryIndex {
  import opened Lists
  import opened VectorStore

  // ------------------------------------------------------------------------ state

  datatype Model = Model(provider: string, name: string, dimensions: nat)

  datatype Content = Content(
    category: Option<string>, subject: string, summary: string, details: string,
    tags: seq<string>, sourceUris: seq<string>, dedupeKey: Option<string>)

  datatype Row = Row(
    content: Content, status: Status, embeddedModel: Option<Model>,
    createdAt: int, updatedAt: int, lastAccessedAt: Option<int>, deletedAt: Option<int>)

  /** The memories, the vector table, and whether this process already ensured the table. */
  datatype Cell = Cell(rows: map<Id, Row>, table: Table, ready: bool)

  /** What one process runs with; `vectorOf(m, c)` is the up-to-date vector of content c under model m. */
  datatype Env = Env(model: Option<Model>, userId: string, vectorOf: (Model, Content) -> Vector)

  ghost predicate ValidEnv(env: Env) {
    env.model.Some? ==> env.model.value.dimensions > 0
  }

  function PayloadFor(userId: string, row: Row): Payload {
    Payload(userId, row.status, if row.content.category.Some? then row.content.category.value else "")
  }

  function Entry(env: Env, model: Model, row: Row): Stored {
    Stored(env.vectorOf(model, row.content), PayloadFor(env.userId, row))
  }

  /** One row is indexed as the model in its stamp embeds it now. */
  ghost predicate RowAgrees(cell: Cell, env: Env, id: Id)
    requires id in cell.rows
  {
    var row := cell.rows[id];
    row.embeddedModel.Some? ==>
      cell.table.Table? && id in cell.table.rows && cell.table.rows[id] == Entry(env, row.embeddedModel.value, row)
  }

  /** Every stamp tells the truth. */
  ghost predicate Agrees(cell: Cell, env: Env) {
    && (cell.ready ==> cell.table.Table?)
    && forall id :: id in cell.rows ==> RowAgrees(cell, env, id)
  }

  predicate IsStale(row: Row, model: Model) {
    row.embeddedModel != Some(model)
  }

  function StaleIds(rows: map<Id, Row>, model: Model): set<Id> {
    set id | id in rows && IsStale(rows[id], model)
  }

  // ------------------------------------------------------------------- ensureVectors

  function ClearStamps(rows: map<Id, Row>): map<Id, Row> {
    map id | id in rows :: rows[id].(embeddedModel := None)
  }

  function StampAll(rows: map<Id, Row>, ids: set<Id>, model: Model): map<Id, Row> {
    map id | id in rows :: if id in ids then rows[id].(embeddedModel := Some(model)) else rows[id]
  }

  /** `ensureVectors`: false is a throw. */
  function EnsureVectors(cell: Cell, env: Env, createFails: bool): (r: (Cell, bool))
    requires ValidEnv(env)
    ensures (cell.ready ==> cell.table.Table?) ==> (r.0.ready ==> r.0.table.Table?)
    ensures r.1 && env.model.Some? ==> r.0.ready
  {
    if env.model.None? || cell.ready then (cell, true)
    else
      var (t, recreated) := EnsureTable(cell.table, env.model.value.dimensions, createFails);
      match recreated
      case None => (Cell(cell.rows, t, false), false)
      case Some(again) => (Cell(if again then ClearStamps(cell.rows) else cell.rows, t, true), true)
  }

  /** Nothing was dropped that a stamp still vouches for. */
  predicate EnsureIsClean(cell: Cell, env: Env, createFails: bool) {
    && (env.model.Some? ==> env.model.value.dimensions > 0)
    && (createFails && env.model.Some? && !cell.ready && cell.table.Table?
        && cell.table.schema != Schema(env.model.value.dimensions, Some(LocalChunkSize(env.model.value.dimensions)))
        ==> forall id :: id in cell.rows ==> cell.rows[id].embeddedModel.None?)
  }

  /**
   `ensure` keeps the index truthful exactly when it does not drop a table that some stamp still
   relies on and then fail to create the new one: the retry reports `recreated: false`.
   */
  lemma EnsureKeepsAgreementIff(cell: Cell, env: Env, createFails: bool)
    requires ValidEnv(env) && Agrees(cell, env)
    ensures Agrees(EnsureVectors(cell, env, createFails).0, env) <==> EnsureIsClean(cell, env, createFails)
  {
    var (after, ok) := EnsureVectors(cell, env, createFails);
    if EnsureIsClean(cell, env, createFails) {
      forall id | id in after.rows ensures RowAgrees(after, env, id) {
        assert RowAgrees(cell, env, id);
      }
    } else {
      var id :| id in cell.rows && cell.rows[id].embeddedModel.Some?;
      assert after.table.NoTable? && after.rows == cell.rows;
      assert !RowAgrees(after, env, id);
    }
  }

  // ------------------------------------------------------------------- indexMemories

  /** The index entries of a batch of rows, each as read before the first `await`. */
  function Entries(env: Env, model: Model, batch: map<Id, Row>): map<Id, Stored> {
    map id | id in batch :: Entry(env, model, batch[id])
  }

  /** Where a write stopped: ids written, and an id whose old entry is gone. */
  datatype Stop = Complete | Stopped(done: set<Id>, lost: set<Id>)

  predicate StopFits(stop: Stop, batch: map<Id, Row>) {
    stop.Stopped? ==> stop.done + stop.lost <= batch.Keys && stop.done !! stop.lost && stop.done != batch.Keys
  }

  /** The half of `indexMemories` behind the `await`s: write the vectors, then stamp the rows. */
  function Finish(cell: Cell, env: Env, model: Model, batch: map<Id, Row>, stop: Stop): (r: (Cell, bool))
    requires cell.table.Table?
    ensures r.0.table.Table? && r.0.ready == cell.ready
  {
    var entries := Entries(env, model, batch);
    match stop
    case Complete =>
      var table := cell.table.(rows := cell.table.rows + entries);
      (cell.(table := table, rows := StampAll(cell.rows, batch.Keys, model)), true)
    case Stopped(done, lost) =>
      (cell.(table := cell.table.(rows := (cell.table.rows + (entries - (entries.Keys - done))) - lost)), false)
  }

  /** What goes wrong during one pass: table creation, the provider, or the table write. */
  datatype Faults = Faults(createFails: bool, providerFails: bool, stop: Stop)

  const NO_FAULTS := Faults(false, false, Complete)

  function IndexMemories(cell: Cell, env: Env, batch: map<Id, Row>, f: Faults): (r: (Cell, bool))
    requires ValidEnv(env) && (cell.ready ==> cell.table.Table?)
    ensures r.0.ready ==> r.0.table.Table?
  {
    if env.model.None? || batch == map[] then (cell, true)
    else
      var (ensured, ok) := EnsureVectors(cell, env, f.createFails);
      if !ok || f.providerFails then (ensured, false)
      else Finish(ensured, env, env.model.value, batch, f.stop)
  }

  /** The captured rows still say what the table says, as far as the index is concerned. */
  ghost predicate Current(rows: map<Id, Row>, batch: map<Id, Row>) {
    forall id :: id in batch ==>
      id in rows && rows[id].content == batch[id].content && rows[id].status == batch[id].status
  }

  /**
   Finishing a pass over rows captured earlier keeps the index truthful exactly when every captured
   row that still exists is indexed as it now is: an edit that ran in between is overwritten.
   */
  lemma LateFinishKeepsAgreementIff(cell: Cell, env: Env, model: Model, batch: map<Id, Row>)
    requires Agrees(cell, env) && cell.table.Table?
    ensures Agrees(Finish(cell, env, model, batch, Complete).0, env)
       <==> forall id :: id in batch && id in cell.rows ==>
              Entry(env, model, batch[id]) == Entry(env, model, cell.rows[id])
  {
    var after := Finish(cell, env, model, batch, Complete).0;
    forall id | id in cell.rows
      ensures RowAgrees(after, env, id) <==>
        (id in batch ==> Entry(env, model, batch[id]) == Entry(env, model, cell.rows[id]))
    {
      assert RowAgrees(cell, env, id);
      if id in batch {
        SameEntry(env, model, cell.rows[id], after.rows[id]);
      }
    }
  }

  /** An entry depends on content and status only. */
  lemma SameEntry(env: Env, model: Model, a: Row, b: Row)
    requires a.content == b.content && a.status == b.status
    ensures Entry(env, model, a) == Entry(env, model, b)
  {
  }

  // -------------------------------------------------------------------- interruption

  /** The two models never embed this content alike. */
  ghost predicate Apart(env: Env, model: Model, content: Content) {
    forall other: Model :: other != model ==> env.vectorOf(other, content) != env.vectorOf(model, content)
  }

  /**
   An interrupted write leaves the index truthful exactly when no row it touched was stamped, for
   rows that were stale to begin with and models that tell their texts apart.
   */
  lemma InterruptedFinishKeepsAgreementIff(cell: Cell, env: Env, model: Model, batch: map<Id, Row>, stop: Stop)
    requires Agrees(cell, env) && cell.table.Table? && stop.Stopped? && StopFits(stop, batch)
    requires Current(cell.rows, batch)
    requires forall id :: id in batch ==> IsStale(cell.rows[id], model) && Apart(env, model, batch[id].content)
    ensures Agrees(Finish(cell, env, model, batch, stop).0, env)
       <==> forall id :: id in stop.done + stop.lost ==> cell.rows[id].embeddedModel.None?
  {
    var after := Finish(cell, env, model, batch, stop).0;
    forall id | id in cell.rows
      ensures RowAgrees(after, env, id) <==> (id in stop.done + stop.lost ==> cell.rows[id].embeddedModel.None?)
    {
      assert RowAgrees(cell, env, id);
      if id in stop.done && cell.rows[id].embeddedModel.Some? {
        assert env.vectorOf(cell.rows[id].embeddedModel.value, batch[id].content)
            != env.vectorOf(model, batch[id].content);
      }
    }
  }

  /** Nothing the index vouches for is lost if the pass stops half-way. */
  predicate PassIsClean(cell: Cell, env: Env, batch: map<Id, Row>, f: Faults)
    requires ValidEnv(env)
  {
    env.model.Some? && batch != map[] ==>
      && StopFits(f.stop, batch)
      && EnsureIsClean(cell, env, f.createFails)
      && (f.stop.Stopped? ==>
            var ensured := EnsureVectors(cell, env, f.createFails).0;
            forall id :: id in f.stop.done + f.stop.lost && id in ensured.rows ==> ensured.rows[id].embeddedModel.None?)
  }

  /** A pass over rows as they are keeps the index truthful. */
  lemma IndexKeepsAgreement(cell: Cell, env: Env, batch: map<Id, Row>, f: Faults)
    requires ValidEnv(env) && Agrees(cell, env)
    requires Current(cell.rows, batch)
    requires PassIsClean(cell, env, batch, f)
    ensures Agrees(IndexMemories(cell, env, batch, f).0, env)
  {
    if env.model.Some? && batch != map[] {
      var model := env.model.value;
      EnsureKeepsAgreementIff(cell, env, f.createFails);
      var (ensured, ok) := EnsureVectors(cell, env, f.createFails);
      assert Current(ensured.rows, batch);
      if ok && !f.providerFails {
        var after := Finish(ensured, env, model, batch, f.stop).0;
        if f.stop.Stopped? {
          forall id | id in after.rows ensures RowAgrees(after, env, id) {
            assert RowAgrees(ensured, env, id);
          }
        } else {
          forall id | id in batch ensures Entry(env, model, batch[id]) == Entry(env, model, ensured.rows[id]) {
            SameEntry(env, model, batch[id], ensured.rows[id]);
          }
          LateFinishKeepsAgreementIff(ensured, env, model, batch);
        }
      }
    }
  }

  /** Same memories up to the stamps. */
  ghost predicate SameContents(a: map<Id, Row>, b: map<Id, Row>) {
    a.Keys == b.Keys && forall id :: id in a ==> a[id].(embeddedModel := None) == b[id].(embeddedModel := None)
  }

  lemma EnsureKeepsContents(cell: Cell, env: Env, createFails: bool)
    requires ValidEnv(env) && (cell.ready ==> cell.table.Table?)
    ensures SameContents(cell.rows, EnsureVectors(cell, env, createFails).0.rows)
  {
  }

  lemma FinishKeepsContents(cell: Cell, env: Env, model: Model, batch: map<Id, Row>, stop: Stop)
    requires cell.table.Table?
    ensures SameContents(cell.rows, Finish(cell, env, model, batch, stop).0.rows)
  {
  }

  lemma IndexKeepsContents(cell: Cell, env: Env, batch: map<Id, Row>, f: Faults)
    requires ValidEnv(env) && (cell.ready ==> cell.table.Table?)
    ensures SameContents(cell.rows, IndexMemories(cell, env, batch, f).0.rows)
  {
    if env.model.Some? && batch != map[] {
      EnsureKeepsContents(cell, env, f.createFails);
      var (ensured, ok) := EnsureVectors(cell, env, f.createFails);
      if ok && !f.providerFails {
        FinishKeepsContents(ensured, env, env.model.value, batch, f.stop);
        SameContentsTransitive(cell.rows, ensured.rows, Finish(ensured, env, env.model.value, batch, f.stop).0.rows);
      }
    }
  }

  lemma SameContentsTransitive(a: map<Id, Row>, b: map<Id, Row>, c: map<Id, Row>)
    requires SameContents(a, b) && SameContents(b, c)
    ensures SameContents(a, c)
  {
  }
}
