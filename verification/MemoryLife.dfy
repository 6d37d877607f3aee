/** Deletes, searches, restarts, and the invariant of every run of the memory cell. */
module MemoryLife {
  import opened Lists
  import opened VectorStore
  import opened MemoryIndex
  import opened MemoryRuns

  /** `memoryDelete` without `force`; the row must exist. */
  function SoftDelete(cell: Cell, env: Env, id: Id, now: int, f: Faults): Cell
    requires ValidEnv(env) && (cell.ready ==> cell.table.Table?)
  {
    if id !in cell.rows then cell
    else
      var row := cell.rows[id].(status := Deleted, deletedAt := Some(now), updatedAt := now, embeddedModel := None);
      IndexMemories(cell.(rows := cell.rows[id := row]), env, map[id := row], f).0
  }

  /** `memoryDelete` with `force`; false is a throw after the row is gone. */
  function HardDelete(cell: Cell, env: Env, id: Id, createFails: bool, deleteFails: bool): (r: (Cell, bool))
    requires ValidEnv(env) && (cell.ready ==> cell.table.Table?)
  {
    if id !in cell.rows then (cell, true)
    else
      var gone := cell.(rows := cell.rows - {id});
      if env.model.None? then (gone, true)
      else
        var (ensured, ok) := EnsureVectors(gone, env, createFails);
        if !ok || deleteFails then (ensured, false)
        else (ensured.(table := ensured.table.(rows := ensured.table.rows - {id})), true)
  }

  function Touch(rows: map<Id, Row>, ids: set<Id>, now: int): map<Id, Row> {
    map id | id in rows :: if id in ids then rows[id].(lastAccessedAt := Some(now)) else rows[id]
  }

  /** The page a search repairs is the newest stale rows behind its ensure, and its writes stop within it. */
  ghost predicate PageFits(cell: Cell, env: Env, createFails: bool, page: set<Id>, f: Faults)
    requires ValidEnv(env)
  {
    var (ensured, ok) := EnsureVectors(cell, env, createFails);
    env.model.Some? && ok ==>
      IsStalePage(ensured.rows, env.model.value, LAZY_REINDEX_BATCH, page) &&
      StopFits(f.stop, Chosen(ensured.rows, page))
  }

  /** What a search does to the index: ensure the table, repair one page. */
  function SearchIndexing(cell: Cell, env: Env, createFails: bool, page: set<Id>, f: Faults): (r: Cell)
    requires ValidEnv(env) && (cell.ready ==> cell.table.Table?)
    ensures r.ready ==> r.table.Table?
  {
    if env.model.None? then cell
    else
      var (ensured, ok) := EnsureVectors(cell, env, createFails);
      if ok then Repair(ensured, env, page, f).0 else ensured
  }

  /** What a search does to memories and index in all: it also touches the rows it returns. */
  function SearchEffect(cell: Cell, env: Env, createFails: bool, page: set<Id>, f: Faults, top: set<Id>, now: int): Cell
    requires ValidEnv(env) && (cell.ready ==> cell.table.Table?)
  {
    var indexed := SearchIndexing(cell, env, createFails, page, f);
    indexed.(rows := Touch(indexed.rows, top, now))
  }

  // ------------------------------------------------------------------ each operation

  lemma TouchKeepsAgreement(cell: Cell, env: Env, ids: set<Id>, now: int)
    requires Agrees(cell, env)
    ensures Agrees(cell.(rows := Touch(cell.rows, ids, now)), env)
  {
    var after := cell.(rows := Touch(cell.rows, ids, now));
    forall id | id in after.rows ensures RowAgrees(after, env, id) {
      assert RowAgrees(cell, env, id);
    }
  }

  lemma SoftDeleteKeepsAgreement(cell: Cell, env: Env, id: Id, now: int, f: Faults)
    requires ValidEnv(env) && Agrees(cell, env) && EditIsClean(cell, env, id, f)
    ensures Agrees(SoftDelete(cell, env, id, now, f), env)
    ensures id in cell.rows ==>
      && id in SoftDelete(cell, env, id, now, f).rows
      && SoftDelete(cell, env, id, now, f).rows[id].status == Deleted
      && SoftDelete(cell, env, id, now, f).rows[id].content == cell.rows[id].content
  {
    if id in cell.rows {
      var row := cell.rows[id].(status := Deleted, deletedAt := Some(now), updatedAt := now, embeddedModel := None);
      var written := cell.(rows := cell.rows[id := row]);
      WriteUnstamped(cell, env, id, row);
      IndexOneKeepsAgreement(written, env, id, f);
      assert SoftDelete(cell, env, id, now, f).rows[id].(embeddedModel := None) == row;
    }
  }

  lemma RemovalKeepsAgreement(cell: Cell, env: Env, id: Id)
    requires Agrees(cell, env)
    ensures Agrees(cell.(rows := cell.rows - {id}), env)
  {
    var gone := cell.(rows := cell.rows - {id});
    forall k | k in gone.rows ensures RowAgrees(gone, env, k) {
      assert RowAgrees(cell, env, k);
    }
  }

  lemma HardDeleteKeepsAgreement(cell: Cell, env: Env, id: Id, createFails: bool, deleteFails: bool)
    requires ValidEnv(env) && Agrees(cell, env) && EnsureIsClean(cell, env, createFails)
    ensures Agrees(HardDelete(cell, env, id, createFails, deleteFails).0, env)
    ensures id !in HardDelete(cell, env, id, createFails, deleteFails).0.rows
    ensures env.model.Some? && id in cell.rows && HardDelete(cell, env, id, createFails, deleteFails).1 ==>
      id !in HardDelete(cell, env, id, createFails, deleteFails).0.table.rows
  {
    if id in cell.rows {
      var gone := cell.(rows := cell.rows - {id});
      RemovalKeepsAgreement(cell, env, id);
      EnsureKeepsAgreementIff(gone, env, createFails);
      EnsureKeepsContents(gone, env, createFails);
      var (ensured, ok) := EnsureVectors(gone, env, createFails);
      if env.model.Some? && ok && !deleteFails {
        var after := ensured.(table := ensured.table.(rows := ensured.table.rows - {id}));
        forall k | k in after.rows ensures RowAgrees(after, env, k) {
          assert RowAgrees(ensured, env, k);
        }
      }
    }
  }

  /** A search's repair page is what the query selects once the table is ensured. */
  ghost predicate SearchIsClean(cell: Cell, env: Env, createFails: bool, page: set<Id>, f: Faults)
    requires ValidEnv(env) && (cell.ready ==> cell.table.Table?)
  {
    env.model.Some? ==>
      && EnsureIsClean(cell, env, createFails) && PageFits(cell, env, createFails, page, f)
      && var (ensured, ok) := EnsureVectors(cell, env, createFails);
         ok ==> PassIsClean(ensured, env, Chosen(ensured.rows, page), f)
  }

  lemma SearchKeepsAgreement(cell: Cell, env: Env, createFails: bool, page: set<Id>, f: Faults, top: set<Id>, now: int)
    requires ValidEnv(env) && Agrees(cell, env) && SearchIsClean(cell, env, createFails, page, f)
    ensures Agrees(SearchEffect(cell, env, createFails, page, f, top, now), env)
  {
    if env.model.Some? {
      EnsureKeepsAgreementIff(cell, env, createFails);
      var (ensured, ok) := EnsureVectors(cell, env, createFails);
      if ok {
        RepairKeepsAgreement(ensured, env, page, f);
        TouchKeepsAgreement(Repair(ensured, env, page, f).0, env, top, now);
      } else {
        TouchKeepsAgreement(ensured, env, top, now);
      }
    } else {
      TouchKeepsAgreement(cell, env, top, now);
    }
  }

  /** Where creation does not fail, the table is ready, and the rows are as they were up to all their stamps. */
  lemma EnsureLeavesRows(cell: Cell, env: Env)
    requires ValidEnv(env) && env.model.Some? && (cell.ready ==> cell.table.Table?)
    ensures var (ensured, ok) := EnsureVectors(cell, env, false);
      var stale := StaleIds(ensured.rows, env.model.value);
      && ok && ensured.ready && ensured.table.Table? && ensured.rows.Keys == cell.rows.Keys
      && (stale == StaleIds(cell.rows, env.model.value) || stale == cell.rows.Keys)
      && forall id :: id in cell.rows ==> ensured.rows[id].updatedAt == cell.rows[id].updatedAt
  {
  }

  lemma TouchKeepsStale(rows: map<Id, Row>, ids: set<Id>, now: int, model: Model)
    ensures StaleIds(Touch(rows, ids, now), model) == StaleIds(rows, model)
  {
  }

  lemma WhatPageLeaves(rows: map<Id, Row>, model: Model, limit: nat, page: set<Id>)
    requires IsStalePage(rows, model, limit, page)
    ensures var stale := StaleIds(rows, model);
      |stale - page| == (if |stale| <= limit then 0 else |stale| - limit)
  {
    var stale := StaleIds(rows, model);
    assert |stale - page| == |stale| - |page| by {
      assert stale == page + (stale - page);
    }
  }

  /**
   A search without faults repairs the newest 32 stale rows, or all of them; stale are, should it replace the
   table first, all rows.
   */
  lemma SearchRepairsNewest(cell: Cell, env: Env, page: set<Id>, top: set<Id>, now: int)
    requires ValidEnv(env) && env.model.Some? && (cell.ready ==> cell.table.Table?)
    requires IsStalePage(EnsureVectors(cell, env, false).0.rows, env.model.value, LAZY_REINDEX_BATCH, page)
    ensures var stale := StaleIds(EnsureVectors(cell, env, false).0.rows, env.model.value);
      var left := StaleIds(SearchEffect(cell, env, false, page, NO_FAULTS, top, now).rows, env.model.value);
      && (stale == StaleIds(cell.rows, env.model.value) || stale == cell.rows.Keys)
      && left == stale - page
      && |left| == (if |stale| <= LAZY_REINDEX_BATCH then 0 else |stale| - LAZY_REINDEX_BATCH)
      && forall p, q :: p in page && q in left ==> cell.rows[p].updatedAt >= cell.rows[q].updatedAt
  {
    EnsureLeavesRows(cell, env);
    var ensured := EnsureVectors(cell, env, false).0;
    RepairFreshensPage(ensured, env, page, NO_FAULTS);
    TouchKeepsStale(Repair(ensured, env, page, NO_FAULTS).0.rows, top, now, env.model.value);
    WhatPageLeaves(ensured.rows, env.model.value, LAZY_REINDEX_BATCH, page);
  }

  // ----------------------------------------------------------------------------- runs

  datatype Op =
    | DoUpsert(edit: Edit, newId: Id, now: int, f: Faults)
    | DoSoftDelete(id: Id, now: int, f: Faults)
    | DoHardDelete(id: Id, createFails: bool, deleteFails: bool)
    | DoSearch(createFails: bool, page: set<Id>, f: Faults, top: set<Id>, now: int)
    | DoGet(id: Id, now: int)
    | DoReindex(createFails: bool, passes: seq<Pass>)
    | DoRestart(model: Option<Model>)

  /** The stored state, the running process's model, and what never changes. */
  datatype World = World(cell: Cell, env: Env)

  ghost predicate Invariant(w: World) {
    ValidEnv(w.env) && Agrees(w.cell, w.env)
  }

  ghost function Step(w: World, op: Op): World
    requires Invariant(w)
  {
    match op
    case DoUpsert(edit, newId, now, f) => w.(cell := Upsert(w.cell, w.env, edit, newId, now, f).0)
    case DoSoftDelete(id, now, f) => w.(cell := SoftDelete(w.cell, w.env, id, now, f))
    case DoHardDelete(id, createFails, deleteFails) =>
      w.(cell := HardDelete(w.cell, w.env, id, createFails, deleteFails).0)
    case DoSearch(createFails, page, f, top, now) =>
      w.(cell := SearchEffect(w.cell, w.env, createFails, page, f, top, now))
    case DoGet(id, now) => w.(cell := w.cell.(rows := Touch(w.cell.rows, {id}, now)))
    case DoReindex(createFails, passes) => w.(cell := Reindex(w.cell, w.env, createFails, passes).0)
    case DoRestart(model) => World(w.cell.(ready := false), w.env.(model := model))
  }

  /**
   The operation is one the code can make, and its faults spare what the index vouches for: table
   replacement is all or nothing, and a write that stops half-way touched only unstamped rows.
   Provider failures are unrestricted.
   */
  ghost predicate Clean(w: World, op: Op)
    requires Invariant(w)
  {
    match op
    case DoUpsert(edit, newId, now, f) =>
      newId !in w.cell.rows && EditIsClean(w.cell, w.env, UpsertId(w.cell.rows, edit, newId), f)
    case DoSoftDelete(id, now, f) => EditIsClean(w.cell, w.env, id, f)
    case DoHardDelete(id, createFails, deleteFails) => EnsureIsClean(w.cell, w.env, createFails)
    case DoSearch(createFails, page, f, top, now) => SearchIsClean(w.cell, w.env, createFails, page, f)
    case DoGet(id, now) => true
    case DoReindex(createFails, passes) =>
      w.env.model.Some? ==>
        && EnsureIsClean(w.cell, w.env, createFails)
        && var (ensured, ok) := EnsureVectors(w.cell, w.env, createFails);
           ok ==> LoopLegal(Repairs(w.env), Cleared(ensured), w.env.model.value, passes)
    case DoRestart(model) => model.Some? ==> model.value.dimensions > 0
  }

  lemma UpsertKeepsAgreement(cell: Cell, env: Env, edit: Edit, newId: Id, now: int, f: Faults)
    requires ValidEnv(env) && Agrees(cell, env) && newId !in cell.rows
    requires EditIsClean(cell, env, UpsertId(cell.rows, edit, newId), f)
    ensures Agrees(Upsert(cell, env, edit, newId, now, f).0, env)
  {
    if Upsert(cell, env, edit, newId, now, f).1.Saved? {
      var target := UpsertTarget(cell.rows, edit);
      var id := UpsertId(cell.rows, edit, newId);
      var row := EditedRow(if target.Some? then Some(cell.rows[id]) else None, edit, now);
      WriteUnstamped(cell, env, id, row);
      IndexOneKeepsAgreement(cell.(rows := cell.rows[id := row]), env, id, f);
    }
  }

  lemma StepKeepsInvariant(w: World, op: Op)
    requires Invariant(w) && Clean(w, op)
    ensures Invariant(Step(w, op))
  {
    match op
    case DoUpsert(edit, newId, now, f) => UpsertKeepsAgreement(w.cell, w.env, edit, newId, now, f);
    case DoSoftDelete(id, now, f) => SoftDeleteKeepsAgreement(w.cell, w.env, id, now, f);
    case DoHardDelete(id, createFails, deleteFails) =>
      HardDeleteKeepsAgreement(w.cell, w.env, id, createFails, deleteFails);
    case DoSearch(createFails, page, f, top, now) =>
      SearchKeepsAgreement(w.cell, w.env, createFails, page, f, top, now);
    case DoGet(id, now) => TouchKeepsAgreement(w.cell, w.env, {id}, now);
    case DoReindex(createFails, passes) =>
      if w.env.model.Some? {
        ReindexComplete(w.cell, w.env, createFails, passes);
      }
    case DoRestart(model) => RestartKeepsAgreement(w.cell, w.env, model);
  }

  lemma RestartKeepsAgreement(cell: Cell, env: Env, model: Option<Model>)
    requires Agrees(cell, env)
    ensures Agrees(cell.(ready := false), env.(model := model))
  {
    forall id | id in cell.rows ensures RowAgrees(cell.(ready := false), env.(model := model), id) {
      assert RowAgrees(cell, env, id);
    }
  }

  ghost predicate CleanRun(w: World, ops: seq<Op>)
    requires Invariant(w)
    decreases |ops|
  {
    ops == [] || (Clean(w, ops[0]) && (StepKeepsInvariant(w, ops[0]); CleanRun(Step(w, ops[0]), ops[1..])))
  }

  ghost function Run(w: World, ops: seq<Op>): World
    requires Invariant(w) && CleanRun(w, ops)
    decreases |ops|
  {
    if ops == [] then w else (StepKeepsInvariant(w, ops[0]); Run(Step(w, ops[0]), ops[1..]))
  }

  /**
   After every clean run from an empty cell, over any sequence of models, a memory stamped with a
   model is indexed under that model's vector of its current text, with its current status and
   category, for the cell's own user.
   */
  lemma EveryRunKeepsAgreement(env: Env, ops: seq<Op>)
    requires ValidEnv(env)
    requires Invariant(World(Cell(map[], NoTable, false), env)) &&
      CleanRun(World(Cell(map[], NoTable, false), env), ops)
    ensures var end := Run(World(Cell(map[], NoTable, false), env), ops);
      forall id :: id in end.cell.rows && end.cell.rows[id].embeddedModel.Some? ==>
        var row := end.cell.rows[id];
        && end.cell.table.Table? && id in end.cell.table.rows
        && end.cell.table.rows[id].vector == env.vectorOf(row.embeddedModel.value, row.content)
        && end.cell.table.rows[id].payload == PayloadFor(env.userId, row)
  {
    RunKeeps(World(Cell(map[], NoTable, false), env), ops);
    var end := Run(World(Cell(map[], NoTable, false), env), ops);
    forall id | id in end.cell.rows ensures RowAgrees(end.cell, end.env, id) {
    }
  }

  lemma {:induction false} RunKeeps(w: World, ops: seq<Op>)
    requires Invariant(w) && CleanRun(w, ops)
    ensures Invariant(Run(w, ops))
    ensures Run(w, ops).env.(model := w.env.model) == w.env
    decreases |ops|
  {
    if ops != [] {
      StepKeepsInvariant(w, ops[0]);
      RunKeeps(Step(w, ops[0]), ops[1..]);
    }
  }

  // ------------------------------------------------------------ what the faults can do

  /** One memory "a", embedded by a two-dimensional model, as a finished upsert leaves it. */
  function Sample(model: Model, env: Env, content: Content): Cell
    requires model.dimensions > 0
  {
    var row := Row(content, Active, Some(model), 0, 0, None, None);
    var schema := Schema(model.dimensions, Some(LocalChunkSize(model.dimensions)));
    Cell(map["a" := row], Table(schema, map["a" := Entry(env, model, row)]), true)
  }

  /**
   After a restart with another model of the same size, a search whose repair loses the row it was
   replacing leaves memory "a" stamped by the first model and absent from the index.
   */
  lemma InterruptedRepairLosesVector(env: Env, content: Content)
    requires env.model == Some(Model("openai", "new", 2))
    ensures var before := Sample(Model("openai", "old", 2), env, content).(ready := false);
      && Invariant(World(before, env))
      && !Agrees(SearchEffect(before, env, false, {"a"}, Faults(false, false, Stopped({}, {"a"})), {}, 1), env)
  {
    var before := Sample(Model("openai", "old", 2), env, content).(ready := false);
    assert RowAgrees(before, env, "a");
    var after := SearchEffect(before, env, false, {"a"}, Faults(false, false, Stopped({}, {"a"})), {}, 1);
    var ensured := EnsureVectors(before, env, false).0;
    assert ensured == before.(ready := true);
    assert Chosen(ensured.rows, {"a"}) == ensured.rows;
    assert "a" in after.rows && after.rows["a"].embeddedModel.Some? && "a" !in after.table.rows;
    assert !RowAgrees(after, env, "a");
  }

  /**
   A table dropped for a model of another size and not recreated is never reported as recreated:
   the retry succeeds, and the memory keeps a stamp for a vector that is gone.
   */
  lemma FailedRecreationIsForgotten(env: Env, content: Content)
    requires env.model == Some(Model("openai", "new", 3))
    ensures var before := Sample(Model("openai", "old", 2), env, content).(ready := false);
      var (dropped, ok) := EnsureVectors(before, env, true);
      && Invariant(World(before, env)) && !ok
      && EnsureVectors(dropped, env, false).1 && !Agrees(EnsureVectors(dropped, env, false).0, env)
  {
    var before := Sample(Model("openai", "old", 2), env, content).(ready := false);
    assert RowAgrees(before, env, "a");
    var after := EnsureVectors(EnsureVectors(before, env, true).0, env, false).0;
    assert after.table.rows == map[] && after.rows["a"].embeddedModel.Some?;
    assert !RowAgrees(after, env, "a");
  }
}
