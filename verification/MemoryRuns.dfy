/**
 The memory cell's public operations on values, and the invariants of every run of them
 (src/cells/memory-cell.ts:233-426).
 */
module MemoryRuns {
  import opened Lists
  import opened VectorStore
  import opened MemoryIndex

  const LAZY_REINDEX_BATCH := 32

  // ------------------------------------------------------------- repair and reindex

  /** What `ORDER BY updated_at DESC LIMIT limit` over the stale rows selects. */
  ghost predicate IsStalePage(rows: map<Id, Row>, model: Model, limit: nat, page: set<Id>) {
    var stale := StaleIds(rows, model);
    && page <= stale
    && |page| == (if |stale| < limit then |stale| else limit)
    && forall p, q :: p in page && q in stale - page ==> rows[p].updatedAt >= rows[q].updatedAt
  }

  function Chosen(rows: map<Id, Row>, page: set<Id>): map<Id, Row> {
    map id | id in page && id in rows :: rows[id]
  }

  /** `repairStaleVectors`: how many rows were repaired, `None` for a throw. */
  function Repair(cell: Cell, env: Env, page: set<Id>, f: Faults): (r: (Cell, Option<nat>))
    requires ValidEnv(env) && (cell.ready ==> cell.table.Table?)
    ensures r.0.ready ==> r.0.table.Table?
  {
    if env.model.None? then (cell, Some(0))
    else
      var (after, ok) := IndexMemories(cell, env, Chosen(cell.rows, page), f);
      (after, if ok then Some(|page|) else None)
  }

  lemma StampedStale(rows: map<Id, Row>, page: set<Id>, model: Model)
    requires page <= StaleIds(rows, model)
    ensures StaleIds(StampAll(rows, page, model), model) == StaleIds(rows, model) - page
    ensures |StaleIds(rows, model) - page| == |StaleIds(rows, model)| - |page|
  {
    assert StaleIds(rows, model) == page + (StaleIds(rows, model) - page);
  }

  lemma RepairStamps(cell: Cell, env: Env, page: set<Id>, f: Faults)
    requires ValidEnv(env) && (cell.ready ==> cell.table.Table?)
    requires env.model.Some? && cell.ready && page <= cell.rows.Keys
    requires Repair(cell, env, page, f).1.Some?
    ensures Repair(cell, env, page, f).0.rows == StampAll(cell.rows, page, env.model.value)
    ensures Repair(cell, env, page, f) == (Repair(cell, env, page, f).0, Some(|page|))
    ensures Repair(cell, env, page, f).0.ready
  {
    assert Chosen(cell.rows, page).Keys == page;
    if page == {} {
      assert Chosen(cell.rows, page) == map[];
      assert StampAll(cell.rows, page, env.model.value) == cell.rows;
    } else {
      assert Chosen(cell.rows, page) != map[];
    }
  }

  /** A clean repair of a page makes exactly the page's rows fresh. */
  lemma RepairFreshensPage(cell: Cell, env: Env, page: set<Id>, f: Faults)
    requires ValidEnv(env) && (cell.ready ==> cell.table.Table?)
    requires env.model.Some? && cell.ready && page <= StaleIds(cell.rows, env.model.value)
    requires Repair(cell, env, page, f).1.Some?
    ensures StaleIds(Repair(cell, env, page, f).0.rows, env.model.value) == StaleIds(cell.rows, env.model.value) - page
    ensures |StaleIds(Repair(cell, env, page, f).0.rows, env.model.value)| ==
      |StaleIds(cell.rows, env.model.value)| - |page|
  {
    RepairStamps(cell, env, page, f);
    StampedStale(cell.rows, page, env.model.value);
  }

  lemma RepairKeepsAgreement(cell: Cell, env: Env, page: set<Id>, f: Faults)
    requires ValidEnv(env) && Agrees(cell, env)
    requires env.model.Some? ==> PassIsClean(cell, env, Chosen(cell.rows, page), f)
    ensures Agrees(Repair(cell, env, page, f).0, env)
    ensures SameContents(cell.rows, Repair(cell, env, page, f).0.rows)
  {
    if env.model.Some? {
      IndexKeepsAgreement(cell, env, Chosen(cell.rows, page), f);
      IndexKeepsContents(cell, env, Chosen(cell.rows, page), f);
    }
  }

  datatype Pass = Pass(page: set<Id>, f: Faults)

  /** What a pass does to the cell, and how many rows it repaired, `None` for a throw. */
  type Repairer = (Cell, Pass) -> (Cell, Option<nat>)

  function Repairs(env: Env): Repairer
    requires ValidEnv(env)
  {
    (cell: Cell, pass: Pass) =>
      if cell.ready && !cell.table.Table? then (cell, None) else Repair(cell, env, pass.page, pass.f)
  }

  /** `memoryReindex`'s loop: the total so far and the passes it will make. */
  function ReindexLoop(repair: Repairer, cell: Cell, passes: seq<Pass>, total: nat): (Cell, Option<nat>)
    decreases |passes|
  {
    if passes == [] then (cell, None)
    else
      var (after, repaired) := repair(cell, passes[0]);
      match repaired
      case None => (after, None)
      case Some(n) =>
        if n < LAZY_REINDEX_BATCH then (after, Some(total + n)) else ReindexLoop(repair, after, passes[1..], total + n)
  }

  /** The pass is one the loop can make: its page is what the query selects at that moment. */
  ghost predicate PassLegal(cell: Cell, model: Model, pass: Pass) {
    IsStalePage(cell.rows, model, LAZY_REINDEX_BATCH, pass.page) && StopFits(pass.f.stop, Chosen(cell.rows, pass.page))
  }

  /** The passes are the ones the loop makes. */
  ghost predicate LoopLegal(repair: Repairer, cell: Cell, model: Model, passes: seq<Pass>)
    decreases |passes|
  {
    && passes != []
    && PassLegal(cell, model, passes[0])
    && var (after, repaired) := repair(cell, passes[0]);
       (repaired.Some? && repaired.value >= LAZY_REINDEX_BATCH ==> LoopLegal(repair, after, model, passes[1..]))
  }

  function Reindex(cell: Cell, env: Env, createFails: bool, passes: seq<Pass>): (Cell, Option<nat>)
    requires ValidEnv(env) && (cell.ready ==> cell.table.Table?)
  {
    if env.model.None? then (cell, Some(0))
    else
      var (ensured, ok) := EnsureVectors(cell, env, createFails);
      if !ok then (ensured, None) else ReindexLoop(Repairs(env), Cleared(ensured), passes, 0)
  }

  /** Every stale row is unstamped: where `memoryReindex` starts from, and stays. */
  ghost predicate OnlyOwnStamps(rows: map<Id, Row>, model: Model) {
    forall id :: id in rows ==> rows[id].embeddedModel.None? || rows[id].embeddedModel == Some(model)
  }

  /** One pass of the loop, as far as the index goes: its rows are unstamped, so no fault can hurt. */
  lemma PassKeepsAgreement(cell: Cell, env: Env, page: set<Id>, f: Faults)
    requires ValidEnv(env) && env.model.Some? && Agrees(cell, env) && cell.ready
    requires OnlyOwnStamps(cell.rows, env.model.value)
    requires page <= StaleIds(cell.rows, env.model.value) && StopFits(f.stop, Chosen(cell.rows, page))
    ensures Agrees(Repair(cell, env, page, f).0, env)
    ensures SameContents(cell.rows, Repair(cell, env, page, f).0.rows)
    ensures Repair(cell, env, page, f).1.Some? ==>
      Repair(cell, env, page, f).0.ready && OnlyOwnStamps(Repair(cell, env, page, f).0.rows, env.model.value)
  {
    assert PassIsClean(cell, env, Chosen(cell.rows, page), f);
    RepairKeepsAgreement(cell, env, page, f);
    if Repair(cell, env, page, f).1.Some? {
      RepairStamps(cell, env, page, f);
    }
  }

  /** A cell in the middle of a reindex. */
  ghost predicate Reindexing(cell: Cell, env: Env, model: Model) {
    Agrees(cell, env) && cell.ready && OnlyOwnStamps(cell.rows, model)
  }

  ghost predicate KeepsAgreement(repair: Repairer, env: Env, model: Model) {
    forall cell: Cell, pass: Pass :: Reindexing(cell, env, model) && PassLegal(cell, model, pass) ==>
      var (after, repaired) := repair(cell, pass);
      && Agrees(after, env) && SameContents(cell.rows, after.rows)
      && (repaired.Some? ==> Reindexing(after, env, model))
  }

  lemma RepairsKeepAgreement(env: Env)
    requires ValidEnv(env) && env.model.Some?
    ensures KeepsAgreement(Repairs(env), env, env.model.value)
  {
    forall cell: Cell, pass: Pass | Reindexing(cell, env, env.model.value) && PassLegal(cell, env.model.value, pass)
      ensures var (after, repaired) := Repairs(env)(cell, pass);
        && Agrees(after, env) && SameContents(cell.rows, after.rows)
        && (repaired.Some? ==> Reindexing(after, env, env.model.value))
    {
      PassKeepsAgreement(cell, env, pass.page, pass.f);
    }
  }

  lemma {:induction false} ReindexLoopAgrees(
    repair: Repairer, cell: Cell, env: Env, model: Model, passes: seq<Pass>, total: nat)
    requires KeepsAgreement(repair, env, model) && Reindexing(cell, env, model)
    requires LoopLegal(repair, cell, model, passes)
    ensures Agrees(ReindexLoop(repair, cell, passes, total).0, env)
    ensures SameContents(cell.rows, ReindexLoop(repair, cell, passes, total).0.rows)
    decreases |passes|
  {
    var (after, repaired) := repair(cell, passes[0]);
    if repaired.Some? && repaired.value >= LAZY_REINDEX_BATCH {
      var n := total + repaired.value;
      ReindexLoopAgrees(repair, after, env, model, passes[1..], n);
      SameContentsTransitive(cell.rows, after.rows, ReindexLoop(repair, after, passes[1..], n).0.rows);
    }
  }

  /** A pass that does not throw reports the size of its page and takes it off the stale rows. */
  ghost predicate CountsDown(repair: Repairer, model: Model) {
    forall cell: Cell, pass: Pass :: cell.ready && cell.table.Table? && PassLegal(cell, model, pass) ==>
      var (after, repaired) := repair(cell, pass);
      repaired.Some? ==>
        && repaired.value == |pass.page| && after.ready && after.table.Table?
        && |StaleIds(cell.rows, model)| == |pass.page| + |StaleIds(after.rows, model)|
  }

  lemma RepairsCountDown(env: Env)
    requires ValidEnv(env) && env.model.Some?
    ensures CountsDown(Repairs(env), env.model.value)
  {
    var model := env.model.value;
    forall cell: Cell, pass: Pass | cell.ready && cell.table.Table? && PassLegal(cell, model, pass)
      ensures var (after, repaired) := Repairs(env)(cell, pass);
        repaired.Some? ==>
          && repaired.value == |pass.page| && after.ready && after.table.Table?
          && |StaleIds(cell.rows, model)| == |pass.page| + |StaleIds(after.rows, model)|
    {
      if Repair(cell, env, pass.page, pass.f).1.Some? {
        RepairStamps(cell, env, pass.page, pass.f);
        RepairFreshensPage(cell, env, pass.page, pass.f);
      }
    }
  }

  lemma {:induction false} ReindexLoopCounts(
    repair: Repairer, cell: Cell, model: Model, passes: seq<Pass>, total: nat)
    requires CountsDown(repair, model) && cell.ready && cell.table.Table? && LoopLegal(repair, cell, model, passes)
    requires ReindexLoop(repair, cell, passes, total).1.Some?
    ensures ReindexLoop(repair, cell, passes, total).1.value == total + |StaleIds(cell.rows, model)|
    ensures StaleIds(ReindexLoop(repair, cell, passes, total).0.rows, model) == {}
    decreases |passes|
  {
    var (after, repaired) := repair(cell, passes[0]);
    assert PassLegal(cell, model, passes[0]);
    if repaired.value >= LAZY_REINDEX_BATCH {
      ReindexLoopCounts(repair, after, model, passes[1..], total + repaired.value);
    }
  }

  /** Where `memoryReindex` starts its loop. */
  function Cleared(cell: Cell): Cell {
    cell.(rows := ClearStamps(cell.rows))
  }

  lemma ClearingKeepsAgreement(cell: Cell, env: Env, model: Model)
    requires Agrees(cell, env)
    ensures Agrees(Cleared(cell), env) && SameContents(cell.rows, Cleared(cell).rows)
    ensures OnlyOwnStamps(Cleared(cell).rows, model)
    ensures StaleIds(Cleared(cell).rows, model) == cell.rows.Keys
  {
  }

  /**
   A reindex keeps every stamp truthful whatever fails on the way, and when it reports a total, that
   total is the number of memories and every one of them is embedded by the current model.
   */
  lemma ReindexComplete(cell: Cell, env: Env, createFails: bool, passes: seq<Pass>)
    requires ValidEnv(env) && env.model.Some? && Agrees(cell, env)
    requires EnsureIsClean(cell, env, createFails)
    requires EnsureVectors(cell, env, createFails).1 ==>
      LoopLegal(Repairs(env), Cleared(EnsureVectors(cell, env, createFails).0), env.model.value, passes)
    ensures Agrees(Reindex(cell, env, createFails, passes).0, env)
    ensures SameContents(cell.rows, Reindex(cell, env, createFails, passes).0.rows)
    ensures var (after, counted) := Reindex(cell, env, createFails, passes);
      counted.Some? ==>
        counted.value == |cell.rows| && forall id :: id in after.rows ==> after.rows[id].embeddedModel == env.model
  {
    EnsureKeepsAgreementIff(cell, env, createFails);
    EnsureKeepsContents(cell, env, createFails);
    var (ensured, ok) := EnsureVectors(cell, env, createFails);
    if ok {
      LoopComplete(ensured, env, passes);
      SameContentsTransitive(cell.rows, ensured.rows, ReindexLoop(Repairs(env), Cleared(ensured), passes, 0).0.rows);
      assert |cell.rows.Keys| == |ensured.rows.Keys|;
    }
  }

  /** The loop of a reindex, from the ensured table on. */
  lemma LoopComplete(cell: Cell, env: Env, passes: seq<Pass>)
    requires ValidEnv(env) && env.model.Some? && Agrees(cell, env) && cell.ready
    requires LoopLegal(Repairs(env), Cleared(cell), env.model.value, passes)
    ensures LoopDone(Repairs(env), cell, env, env.model.value, passes)
  {
    RepairsKeepAgreement(env);
    RepairsCountDown(env);
    LoopIsDone(Repairs(env), cell, env, env.model.value, passes);
  }

  ghost predicate LoopDone(repair: Repairer, cell: Cell, env: Env, model: Model, passes: seq<Pass>) {
    var (after, counted) := ReindexLoop(repair, Cleared(cell), passes, 0);
    && Agrees(after, env) && SameContents(cell.rows, after.rows)
    && (counted.Some? ==>
          && counted.value == |cell.rows.Keys|
          && forall id :: id in after.rows ==> after.rows[id].embeddedModel == Some(model))
  }

  lemma LoopIsDone(repair: Repairer, cell: Cell, env: Env, model: Model, passes: seq<Pass>)
    requires KeepsAgreement(repair, env, model) && CountsDown(repair, model)
    requires Agrees(cell, env) && cell.ready && LoopLegal(repair, Cleared(cell), model, passes)
    ensures LoopDone(repair, cell, env, model, passes)
  {
    ClearingKeepsAgreement(cell, env, model);
    ReindexLoopAgrees(repair, Cleared(cell), env, model, passes, 0);
    var (after, counted) := ReindexLoop(repair, Cleared(cell), passes, 0);
    SameContentsTransitive(cell.rows, Cleared(cell).rows, after.rows);
    if counted.Some? {
      ReindexLoopCounts(repair, Cleared(cell), model, passes, 0);
      NoneStale(after.rows, model);
    }
  }

  lemma NoneStale(rows: map<Id, Row>, model: Model)
    requires StaleIds(rows, model) == {}
    ensures forall id :: id in rows ==> rows[id].embeddedModel == Some(model)
  {
    forall id | id in rows ensures rows[id].embeddedModel == Some(model) {
      assert id !in StaleIds(rows, model);
    }
  }

  // ---------------------------------------------------------------- upsert and delete

  datatype Edit = Edit(id: Option<Id>, status: Option<Status>, content: Content)

  datatype UpsertResult = NotFound | Conflict(owner: Id) | Saved(created: bool, id: Id, deferred: bool)

  /** The UNIQUE index on `dedupe_key`. */
  ghost predicate DedupeUnique(rows: map<Id, Row>) {
    forall a, b ::
      a in rows && b in rows && rows[a].content.dedupeKey.Some? &&
        rows[a].content.dedupeKey == rows[b].content.dedupeKey
      ==> a == b
  }

  ghost predicate Owns(rows: map<Id, Row>, id: Id, key: Option<string>) {
    key.Some? && id in rows && rows[id].content.dedupeKey == key
  }

  ghost function OwnerOf(rows: map<Id, Row>, key: Option<string>): (owner: Option<Id>)
    ensures owner.Some? ==> Owns(rows, owner.value, key)
    ensures owner.None? ==> forall id :: !Owns(rows, id, key)
  {
    if id :| Owns(rows, id, key) then Some(id) else None
  }

  /** The row a write leaves behind, unstamped. */
  function EditedRow(existing: Option<Row>, edit: Edit, now: int): Row {
    var status := if edit.status.Some? then edit.status.value
                  else if existing.Some? && existing.value.status != Deleted then existing.value.status
                  else Active;
    match existing
    case None => Row(edit.content, status, None, now, now, None, None)
    case Some(prior) =>
      Row(edit.content, status, None, prior.createdAt, now, prior.lastAccessedAt,
          if status != Deleted then None else if prior.deletedAt.Some? then prior.deletedAt else Some(now))
  }

  ghost function UpsertTarget(rows: map<Id, Row>, edit: Edit): Option<Id> {
    if edit.id.Some? then (if edit.id.value in rows then edit.id else None) else OwnerOf(rows, edit.content.dedupeKey)
  }

  /** The id an upsert writes under, when it writes. */
  ghost function UpsertId(rows: map<Id, Row>, edit: Edit, newId: Id): Id {
    var target := UpsertTarget(rows, edit);
    if target.Some? then target.value else newId
  }

  /** Only table creation can hurt an edit of row `id`, since the row it writes starts unstamped. */
  predicate EditIsClean(cell: Cell, env: Env, id: Id, f: Faults) {
    EnsureIsClean(cell, env, f.createFails) && (f.stop.Stopped? ==> f.stop.done == {} && f.stop.lost <= {id})
  }

  /** `memoryUpsert`; `newId` is the fresh UUID for a creation. */
  ghost function Upsert(cell: Cell, env: Env, edit: Edit, newId: Id, now: int, f: Faults): (Cell, UpsertResult)
    requires ValidEnv(env) && (cell.ready ==> cell.table.Table?)
  {
    var target := UpsertTarget(cell.rows, edit);
    var owner := OwnerOf(cell.rows, edit.content.dedupeKey);
    if edit.id.Some? && target.None? then (cell, NotFound)
    else if owner.Some? && owner != target then (cell, Conflict(owner.value))
    else Save(cell, env, edit, target, newId, now, f)
  }

  /** The writing half of an upsert: over the target's row, or under the new id. */
  function Save(cell: Cell, env: Env, edit: Edit, target: Option<Id>, newId: Id, now: int,
                f: Faults): (Cell, UpsertResult)
    requires ValidEnv(env) && (cell.ready ==> cell.table.Table?)
    requires target.Some? ==> target.value in cell.rows
  {
    var id := if target.Some? then target.value else newId;
    var row := EditedRow(if target.Some? then Some(cell.rows[id]) else None, edit, now);
    var (after, ok) := IndexMemories(cell.(rows := cell.rows[id := row]), env, map[id := row], f);
    (after, Saved(target.None?, id, !ok))
  }

  /** Writing an unstamped row over any row keeps every stamp truthful. */
  lemma WriteUnstamped(cell: Cell, env: Env, id: Id, row: Row)
    requires Agrees(cell, env) && row.embeddedModel.None?
    ensures Agrees(cell.(rows := cell.rows[id := row]), env)
  {
    var after := cell.(rows := cell.rows[id := row]);
    forall k | k in after.rows ensures RowAgrees(after, env, k) {
      if k != id { assert RowAgrees(cell, env, k); }
    }
  }

  /** Indexing the one unstamped row just written is clean whatever fails, if `ensure` is. */
  lemma IndexOneKeepsAgreement(cell: Cell, env: Env, id: Id, f: Faults)
    requires ValidEnv(env) && Agrees(cell, env) && id in cell.rows && cell.rows[id].embeddedModel.None?
    requires EditIsClean(cell, env, id, f)
    ensures Agrees(IndexMemories(cell, env, map[id := cell.rows[id]], f).0, env)
    ensures SameContents(cell.rows, IndexMemories(cell, env, map[id := cell.rows[id]], f).0.rows)
  {
    var batch := map[id := cell.rows[id]];
    EnsureKeepsContents(cell, env, f.createFails);
    var ensured := EnsureVectors(cell, env, f.createFails).0;
    assert f.stop.Stopped? ==> forall k :: k in f.stop.done + f.stop.lost ==> k == id;
    assert ensured.rows[id].embeddedModel.None?;
    assert PassIsClean(cell, env, batch, f);
    IndexKeepsAgreement(cell, env, batch, f);
    IndexKeepsContents(cell, env, batch, f);
  }

  /**
   An upsert keeps the index truthful and dedupe keys unique, is refused exactly for an unknown id
   or a key that belongs to another memory, and otherwise stores the edited row and no other.
   */
  lemma UpsertEffect(cell: Cell, env: Env, edit: Edit, newId: Id, now: int, f: Faults)
    requires ValidEnv(env) && Agrees(cell, env) && DedupeUnique(cell.rows) && newId !in cell.rows
    requires EditIsClean(cell, env, UpsertId(cell.rows, edit, newId), f)
    ensures var (after, result) := Upsert(cell, env, edit, newId, now, f);
      && Agrees(after, env) && DedupeUnique(after.rows)
      && (result.NotFound? <==> edit.id.Some? && edit.id.value !in cell.rows)
      && (result.Conflict? <==>
            !result.NotFound? && edit.id.Some?
            && exists other :: other != edit.id.value && Owns(cell.rows, other, edit.content.dedupeKey))
      && (if result.Saved? then SavedEffect(cell, after, edit, newId, result) else after == cell)
  {
    var target := UpsertTarget(cell.rows, edit);
    var owner := OwnerOf(cell.rows, edit.content.dedupeKey);
    OwnerIsUnique(cell.rows, edit.content.dedupeKey);
    if !(edit.id.Some? && target.None?) && !(owner.Some? && owner != target) {
      SavingKeepsAgreement(cell, env, edit, target, newId, now, f);
    }
  }

  /** The saved row is the edited one, under the target's id or a new one, and no other memory changed. */
  ghost predicate SavedEffect(cell: Cell, after: Cell, edit: Edit, newId: Id, result: UpsertResult)
    requires result.Saved?
  {
    && after.rows.Keys == cell.rows.Keys + {result.id}
    && (result.created <==> result.id == newId)
    && after.rows[result.id].content == edit.content
    && SameContents(cell.rows - {result.id}, after.rows - {result.id})
  }

  lemma OwnerIsUnique(rows: map<Id, Row>, key: Option<string>)
    requires DedupeUnique(rows)
    ensures forall id :: Owns(rows, id, key) ==> OwnerOf(rows, key) == Some(id)
  {
  }

  lemma SavingKeepsAgreement(cell: Cell, env: Env, edit: Edit, target: Option<Id>, newId: Id, now: int, f: Faults)
    requires ValidEnv(env) && Agrees(cell, env) && DedupeUnique(cell.rows) && newId !in cell.rows
    requires target.Some? ==> target.value in cell.rows
    requires forall owner :: Owns(cell.rows, owner, edit.content.dedupeKey) ==> Some(owner) == target
    requires EditIsClean(cell, env, if target.Some? then target.value else newId, f)
    ensures var (after, result) := Save(cell, env, edit, target, newId, now, f);
      Agrees(after, env) && DedupeUnique(after.rows) && result.Saved? && SavedEffect(cell, after, edit, newId, result)
  {
    var id := if target.Some? then target.value else newId;
    var row := EditedRow(if target.Some? then Some(cell.rows[id]) else None, edit, now);
    var written := cell.(rows := cell.rows[id := row]);
    WriteUnstamped(cell, env, id, row);
    IndexOneKeepsAgreement(written, env, id, f);
    WriteKeepsDedupeUnique(cell.rows, id, row);
    var after := IndexMemories(written, env, map[id := row], f).0;
    SameContentsKeepsDedupeUnique(written.rows, after.rows);
    OnlyOneRowChanges(cell.rows, id, row, after.rows);
  }

  lemma OnlyOneRowChanges(rows: map<Id, Row>, id: Id, row: Row, after: map<Id, Row>)
    requires row.embeddedModel.None? && SameContents(rows[id := row], after)
    ensures after.Keys == rows.Keys + {id} && after[id].content == row.content
    ensures SameContents(rows - {id}, after - {id})
  {
    var written := rows[id := row];
    assert written.Keys == rows.Keys + {id};
    assert after[id].(embeddedModel := None) == written[id].(embeddedModel := None);
    forall k | k in rows && k != id ensures rows[k].(embeddedModel := None) == after[k].(embeddedModel := None) {
      assert written[k] == rows[k];
    }
  }

  lemma WriteKeepsDedupeUnique(rows: map<Id, Row>, id: Id, row: Row)
    requires DedupeUnique(rows)
    requires forall other :: Owns(rows, other, row.content.dedupeKey) ==> other == id
    ensures DedupeUnique(rows[id := row])
  {
    var after := rows[id := row];
    forall a, b | a in after && b in after && after[a].content.dedupeKey.Some?
      && after[a].content.dedupeKey == after[b].content.dedupeKey
      ensures a == b
    {
      if a == id && b != id { assert Owns(rows, b, row.content.dedupeKey); }
      if b == id && a != id { assert Owns(rows, a, row.content.dedupeKey); }
    }
  }

  lemma SameContentsKeepsDedupeUnique(a: map<Id, Row>, b: map<Id, Row>)
    requires DedupeUnique(a) && SameContents(a, b)
    ensures DedupeUnique(b)
  {
    assert forall id :: id in a ==> a[id].(embeddedModel := None).content == a[id].content == b[id].content;
  }
}
