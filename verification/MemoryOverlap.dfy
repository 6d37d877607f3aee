/**
 Indexing passes that overlap with edits, reindexes and restarts (src/cells/memory-cell.ts:157-168, 215-261): a
 pass reads its rows, waits for the provider, and then writes what it read; other operations run in between.
 */
module MemoryOverlap {
  import opened Lists
  import opened VectorStore
  import opened MemoryIndex

  /** The cell, the model of the running process, and the rows each of its passes under way has read. */
  datatype Overlap = Overlap(cell: Cell, model: Model, flying: map<nat, map<Id, Row>>)

  /**
   `Begin`: rows are read and handed to `indexMemories`. `Write`: an upsert or a soft delete leaves an unstamped
   row. `Remove`, `DropVector`: a hard delete takes the row, and then its vector. `Land`: vectors are written and
   rows stamped. `Abandon`: the provider failed. `Reindex`: all stamps are cleared. `Restart`: the process is
   replaced by one with this model, which ensures its table; passes under way are lost.
   */
  datatype Step =
    | Begin(pass: nat, ids: set<Id>)
    | Write(id: Id, row: Row)
    | Remove(id: Id)
    | DropVector(id: Id)
    | Land(pass: nat)
    | Abandon(pass: nat)
    | Reindex
    | Restart(model: Model)

  function Unstamped(row: Row): Row {
    row.(embeddedModel := None)
  }

  /** One step, in a process that has ensured its table. */
  function Next(s: Overlap, env: Env, step: Step): (t: Overlap)
    requires s.cell.table.Table?
    ensures t.cell.table.Table?
  {
    match step
    case Begin(pass, ids) => s.(flying := s.flying[pass := map id | id in ids && id in s.cell.rows :: s.cell.rows[id]])
    case Write(id, row) => s.(cell := s.cell.(rows := s.cell.rows[id := Unstamped(row)]))
    case Remove(id) => s.(cell := s.cell.(rows := s.cell.rows - {id}))
    case DropVector(id) =>
      if id in s.cell.rows then s
      else s.(cell := s.cell.(table := s.cell.table.(rows := s.cell.table.rows - {id})))
    case Land(pass) =>
      if pass !in s.flying then s
      else Overlap(Finish(s.cell, env, s.model, s.flying[pass], Complete).0, s.model, s.flying - {pass})
    case Abandon(pass) => s.(flying := s.flying - {pass})
    case Reindex => s.(cell := s.cell.(rows := ClearStamps(s.cell.rows)))
    case Restart(model) =>
      if model.dimensions == 0 then s
      else Overlap(EnsureVectors(s.cell.(ready := false), env.(model := Some(model)), false).0, model, map[])
  }

  /** A pass lands on a row that is no longer indexed as it was read. */
  ghost predicate Late(s: Overlap, env: Env, step: Step) {
    step.Land? && step.pass in s.flying
    && var batch := s.flying[step.pass];
       exists id :: id in batch && id in s.cell.rows &&
         Entry(env, s.model, batch[id]) != Entry(env, s.model, s.cell.rows[id])
  }

  /** Whether stamps are truthful does not depend on the process's model. */
  lemma SameAgreement(cell: Cell, env: Env, model: Option<Model>)
    ensures Agrees(cell, env) <==> Agrees(cell, env.(model := model))
  {
    forall id | id in cell.rows ensures RowAgrees(cell, env, id) <==> RowAgrees(cell, env.(model := model), id) {
    }
  }

  /** A step keeps every stamp truthful if and only if it is no late landing. */
  lemma StepKeepsAgreementIff(s: Overlap, env: Env, step: Step)
    requires s.cell.table.Table? && Agrees(s.cell, env)
    ensures Agrees(Next(s, env, step).cell, env) <==> !Late(s, env, step)
  {
    var t := Next(s, env, step);
    match step
    case Land(pass) =>
      if pass in s.flying {
        LateFinishKeepsAgreementIff(s.cell, env, s.model, s.flying[pass]);
      }
    case Restart(model) =>
      if model.dimensions > 0 {
        EnsureKeepsAgreementIff(s.cell.(ready := false), env.(model := Some(model)), false);
        SameAgreement(t.cell, env, Some(model));
      }
    case _ =>
      forall id | id in t.cell.rows ensures RowAgrees(t.cell, env, id) {
        if id in s.cell.rows { assert RowAgrees(s.cell, env, id); }
      }
  }

  function Run(s: Overlap, env: Env, steps: seq<Step>): (t: Overlap)
    requires s.cell.table.Table?
    ensures t.cell.table.Table?
    decreases |steps|
  {
    if steps == [] then s else Run(Next(s, env, steps[0]), env, steps[1..])
  }

  /** What a pass under way has read is what the rows still say, where they exist. */
  ghost predicate ReadsHold(s: Overlap) {
    forall pass, id :: pass in s.flying && id in s.flying[pass] && id in s.cell.rows ==>
      s.flying[pass][id].content == s.cell.rows[id].content && s.flying[pass][id].status == s.cell.rows[id].status
  }

  /** The step writes a row that a pass under way has read. */
  predicate Disturbs(s: Overlap, step: Step) {
    step.Write? && exists pass :: pass in s.flying && step.id in s.flying[pass]
  }

  ghost predicate Undisturbed(s: Overlap, env: Env, steps: seq<Step>)
    requires s.cell.table.Table?
    decreases |steps|
  {
    steps == [] ||
    (!Disturbs(s, steps[0]) && Undisturbed(Next(s, env, steps[0]), env, steps[1..]))
  }

  lemma StepKeepsReads(s: Overlap, env: Env, step: Step)
    requires s.cell.table.Table? && ReadsHold(s) && !Disturbs(s, step)
    ensures ReadsHold(Next(s, env, step))
  {
  }

  lemma HoldingReadsAreNotLate(s: Overlap, env: Env, step: Step)
    requires ReadsHold(s)
    ensures !Late(s, env, step)
  {
    if step.Land? && step.pass in s.flying {
      var batch := s.flying[step.pass];
      forall id | id in batch && id in s.cell.rows
        ensures Entry(env, s.model, batch[id]) == Entry(env, s.model, s.cell.rows[id])
      {
        SameEntry(env, s.model, batch[id], s.cell.rows[id]);
      }
    }
  }

  /**
   Passes, edits and deletes may overlap in any way: as long as no row is written while a pass that has read it
   is under way, every stamp stays truthful.
   */
  lemma {:induction false} UndisturbedRunKeepsAgreement(s: Overlap, env: Env, steps: seq<Step>)
    requires s.cell.table.Table? && Agrees(s.cell, env) && ReadsHold(s) && Undisturbed(s, env, steps)
    ensures Agrees(Run(s, env, steps).cell, env)
    decreases |steps|
  {
    if steps != [] {
      HoldingReadsAreNotLate(s, env, steps[0]);
      StepKeepsAgreementIff(s, env, steps[0]);
      StepKeepsReads(s, env, steps[0]);
      UndisturbedRunKeepsAgreement(Next(s, env, steps[0]), env, steps[1..]);
    }
  }

  function Fresh(content: Content): Row {
    Row(content, Active, None, 0, 0, None, None)
  }

  /** Two upserts of one memory: the first one's pass comes back after the second one's. */
  function TwoUpserts(edited: Content): seq<Step> {
    [Begin(0, {"a"}), Write("a", Fresh(edited)), Begin(1, {"a"}), Land(1), Land(0)]
  }

  function EmptyTable(model: Model): Table
    requires model.dimensions > 0
  {
    Table(Schema(model.dimensions, Some(LocalChunkSize(model.dimensions))), map[])
  }

  /** The memory then says the edited text, and its stamp vouches for the vector of the old one. */
  lemma LatePassOverwritesEdit(env: Env, model: Model, content: Content, edited: Content)
    requires model.dimensions > 0 && env.vectorOf(model, content) != env.vectorOf(model, edited)
    ensures var start := Overlap(Cell(map["a" := Fresh(content)], EmptyTable(model), true), model, map[]);
            var end := Run(start, env, TwoUpserts(edited)).cell;
            && Agrees(start.cell, env)
            && end.rows == map["a" := Fresh(edited).(embeddedModel := Some(model))]
            && "a" in end.table.rows && end.table.rows["a"] == Entry(env, model, Fresh(content))
            && !Agrees(end, env)
  {
    var s0 := Overlap(Cell(map["a" := Fresh(content)], EmptyTable(model), true), model, map[]);
    var s2 := ReadThenWritten(s0, env, content, edited);
    var s4 := SecondLands(s2, env, content, edited);
    FirstLands(s4, env, content, edited);
    FiveSteps(s0, env, TwoUpserts(edited));
  }

  lemma FiveSteps(s: Overlap, env: Env, steps: seq<Step>)
    requires |steps| == 5 && s.cell.table.Table?
    ensures var s2 := Next(Next(s, env, steps[0]), env, steps[1]);
      Run(s, env, steps) == Next(Next(Next(s2, env, steps[2]), env, steps[3]), env, steps[4])
  {
    var s2 := Next(Next(s, env, steps[0]), env, steps[1]);
    RunTwo(s, env, steps);
    RunTwo(s2, env, steps[2..]);
    assert steps[2..][2..] == [steps[4]] && [steps[4]][1..] == [];
  }

  lemma RunTwo(s: Overlap, env: Env, steps: seq<Step>)
    requires |steps| >= 2 && s.cell.table.Table?
    ensures Run(s, env, steps) == Run(Next(Next(s, env, steps[0]), env, steps[1]), env, steps[2..])
  {
    assert steps[1..][1..] == steps[2..];
  }

  lemma ReadThenWritten(s: Overlap, env: Env, content: Content, edited: Content) returns (t: Overlap)
    requires s.cell.table.Table? && s.cell.rows == map["a" := Fresh(content)] && s.flying == map[]
    ensures t == Next(Next(s, env, Begin(0, {"a"})), env, Write("a", Fresh(edited))) && t.model == s.model
    ensures t.cell == s.cell.(rows := map["a" := Fresh(edited)]) && t.flying == map[0 := map["a" := Fresh(content)]]
  {
    var r := Next(s, env, Begin(0, {"a"}));
    assert r.flying[0] == map["a" := Fresh(content)];
    t := Next(r, env, Write("a", Fresh(edited)));
    assert t.cell.rows == map["a" := Fresh(edited)];
  }

  lemma SecondLands(s: Overlap, env: Env, content: Content, edited: Content) returns (t: Overlap)
    requires s.cell.table.Table? && s.cell.rows == map["a" := Fresh(edited)]
    requires s.flying == map[0 := map["a" := Fresh(content)]]
    ensures t == Next(Next(s, env, Begin(1, {"a"})), env, Land(1)) && t.model == s.model
    ensures t.cell.rows == map["a" := Fresh(edited).(embeddedModel := Some(s.model))] && t.flying == s.flying
  {
    var r := Next(s, env, Begin(1, {"a"}));
    assert r.flying[1] == map["a" := Fresh(edited)];
    t := Next(r, env, Land(1));
    assert t.flying == s.flying;
    StampsOne(Fresh(edited), s.model);
  }

  lemma StampsOne(row: Row, model: Model)
    ensures StampAll(map["a" := row], {"a"}, model) == map["a" := row.(embeddedModel := Some(model))]
  {
  }

  lemma FirstLands(s: Overlap, env: Env, content: Content, edited: Content)
    requires s.cell.table.Table? && s.cell.rows == map["a" := Fresh(edited).(embeddedModel := Some(s.model))]
    requires s.flying == map[0 := map["a" := Fresh(content)]]
    requires env.vectorOf(s.model, content) != env.vectorOf(s.model, edited)
    ensures var end := Next(s, env, Land(0)).cell;
      && end.rows == s.cell.rows && !Agrees(end, env)
      && "a" in end.table.rows && end.table.rows["a"] == Entry(env, s.model, Fresh(content))
  {
    var end := Next(s, env, Land(0)).cell;
    assert end.rows == s.cell.rows;
    assert !RowAgrees(end, env, "a");
  }
}
