/** The local vector table kept next to the memories (src/ai/vector-store.ts). */
module VectorStore {
  import opened Lists

  type Id = string

  datatype Status = Active | Archived | Deleted

  datatype Payload = Payload(userId: string, status: Status, category: string)

  datatype VectorRecord = VectorRecord(id: Id, vector: Vector, payload: Payload)

  datatype Stored = Stored(vector: Vector, payload: Payload)

  datatype Schema = Schema(dimensions: nat, chunkSize: Option<nat>)

  datatype Table = NoTable | Table(schema: Schema, rows: map<Id, Stored>)

  // ------------------------------------------------------------------ chunk size

  const LOCAL_CHUNK_BUDGET_BYTES := 1_048_576

  function LocalChunkSize(dimensions: nat): nat
    requires dimensions > 0
  {
    var fit := LOCAL_CHUNK_BUDGET_BYTES / (dimensions * 4);
    var capped := if 1024 < fit - fit % 8 then 1024 else fit - fit % 8;
    if capped < 8 then 8 else capped
  }

  lemma DivisionFits(budget: nat, unit: nat)
    requires unit > 0
    ensures budget / unit * unit <= budget < (budget / unit + 1) * unit
  {
  }

  lemma SmallerTimes(a: nat, b: nat, unit: nat)
    ensures a <= b ==> a * unit <= b * unit
  {
  }

  /**
   A chunk is a legal vec0 chunk, and its blob stays within the budget exactly up to 32768
   dimensions: past that the floor of 8 rows alone is over it.
   */
  lemma ChunkWithinBudget(dimensions: nat)
    requires dimensions > 0
    ensures LocalChunkSize(dimensions) % 8 == 0 && 8 <= LocalChunkSize(dimensions) <= 1024
    ensures LocalChunkSize(dimensions) * (dimensions * 4) <= LOCAL_CHUNK_BUDGET_BYTES <==> dimensions <= 32768
  {
    var unit := dimensions * 4;
    var fit := LOCAL_CHUNK_BUDGET_BYTES / unit;
    DivisionFits(LOCAL_CHUNK_BUDGET_BYTES, unit);
    if dimensions <= 32768 {
      SmallerTimes(fit + 1, 8, unit);
      SmallerTimes(LocalChunkSize(dimensions), fit, unit);
    } else {
      SmallerTimes(8, LocalChunkSize(dimensions), unit);
    }
  }

  // ---------------------------------------------------------------- table updates

  /** How `ensure` leaves the table, and whether it says `recreated`; `None` is a throw. */
  function EnsureTable(t: Table, dimensions: nat, createFails: bool): (Table, Option<bool>)
    requires dimensions > 0
  {
    var wanted := Schema(dimensions, Some(LocalChunkSize(dimensions)));
    if t.Table? && t.schema == wanted then (t, Some(false))
    else if createFails then (NoTable, None)
    else (Table(wanted, map[]), Some(t.Table?))
  }

  /** A write that was cut short: `written` records are in, and the next may have lost its old row. */
  datatype Cut = Cut(written: nat, deletedNext: bool)

  /** What a list of records says about each id, a later record overruling an earlier one. */
  function RecordMap(records: seq<VectorRecord>): map<Id, Stored> {
    if records == [] then map[]
    else
      var last := records[|records| - 1];
      RecordMap(records[..|records| - 1])[last.id := Stored(last.vector, last.payload)]
  }

  /** Deleting and inserting one more record. */
  lemma RecordMapLast(rows: map<Id, Stored>, records: seq<VectorRecord>, i: nat)
    requires i < |records|
    ensures rows + RecordMap(records[..i + 1]) ==
      (rows + RecordMap(records[..i]) - {records[i].id})[records[i].id := Stored(records[i].vector, records[i].payload)]
  {
    assert records[..i + 1][..i] == records[..i];
  }

  /** The id whose old row a cut removed without writing the new one. */
  function LostBy(records: seq<VectorRecord>, cut: Cut): set<Id>
    requires cut.written < |records|
  {
    if cut.deletedNext then {records[cut.written].id} else {}
  }

  function IdSet(ids: seq<Id>): set<Id> {
    set id | id in ids
  }

  /** The vec0 table of one cell; `create` and writes may fail as the runtime decides. */
  class LocalVectorStore {
    var table: Table

    constructor (t: Table)
      ensures table == t
    {
      table := t;
    }

    method Ensure(dimensions: nat, createFails: bool) returns (recreated: Option<bool>)
      requires dimensions > 0
      modifies this
      ensures (table, recreated) == EnsureTable(old(table), dimensions, createFails)
    {
      var existing := table;
      if existing.Table? && existing.schema.dimensions == dimensions
         && existing.schema.chunkSize == Some(LocalChunkSize(dimensions))
      {
        return Some(false);
      }
      if existing.Table? {
        table := NoTable;
      }
      if createFails {
        return None;
      }
      table := Table(Schema(dimensions, Some(LocalChunkSize(dimensions))), map[]);
      return Some(existing.Table?);
    }

    /** Without a cut every record is in the table; with one, exactly what had been written by then. */
    method Upsert(records: seq<VectorRecord>, cut: Option<Cut>) returns (ok: bool)
      requires table.Table?
      modifies this
      ensures ok <==> cut.None? || cut.value.written >= |records|
      ensures table.Table? && table.schema == old(table.schema)
      ensures table.rows ==
        if ok then old(table.rows) + RecordMap(records)
        else (old(table.rows) + RecordMap(records[..cut.value.written])) - LostBy(records, cut.value)
    {
      var i := 0;
      while i < |records|
        invariant 0 <= i <= |records|
        invariant table.Table? && table.schema == old(table.schema)
        invariant table.rows == old(table.rows) + RecordMap(records[..i])
        invariant cut.Some? ==> i <= cut.value.written
      {
        var record := records[i];
        if cut == Some(Cut(i, false)) {
          return false;
        }
        table := table.(rows := table.rows - {record.id});
        if cut == Some(Cut(i, true)) {
          return false;
        }
        table := table.(rows := table.rows[record.id := Stored(record.vector, record.payload)]);
        RecordMapLast(old(table.rows), records, i);
        i := i + 1;
      }
      assert records[..|records|] == records;
      return true;
    }

    method Delete(ids: seq<Id>)
      requires table.Table?
      modifies this
      ensures table == old(table).(rows := old(table.rows) - IdSet(ids))
    {
      for i := 0 to |ids|
        invariant table.Table? && table == old(table).(rows := old(table.rows) - IdSet(ids[..i]))
      {
        assert ids[..i + 1] == ids[..i] + [ids[i]];
        table := table.(rows := table.rows - {ids[i]});
        assert table.rows == old(table.rows) - IdSet(ids[..i + 1]);
      }
      assert ids[..|ids|] == ids;
    }
  }

  // ------------------------------------------------------------------------ query

  /** One row that passed the equality filters, as the k-nearest query returns it. */
  datatype Hit = Hit(id: Id, distance: real, status: Status)

  datatype Match = Match(id: Id, score: real)

  function FetchSize(topK: nat): nat {
    if topK * 4 < 16 then 16 else topK * 4
  }

  function Allowed(statuses: set<Status>): Hit -> bool {
    (hit: Hit) => hit.status in statuses
  }

  /** `ranking`: every row passing the user and category filters, nearest first. */
  function Query(ranking: seq<Hit>, topK: nat, statuses: set<Status>): seq<Match> {
    var rows := Take(ranking, FetchSize(topK));
    Map(Take(Filter(rows, Allowed(statuses)), topK), (hit: Hit) => Match(hit.id, 1.0 - hit.distance))
  }

  /** What the caller asks for: the nearest `topK` among all rows of an allowed status. */
  function ExactQuery(ranking: seq<Hit>, topK: nat, statuses: set<Status>): seq<Match> {
    Map(Take(Filter(ranking, Allowed(statuses)), topK), (hit: Hit) => Match(hit.id, 1.0 - hit.distance))
  }

  /** Rows fetched and then dropped for their status. */
  function Discarded(ranking: seq<Hit>, topK: nat, statuses: set<Status>): nat {
    var rows := Take(ranking, FetchSize(topK));
    |rows| - |Filter(rows, Allowed(statuses))|
  }

  lemma TakePrefix<T>(a: seq<T>, b: seq<T>, n: nat)
    ensures Take(a, n) <= Take(a + b, n)
    ensures |Take(a, n)| == |Take(a + b, n)| <==> |a| >= n || b == []
  {
  }

  lemma NoneBeyond(ranking: seq<Hit>, k: nat, statuses: set<Status>)
    requires k <= |ranking|
    ensures (forall i :: k <= i < |ranking| ==> ranking[i].status !in statuses)
       <==> Filter(ranking[k..], Allowed(statuses)) == []
  {
    var rest := ranking[k..];
    var beyond := Filter(rest, Allowed(statuses));
    FilterMembers(rest, Allowed(statuses));
    if beyond == [] {
      forall i | k <= i < |ranking| ensures ranking[i].status !in statuses {
        assert ranking[i] == rest[i - k] && ranking[i] in rest;
      }
    } else {
      assert beyond[0] in rest;
      var i :| 0 <= i < |rest| && rest[i] == beyond[0];
      assert ranking[i + k].status in statuses;
    }
  }

  /**
   Over-fetching and filtering afterwards returns a prefix of the exact answer. It is the exact
   answer exactly when the fetch reached every row that counts, or discarded at most
   `k - topK` of the k rows it fetched.
   */
  lemma OverFetchIsPrefix(ranking: seq<Hit>, topK: nat, statuses: set<Status>)
    ensures Query(ranking, topK, statuses) <= ExactQuery(ranking, topK, statuses)
    ensures Query(ranking, topK, statuses) == ExactQuery(ranking, topK, statuses)
       <==> (|ranking| <= FetchSize(topK)
             || Discarded(ranking, topK, statuses) <= FetchSize(topK) - topK
             || forall i :: FetchSize(topK) <= i < |ranking| ==> ranking[i].status !in statuses)
  {
    var k := FetchSize(topK);
    var p := Allowed(statuses);
    if |ranking| <= k {
      assert Take(ranking, k) == ranking;
    } else {
      var rows := ranking[..k];
      assert ranking == rows + ranking[k..];
      FilterConcat(rows, ranking[k..], p);
      NoneBeyond(ranking, k, statuses);
      TakePrefix(Filter(rows, p), Filter(ranking[k..], p), topK);
      var got, exact := Query(ranking, topK, statuses), ExactQuery(ranking, topK, statuses);
      assert got <= exact;
      assert got == exact <==> |got| == |exact|;
    }
  }
}
