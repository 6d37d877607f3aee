/** Ranking, visibility and per-conversation suppression in `memorySearch` (src/cells/memory-cell.ts:428-546). */
module MemorySearch {
  import opened Lists
  import opened Sorting
  import opened Ranking
  import opened VectorStore
  import opened MemoryIndex

  const SUPPRESSION_TTL_MS := 6 * 60 * 60 * 1000
  const SEARCH_LIMIT := 20

  type Conversation = string

  datatype SearchInput = SearchInput(
    limit: Option<int>, statuses: set<Status>, category: Option<string>,
    conversation: Option<Conversation>, includeSuppressed: bool, acknowledge: bool)

  /** `memory_suppressions`: when a memory may surface again in a conversation. */
  type Suppressions = map<(Conversation, Id), int>

  datatype Found = Found(id: Id, row: Row, score: real, lexicalRank: Option<nat>, vectorRank: Option<nat>)

  // ------------------------------------------------------------------------- ranking

  function Limit(input: SearchInput): nat {
    var asked := if input.limit.Some? then input.limit.value else 5;
    var atLeastOne := if asked < 1 then 1 else asked;
    if atLeastOne > SEARCH_LIMIT then SEARCH_LIMIT else atLeastOne
  }

  function Statuses(input: SearchInput): set<Status> {
    if input.statuses == {} then {Active} else input.statuses
  }

  /** The ids of both lists, each once, as the keys of the fused map come. */
  function Candidates(ids: seq<Id>): seq<Id> {
    if ids == [] then []
    else
      var front := Candidates(ids[..|ids| - 1]);
      if ids[|ids| - 1] in front then front else front + [ids[|ids| - 1]]
  }

  lemma {:induction false} CandidatesDistinct(ids: seq<Id>)
    ensures Distinct(Candidates(ids))
    ensures forall id :: id in Candidates(ids) <==> id in ids
  {
    if ids != [] {
      CandidatesDistinct(ids[..|ids| - 1]);
      assert ids == ids[..|ids| - 1] + [ids[|ids| - 1]];
    }
  }

  /** The row still exists and is what the caller asked for: the table overrules the index. */
  predicate Eligible(rows: map<Id, Row>, input: SearchInput, id: Id) {
    && id in rows && rows[id].status in Statuses(input)
    && (input.category.Some? ==> rows[id].content.category == input.category)
  }

  function Fused(lexical: seq<Id>, hits: seq<Id>): Id -> real {
    id => Score([lexical, hits], RRF_K, id)
  }

  function Ranked(rows: map<Id, Row>, input: SearchInput, lexical: seq<Id>, hits: seq<Id>,
                  collate: (Id, Id) -> bool): seq<Id>
  {
    Sort(Filter(Candidates(lexical + hits), (id: Id) => Eligible(rows, input, id)),
      ByScore(Fused(lexical, hits), collate))
  }

  /** The ranking reads contents and statuses only. */
  lemma RankedReadsContents(a: map<Id, Row>, b: map<Id, Row>, input: SearchInput, lexical: seq<Id>, hits: seq<Id>,
                            collate: (Id, Id) -> bool)
    requires SameContents(a, b)
    ensures Ranked(a, input, lexical, hits, collate) == Ranked(b, input, lexical, hits, collate)
  {
    forall id ensures Eligible(a, input, id) == Eligible(b, input, id) {
      if id in a {
        assert a[id].(embeddedModel := None) == b[id].(embeddedModel := None);
      }
    }
    FilterSame(Candidates(lexical + hits), (id: Id) => Eligible(a, input, id), (id: Id) => Eligible(b, input, id));
  }

  /** JavaScript's `indexOf`, counted from 1; `None` for -1. */
  function RankIn(list: seq<Id>, id: Id): (r: Option<nat>)
    ensures r.Some? <==> id in list
    ensures r.Some? ==> 1 <= r.value <= |list| && list[r.value - 1] == id && id !in list[..r.value - 1]
  {
    if list == [] then None
    else if list[0] == id then Some(1)
    else
      var rest := RankIn(list[1..], id);
      if rest.None? then None
      else
        assert list[..rest.value] == [list[0]] + list[1..][..rest.value - 1];
        Some(rest.value + 1)
  }

  function FoundIds(matches: seq<Found>): seq<Id> {
    Map(matches, (m: Found) => m.id)
  }

  /** One returned memory: its score relative to the best, and where either list had it. */
  function FoundFor(rows: map<Id, Row>, lexical: seq<Id>, hits: seq<Id>, score: Id -> real, best: real,
                    id: Id): (m: Found)
    requires id in rows && best > 0.0
    ensures m.id == id && m.row == rows[id] && m.score * best == score(id)
    ensures m.lexicalRank == RankIn(lexical, id) && m.vectorRank == RankIn(hits, id)
  {
    Found(id, rows[id], score(id) / best, RankIn(lexical, id), RankIn(hits, id))
  }

  // -------------------------------------------------------------------- suppressions

  function Prune(s: Suppressions, now: int): Suppressions {
    map k | k in s && s[k] >= now :: s[k]
  }

  function Acknowledge(s: Suppressions, conversation: Conversation, ids: seq<Id>, expires: int): Suppressions {
    if ids == [] then s
    else Acknowledge(s, conversation, ids[..|ids| - 1], expires)[(conversation, ids[|ids| - 1]) := expires]
  }

  lemma {:induction false} AcknowledgeEntry(s: Suppressions, conversation: Conversation, ids: seq<Id>, expires: int,
                                            c: Conversation, id: Id)
    ensures var after := Acknowledge(s, conversation, ids, expires);
      if c == conversation && id in ids then (c, id) in after && after[(c, id)] == expires
      else ((c, id) in after <==> (c, id) in s) && ((c, id) in s ==> after[(c, id)] == s[(c, id)])
  {
    if ids != [] {
      AcknowledgeEntry(s, conversation, ids[..|ids| - 1], expires, c, id);
      assert ids == ids[..|ids| - 1] + [ids[|ids| - 1]];
    }
  }

  function Forget(s: Suppressions, id: Id): Suppressions {
    map k | k in s && k.1 != id :: s[k]
  }

  predicate Hidden(s: Suppressions, input: SearchInput, id: Id) {
    input.conversation.Some? && !input.includeSuppressed && (input.conversation.value, id) in s
  }

  /** How many of the ranking the conversation has seen recently. */
  function HiddenCount(s: Suppressions, input: SearchInput, ranked: seq<Id>): nat {
    |Filter(ranked, (id: Id) => Hidden(s, input, id))|
  }

  function Visible(s: Suppressions, input: SearchInput, ranked: seq<Id>): seq<Id> {
    if input.conversation.Some? && !input.includeSuppressed
    then Filter(ranked, (id: Id) => !Hidden(s, input, id))
    else ranked
  }

  /** The synchronous tail of a search: prune at `pruneAt`, answer, acknowledge at `ackAt`. */
  function Tail(s: Suppressions, input: SearchInput, ranked: seq<Id>, pruneAt: int,
                ackAt: int): (seq<Id>, Suppressions)
  {
    var pruned := Prune(s, pruneAt);
    var top := Take(Visible(pruned, input, ranked), Limit(input));
    (top, if top != [] && input.conversation.Some? && input.acknowledge
          then Acknowledge(pruned, input.conversation.value, top, ackAt + SUPPRESSION_TTL_MS) else pruned)
  }

  // ------------------------------------------------------------------- result quality

  lemma {:induction false} PositiveScore(list: seq<Id>, k: nat, id: Id)
    ensures ListScore(list, k, id) >= 0.0
    ensures id in list ==> ListScore(list, k, id) > 0.0
  {
    if |list| > 0 {
      var n := |list| - 1;
      PositiveScore(list[..n], k, id);
      ShareDecreases(k, n, n);
      assert list == list[..n] + [list[n]];
    }
  }

  lemma FusedScore(lexical: seq<Id>, hits: seq<Id>, id: Id)
    ensures Fused(lexical, hits)(id) == ListScore(lexical, RRF_K, id) + ListScore(hits, RRF_K, id)
    ensures id in lexical || id in hits ==> Fused(lexical, hits)(id) > 0.0
  {
    var lists := [lexical, hits];
    assert lists[..1] == [lexical];
    assert lists[..1][..0] == [];
    assert Score(lists[..1], RRF_K, id) == ListScore(lexical, RRF_K, id);
    PositiveScore(lexical, RRF_K, id);
    PositiveScore(hits, RRF_K, id);
  }

  /** Best fused score first, ties in collation order, nothing twice. */
  ghost predicate InOrder(ids: seq<Id>, lexical: seq<Id>, hits: seq<Id>, collate: (Id, Id) -> bool) {
    Distinct(ids) && Sorted(ids, ByScore(Fused(lexical, hits), collate))
  }

  /** The full ranking: exactly the eligible ids of either list, in order. */
  lemma RankedQuality(rows: map<Id, Row>, input: SearchInput, lexical: seq<Id>, hits: seq<Id>,
                      collate: (Id, Id) -> bool)
    requires TotalPreorder(collate)
    ensures InOrder(Ranked(rows, input, lexical, hits, collate), lexical, hits, collate)
    ensures forall id :: id in Ranked(rows, input, lexical, hits, collate) <==>
      (id in lexical || id in hits) && Eligible(rows, input, id)
  {
    var leq := ByScore(Fused(lexical, hits), collate);
    var p := (id: Id) => Eligible(rows, input, id);
    var all := Candidates(lexical + hits);
    CandidatesDistinct(lexical + hits);
    FilterDistinct(all, p);
    FilterMembers(all, p);
    ByScoreIsTotal(Fused(lexical, hits), collate);
    SortDistinct(Filter(all, p), leq);
    SortMembers(Filter(all, p), leq);
    SortSorts(Filter(all, p), leq);
  }

  lemma VisibleQuality(s: Suppressions, input: SearchInput, ranked: seq<Id>, lexical: seq<Id>, hits: seq<Id>,
                       collate: (Id, Id) -> bool)
    requires InOrder(ranked, lexical, hits, collate)
    ensures InOrder(Visible(s, input, ranked), lexical, hits, collate)
    ensures forall id :: id in Visible(s, input, ranked) <==> id in ranked && !Hidden(s, input, id)
    ensures |ranked| == |Visible(s, input, ranked)| + HiddenCount(s, input, ranked)
  {
    var p := (id: Id) => !Hidden(s, input, id);
    if input.conversation.Some? && !input.includeSuppressed {
      FilterSorted(ranked, p, ByScore(Fused(lexical, hits), collate));
      FilterDistinct(ranked, p);
      FilterMembers(ranked, p);
      FilterSplits(ranked, p, (id: Id) => Hidden(s, input, id));
    } else {
      FilterMembers(ranked, (id: Id) => Hidden(s, input, id));
      assert Filter(ranked, (id: Id) => Hidden(s, input, id)) == [] by {
        if Filter(ranked, (id: Id) => Hidden(s, input, id)) != [] {
          var hidden := Filter(ranked, (id: Id) => Hidden(s, input, id));
          assert hidden[0] in hidden;
        }
      }
    }
  }

  lemma TakeInOrder(ids: seq<Id>, n: nat, lexical: seq<Id>, hits: seq<Id>, collate: (Id, Id) -> bool)
    requires InOrder(ids, lexical, hits, collate)
    ensures InOrder(Take(ids, n), lexical, hits, collate)
    ensures Take(ids, n) <= ids && |Take(ids, n)| == if |ids| < n then |ids| else n
  {
  }

  /**
   Whatever the lexical and the vector query return, a search answers with distinct existing
   memories of an allowed status and category, at most the limit, best fused score first; and the
   full ranking is the visible one plus the suppressed ones.
   */
  lemma SearchQuality(
    rows: map<Id, Row>, s: Suppressions, input: SearchInput, lexical: seq<Id>, hits: seq<Id>,
    collate: (Id, Id) -> bool, pruneAt: int, ackAt: int)
    requires TotalPreorder(collate)
    ensures var top := Tail(s, input, Ranked(rows, input, lexical, hits, collate), pruneAt, ackAt).0;
      && InOrder(top, lexical, hits, collate)
      && |top| <= Limit(input) <= SEARCH_LIMIT
      && forall id :: id in top ==>
           id in rows && rows[id].status in Statuses(input)
           && (input.category.Some? ==> rows[id].content.category == input.category)
    ensures var ranked := Ranked(rows, input, lexical, hits, collate);
      var visible := Visible(Prune(s, pruneAt), input, ranked);
      var top := Tail(s, input, ranked, pruneAt, ackAt).0;
      && top <= visible && (|top| < |visible| ==> |top| == Limit(input))
      && (forall id :: id in visible <==>
            (id in lexical || id in hits) && Eligible(rows, input, id) && !Hidden(Prune(s, pruneAt), input, id))
      && |ranked| == |visible| + HiddenCount(Prune(s, pruneAt), input, ranked)
  {
    var ranked := Ranked(rows, input, lexical, hits, collate);
    var visible := Visible(Prune(s, pruneAt), input, ranked);
    RankedQuality(rows, input, lexical, hits, collate);
    VisibleQuality(Prune(s, pruneAt), input, ranked, lexical, hits, collate);
    TakeInOrder(visible, Limit(input), lexical, hits, collate);
    var top := Take(visible, Limit(input));
    assert forall id :: id in top ==> id in visible;
  }

  // ------------------------------------------------------------------ six quiet hours

  /** A search's tail or a hard delete, in the order the cell runs them. */
  datatype Event =
    | Searched(input: SearchInput, ranked: seq<Id>, pruneAt: int, ackAt: int)
    | Purged(id: Id)

  function After(s: Suppressions, e: Event): Suppressions {
    match e
    case Searched(input, ranked, pruneAt, ackAt) => Tail(s, input, ranked, pruneAt, ackAt).1
    case Purged(id) => Forget(s, id)
  }

  /** The table after all of `history`, from an empty one. */
  function Table(history: seq<Event>): Suppressions {
    if history == [] then map[] else After(Table(history[..|history| - 1]), history[|history| - 1])
  }

  /** What event `k` of the history returned. */
  function Answer(history: seq<Event>, k: nat): seq<Id>
    requires k < |history| && history[k].Searched?
  {
    Tail(Table(history[..k]), history[k].input, history[k].ranked, history[k].pruneAt, history[k].ackAt).0
  }

  /** Clocks do not run backwards, within a search or between searches. */
  ghost predicate Chronological(history: seq<Event>) {
    && (forall i :: 0 <= i < |history| && history[i].Searched? ==> history[i].pruneAt <= history[i].ackAt)
    && forall i, j :: 0 <= i < j < |history| && history[i].Searched? && history[j].Searched? ==>
         history[i].ackAt <= history[j].pruneAt
  }

  /** Event `e`, answering `top`, put `id` in front of conversation `c` and recorded it. */
  predicate Surfaces(e: Event, top: seq<Id>, c: Conversation, id: Id) {
    e.Searched? && e.input.conversation == Some(c) && e.input.acknowledge && id in top
  }

  /** When `c` last saw `id` through an acknowledging search, unless `id` was purged since. */
  function LastSurfaced(history: seq<Event>, c: Conversation, id: Id): Option<int> {
    if history == [] then None
    else
      var n := |history| - 1;
      var e := history[n];
      if e.Purged? && e.id == id then None
      else if e.Searched? && Surfaces(e, Answer(history, n), c, id) then Some(e.ackAt)
      else LastSurfaced(history[..n], c, id)
  }

  /** The table remembers no more than the history, and nothing the last prune had to keep. */
  ghost predicate Remembers(history: seq<Event>, c: Conversation, id: Id, now: int) {
    var s, last := Table(history), LastSurfaced(history, c, id);
    && ((c, id) in s ==> last.Some? && s[(c, id)] == last.value + SUPPRESSION_TTL_MS)
    && (last.Some? && last.value + SUPPRESSION_TTL_MS >= now ==> (c, id) in s)
  }

  /** What one search does to one entry. */
  lemma TailEntry(s: Suppressions, input: SearchInput, ranked: seq<Id>, pruneAt: int, ackAt: int, c: Conversation,
                  id: Id)
    ensures var (top, after) := Tail(s, input, ranked, pruneAt, ackAt);
      if input.conversation == Some(c) && input.acknowledge && id in top
      then (c, id) in after && after[(c, id)] == ackAt + SUPPRESSION_TTL_MS
      else
        && ((c, id) in after <==> (c, id) in s && s[(c, id)] >= pruneAt)
        && ((c, id) in after ==> after[(c, id)] == s[(c, id)])
  {
    var top := Tail(s, input, ranked, pruneAt, ackAt).0;
    if input.conversation.Some? {
      AcknowledgeEntry(Prune(s, pruneAt), input.conversation.value, top, ackAt + SUPPRESSION_TTL_MS, c, id);
    }
  }

  lemma {:induction false} TableRemembers(history: seq<Event>, c: Conversation, id: Id, now: int)
    requires Chronological(history)
    requires forall i :: 0 <= i < |history| && history[i].Searched? ==> history[i].ackAt <= now
    ensures Remembers(history, c, id, now)
  {
    if history != [] {
      var n := |history| - 1;
      var front, e := history[..n], history[n];
      assert Chronological(front);
      match e
      case Purged(gone) =>
        TableRemembers(front, c, id, now);
      case Searched(input, ranked, pruneAt, ackAt) =>
        assert forall i :: 0 <= i < |front| && front[i].Searched? ==> front[i].ackAt <= pruneAt;
        TableRemembers(front, c, id, pruneAt);
        TailEntry(Table(front), input, ranked, pruneAt, ackAt, c, id);
        assert Answer(history, n) == Tail(Table(front), input, ranked, pruneAt, ackAt).0;
        assert Table(history) == Tail(Table(front), input, ranked, pruneAt, ackAt).1;
    }
  }

  /**
   At every search of every run, a memory is suppressed in the conversation exactly when an
   acknowledging search surfaced it there at most six hours ago and it was not purged since.
   */
  lemma SuppressedIffRecentlySurfaced(history: seq<Event>, c: Conversation, id: Id, now: int)
    requires Chronological(history)
    requires forall i :: 0 <= i < |history| && history[i].Searched? ==> history[i].ackAt <= now
    ensures (c, id) in Prune(Table(history), now)
       <==> LastSurfaced(history, c, id).Some? && now <= LastSurfaced(history, c, id).value + SUPPRESSION_TTL_MS
  {
    TableRemembers(history, c, id, now);
  }

  lemma {:induction false} SurfacedStays(history: seq<Event>, j: nat, c: Conversation, id: Id)
    requires j < |history| && history[j].Searched? && Chronological(history)
    requires Surfaces(history[j], Answer(history, j), c, id)
    requires forall i :: j < i < |history| ==> history[i] != Purged(id)
    ensures LastSurfaced(history, c, id).Some? && LastSurfaced(history, c, id).value >= history[j].ackAt
    decreases |history|
  {
    var n := |history| - 1;
    if j < n {
      var front := history[..n];
      assert front[..j] == history[..j];
      assert Answer(front, j) == Answer(history, j);
      SurfacedStays(front, j, c, id);
    }
  }

  /**
   A memory returned by an acknowledging search is not returned by a later search of the same
   conversation that does not ask for suppressed memories, until six hours have passed.
   */
  lemma SurfacedMemoryRests(history: seq<Event>, j: nat, k: nat, c: Conversation, id: Id)
    requires Chronological(history) && j < k < |history|
    requires history[j].Searched? && Surfaces(history[j], Answer(history, j), c, id)
    requires history[k].Searched? && history[k].input.conversation == Some(c) && !history[k].input.includeSuppressed
    requires history[k].pruneAt <= history[j].ackAt + SUPPRESSION_TTL_MS
    requires forall i :: j < i < k ==> history[i] != Purged(id)
    ensures id !in Answer(history, k)
  {
    var front, e := history[..k], history[k];
    assert front[..j] == history[..j];
    assert Answer(front, j) == Answer(history, j);
    SurfacedStays(front, j, c, id);
    SuppressedIffRecentlySurfaced(front, c, id, e.pruneAt);
    var pruned := Prune(Table(front), e.pruneAt);
    FilterMembers(e.ranked, (x: Id) => !Hidden(pruned, e.input, x));
    assert forall x :: x in Answer(history, k) ==> x in Visible(pruned, e.input, e.ranked);
  }

  // -------------------------------------------------------------- verifying a candidate

  /** The search `memoryVerify` makes: it acknowledges nothing. */
  function VerifyInput(limit: Option<int>, conversation: Option<Conversation>, includeSuppressed: bool): SearchInput {
    SearchInput(Some(match limit case None => 5 case Some(n) => n), {Active, Archived}, None, conversation,
      includeSuppressed, false)
  }

  lemma PrunedTwice(s: Suppressions, earlier: int, later: int)
    requires earlier <= later
    ensures Prune(Prune(s, earlier), later) == Prune(s, later)
  {
  }

  ghost predicate NotAfter(history: seq<Event>, now: int) {
    forall i :: 0 <= i < |history| && history[i].Searched? ==> history[i].ackAt <= now
  }

  lemma SearchesReadPruned(s: Suppressions, t: Suppressions, e: Event)
    requires e.Searched? && Prune(s, e.pruneAt) == Prune(t, e.pruneAt)
    ensures After(s, e) == After(t, e)
  {
  }

  lemma SilentOnlyPrunes(before: seq<Event>, silent: Event, all: seq<Event>)
    requires silent.Searched? && !silent.input.acknowledge && all == before + [silent] + []
    ensures Table(all) == Prune(Table(before), silent.pruneAt)
  {
    assert all[..|all| - 1] == before && all[|all| - 1] == silent;
  }

  /** A search that acknowledges nothing leaves the table, once pruned, as if it had not been made. */
  lemma {:induction false} SilentSearchForgotten(before: seq<Event>, silent: Event, since: seq<Event>, now: int)
    requires silent.Searched? && !silent.input.acknowledge
    requires Chronological(before + [silent] + since) && NotAfter(before + [silent] + since, now)
    ensures Prune(Table(before + [silent] + since), now) == Prune(Table(before + since), now)
    decreases |since|
  {
    var all, less := before + [silent] + since, before + since;
    if since == [] {
      assert less == before;
      SilentOnlyPrunes(before, silent, all);
      assert silent == all[|before|] && silent.pruneAt <= silent.ackAt <= now;
      PrunedTwice(Table(before), silent.pruneAt, now);
    } else {
      var front, e := since[..|since| - 1], since[|since| - 1];
      LastEvent(before + [silent], since);
      LastEvent(before, since);
      BeforeLast(all, now);
      if e.Searched? {
        SilentSearchForgotten(before, silent, front, e.pruneAt);
        SearchesReadPruned(Table(before + [silent] + front), Table(before + front), e);
      } else {
        SilentSearchForgotten(before, silent, front, now);
        ForgetPruned(Table(before + [silent] + front), Table(before + front), e.id, now);
      }
    }
  }

  lemma LastEvent(a: seq<Event>, b: seq<Event>)
    requires b != []
    ensures var all := a + b; all[..|all| - 1] == a + b[..|b| - 1] && all[|all| - 1] == b[|b| - 1]
    ensures Table(a + b) == After(Table(a + b[..|b| - 1]), b[|b| - 1])
  {
    assert (a + b)[..|a + b| - 1] == a + b[..|b| - 1];
  }

  lemma BeforeLast(history: seq<Event>, now: int)
    requires history != [] && Chronological(history) && NotAfter(history, now)
    ensures var front, e := history[..|history| - 1], history[|history| - 1];
      Chronological(front) && NotAfter(front, now)
      && (e.Searched? ==> NotAfter(front, e.pruneAt) && e.pruneAt <= now)
  {
    var n := |history| - 1;
    assert history[n].Searched? ==> history[n].pruneAt <= history[n].ackAt <= now;
  }

  lemma ForgetPruned(s: Suppressions, t: Suppressions, id: Id, now: int)
    requires Prune(s, now) == Prune(t, now)
    ensures Prune(Forget(s, id), now) == Prune(Forget(t, id), now)
  {
    forall k ensures k in Prune(Forget(s, id), now) <==> k in Prune(s, now) && k.1 != id {}
    forall k ensures k in Prune(Forget(t, id), now) <==> k in Prune(t, now) && k.1 != id {}
    forall k | k in Prune(s, now) ensures s[k] == t[k] {
      assert Prune(s, now)[k] == Prune(t, now)[k];
    }
  }

  /** So whatever is verified, and whenever, no search ever answers differently for it. */
  lemma VerifyingHidesNothing(before: seq<Event>, silent: Event, since: seq<Event>, k: nat)
    requires silent.Searched? && !silent.input.acknowledge && Chronological(before + [silent] + since)
    requires k < |since| && since[k].Searched?
    ensures Answer(before + [silent] + since, |before| + 1 + k) == Answer(before + since, |before| + k)
  {
    var all, less, e := before + [silent] + since, before + since, since[k];
    var longer := before + [silent] + since[..k];
    assert all[..|before| + 1 + k] == longer && all[|before| + 1 + k] == e;
    assert less[..|before| + k] == before + since[..k] && less[|before| + k] == e;
    assert forall i :: 0 <= i < |longer| ==> longer[i] == all[i];
    assert NotAfter(longer, e.pruneAt);
    SilentSearchForgotten(before, silent, since[..k], e.pruneAt);
  }
}
