/** The embedding provider: input truncation and the batching loop (src/ai/providers.ts). */
module Providers {
  import opened Lists
  import opened Text
  import opened Sorting

  const EMBED_MAX_INPUT_CHARS := 2000
  const EMBED_BATCH_SIZE := 16

  // ------------------------------------------------------------------ truncation

  /** `replaceAll(/\s+/g, ' ')`. */
  function Collapse(s: string): string
    decreases |s|
  {
    if s == "" then "" else if IsSpace(s[0]) then " " + Collapse(TrimStart(s)) else [s[0]] + Collapse(s[1..])
  }

  function Compact(s: string): string {
    Trim(Collapse(s))
  }

  function TruncateEmbedInput(s: string): string {
    var compact := Compact(s);
    if |compact| <= EMBED_MAX_INPUT_CHARS then compact else compact[..EMBED_MAX_INPUT_CHARS]
  }

  /** White space occurs only as single blanks. */
  ghost predicate SingleSpaced(s: string) {
    forall i :: 0 <= i < |s| && IsSpace(s[i]) ==> s[i] == ' ' && (i + 1 < |s| ==> !IsSpace(s[i + 1]))
  }

  lemma {:induction false} CollapseSingleSpaced(s: string)
    ensures SingleSpaced(Collapse(s))
    ensures (s != "" && !IsSpace(s[0])) ==> Collapse(s) != "" && Collapse(s)[0] == s[0]
    ensures s == "" ==> Collapse(s) == ""
    decreases |s|
  {
    if s != "" {
      if IsSpace(s[0]) {
        CollapseSingleSpaced(TrimStart(s));
      } else {
        CollapseSingleSpaced(s[1..]);
      }
    }
  }

  lemma {:induction false} CollapseFixes(s: string)
    requires SingleSpaced(s)
    ensures Collapse(s) == s
    decreases |s|
  {
    if s != "" {
      var t := s[1..];
      assert SingleSpaced(t) by {
        assert forall i :: 0 <= i < |t| ==> t[i] == s[i + 1];
      }
      CollapseFixes(t);
      if IsSpace(s[0]) {
        assert TrimStart(t) == t;
        assert TrimStart(s) == t;
      }
      assert s == [s[0]] + t;
    }
  }

  /** No blank at either end, single blanks inside: the shape `Compact` produces. */
  ghost predicate Compacted(s: string) {
    SingleSpaced(s) && (s == "" || (!IsSpace(s[0]) && !IsSpace(s[|s| - 1])))
  }

  lemma {:induction false} TrimStartSuffix(s: string)
    ensures TrimStart(s) == s[|s| - |TrimStart(s)|..]
  {
    if s != "" && IsSpace(s[0]) {
      TrimStartSuffix(s[1..]);
    }
  }

  lemma SingleSpacedSlice(s: string, lo: nat, hi: nat)
    requires SingleSpaced(s) && lo <= hi <= |s|
    ensures SingleSpaced(s[lo..hi])
  {
    var t := s[lo..hi];
    forall i | 0 <= i < |t| && IsSpace(t[i]) ensures t[i] == ' ' && (i + 1 < |t| ==> !IsSpace(t[i + 1])) {
      assert t[i] == s[lo + i];
    }
  }

  lemma CompactCompacts(s: string)
    ensures Compacted(Compact(s))
  {
    CollapseSingleSpaced(s);
    TrimKeepsSpacing(Collapse(s));
  }

  lemma TrimKeepsSpacing(c: string)
    requires SingleSpaced(c)
    ensures Compacted(Trim(c))
  {
    var t := TrimStart(c);
    TrimStartSuffix(c);
    SingleSpacedSlice(c, |c| - |t|, |c|);
    TrimEndCompacts(t);
  }

  lemma TrimEndCompacts(t: string)
    requires SingleSpaced(t) && (t == "" || !IsSpace(t[0]))
    ensures Compacted(TrimEnd(t))
  {
    var u := TrimEnd(t);
    assert t[0..|u|] == u;
    SingleSpacedSlice(t, 0, |u|);
  }

  lemma CompactFixes(s: string)
    requires Compacted(s)
    ensures Compact(s) == s
  {
    CollapseFixes(s);
    TrimPlain(s);
  }

  /**
   Truncating three times is truncating twice; and truncating twice is truncating once
   exactly when the cut at 2000 characters does not fall right behind a blank.
   */
  lemma TruncateStable(s: string)
    ensures TruncateEmbedInput(TruncateEmbedInput(TruncateEmbedInput(s)))
         == TruncateEmbedInput(TruncateEmbedInput(s))
    ensures TruncateEmbedInput(TruncateEmbedInput(s)) == TruncateEmbedInput(s)
       <==> !(|Compact(s)| > EMBED_MAX_INPUT_CHARS && Compact(s)[EMBED_MAX_INPUT_CHARS - 1] == ' ')
  {
    var c := Compact(s);
    CompactCompacts(s);
    var t := TruncateEmbedInput(s);
    assert SingleSpaced(t) by {
      assert forall i :: 0 <= i < |t| ==> t[i] == c[i];
    }
    if t == "" || !IsSpace(t[|t| - 1]) {
      assert Compacted(t);
      CompactFixes(t);
    } else {
      assert |c| > EMBED_MAX_INPUT_CHARS && t[|t| - 1] == c[EMBED_MAX_INPUT_CHARS - 1] == ' ';
      var u := t[..|t| - 1];
      CollapseFixes(t);
      assert |t| >= 2 && !IsSpace(t[|t| - 2]);
      assert TrimStart(t) == t;
      assert u[|u| - 1] == t[|t| - 2];
      assert TrimEnd(u) == u;
      assert TrimEnd(t) == u;
      assert Compact(t) == u && |u| < EMBED_MAX_INPUT_CHARS;
      assert forall i :: 0 <= i < |u| ==> u[i] == t[i];
      assert Compacted(u);
      CompactFixes(u);
    }
  }

  // -------------------------------------------------------------------- batching

  /** One element of the endpoint's `data`; `None` when the field is absent or of another type. */
  datatype Item = Item(index: Option<int>, embedding: Option<Vector>)

  /** What one POST to the endpoint came back with. */
  datatype Reply = Failed | NoData | Data(items: seq<Item>)

  datatype EmbedError = ProviderError | DimensionError

  function IndexOf(item: Item): int {
    if item.index.Some? then item.index.value else 0
  }

  function ByIndex(): (Item, Item) -> bool {
    (a, b) => IndexOf(a) <= IndexOf(b)
  }

  function BatchCount(n: nat): nat {
    (n + EMBED_BATCH_SIZE - 1) / EMBED_BATCH_SIZE
  }

  function BatchSize(n: nat, b: nat): nat
    requires b < BatchCount(n)
  {
    if EMBED_BATCH_SIZE * (b + 1) <= n then EMBED_BATCH_SIZE else n - EMBED_BATCH_SIZE * b
  }

  ghost predicate GoodItem(item: Item, dimensions: nat) {
    item.embedding.Some? && |item.embedding.value| == dimensions
  }

  /** The reply carries one vector of the right size for each of `n` inputs. */
  ghost predicate GoodReply(reply: Reply, n: nat, dimensions: nat) {
    reply.Data? && |reply.items| == n && forall i :: 0 <= i < n ==> GoodItem(reply.items[i], dimensions)
  }

  /** The vector the provider puts at position `j` of the batch answered by `reply`. */
  function Placed(reply: Reply, j: nat): Option<Vector> {
    if reply.Data? && j < |reply.items| then Sort(reply.items, ByIndex())[j].embedding else None
  }

  /**
   `replies[b]` is the answer to the b-th request. The call succeeds exactly when every reply is
   good, and then result `i` is what the reply of `i`'s batch places at `i`'s position.
   */
  method Embed(dimensions: nat, texts: seq<string>, replies: seq<Reply>)
    returns (r: Result<seq<Vector>, EmbedError>)
    requires |replies| >= BatchCount(|texts|)
    ensures r.Ok? <==>
      forall b :: 0 <= b < BatchCount(|texts|) ==> GoodReply(replies[b], BatchSize(|texts|, b), dimensions)
    ensures r.Ok? ==> |r.value| == |texts|
    ensures r.Ok? ==> forall i :: 0 <= i < |texts| ==>
      Placed(replies[i / EMBED_BATCH_SIZE], i % EMBED_BATCH_SIZE) == Some(r.value[i])
  {
    if |texts| == 0 {
      return Ok([]);
    }
    var out: seq<Vector> := [];
    var start, b := 0, 0;
    while start < |texts|
      invariant start == EMBED_BATCH_SIZE * b
      invariant b <= BatchCount(|texts|)
      invariant |out| == if start <= |texts| then start else |texts|
      invariant forall c :: 0 <= c < b ==> GoodReply(replies[c], BatchSize(|texts|, c), dimensions)
      invariant forall i :: 0 <= i < |out| ==>
        Placed(replies[i / EMBED_BATCH_SIZE], i % EMBED_BATCH_SIZE) == Some(out[i])
      decreases |texts| - start
    {
      assert b < BatchCount(|texts|);
      var batch := Map(texts[start..if start + EMBED_BATCH_SIZE <= |texts| then start + EMBED_BATCH_SIZE else |texts|],
        TruncateEmbedInput);
      var reply := replies[b];
      if !reply.Data? || |reply.items| != |batch| {
        assert !GoodReply(replies[b], BatchSize(|texts|, b), dimensions);
        return Err(ProviderError);
      }
      var ordered := Sort(reply.items, ByIndex());
      SortMembers(reply.items, ByIndex());
      ghost var before := out;
      var k := 0;
      while k < |ordered|
        invariant 0 <= k <= |ordered|
        invariant |out| == start + k
        invariant out[..start] == before
        invariant forall j :: 0 <= j < k ==>
          GoodItem(ordered[j], dimensions) && out[start + j] == ordered[j].embedding.value
      {
        var item := ordered[k];
        if item.embedding.None? {
          BadItem(reply, ordered, k, dimensions);
          return Err(ProviderError);
        }
        if |item.embedding.value| != dimensions {
          BadItem(reply, ordered, k, dimensions);
          return Err(DimensionError);
        }
        out := out + [item.embedding.value];
        k := k + 1;
      }
      AllGood(reply, ordered, dimensions);
      StillPlaced(replies, b, before, out, ordered);
      start := start + EMBED_BATCH_SIZE;
      b := b + 1;
    }
    assert b == BatchCount(|texts|);
    return Ok(out);
  }

  /** The vectors of one more reply, behind those of the replies before it. */
  lemma StillPlaced(replies: seq<Reply>, b: nat, before: seq<Vector>, out: seq<Vector>, ordered: seq<Item>)
    requires b < |replies| && |before| == EMBED_BATCH_SIZE * b && before <= out
    requires replies[b].Data? && ordered == Sort(replies[b].items, ByIndex())
    requires |ordered| <= EMBED_BATCH_SIZE && |out| == |before| + |ordered|
    requires forall i :: 0 <= i < |before| ==>
      Placed(replies[i / EMBED_BATCH_SIZE], i % EMBED_BATCH_SIZE) == Some(before[i])
    requires forall j :: 0 <= j < |ordered| ==> ordered[j].embedding == Some(out[|before| + j])
    ensures forall i :: 0 <= i < |out| ==>
      Placed(replies[i / EMBED_BATCH_SIZE], i % EMBED_BATCH_SIZE) == Some(out[i])
  {
    forall i | 0 <= i < |out| ensures Placed(replies[i / EMBED_BATCH_SIZE], i % EMBED_BATCH_SIZE) == Some(out[i]) {
      if i < |before| {
        assert out[i] == before[i];
      } else {
        var j := i - |before|;
        assert i / EMBED_BATCH_SIZE == b && i % EMBED_BATCH_SIZE == j;
        assert |ordered| == |replies[b].items|;
      }
    }
  }

  lemma BadItem(reply: Reply, ordered: seq<Item>, k: nat, dimensions: nat)
    requires reply.Data? && ordered == Sort(reply.items, ByIndex()) && k < |ordered|
    requires !GoodItem(ordered[k], dimensions)
    ensures forall n: nat :: !GoodReply(reply, n, dimensions)
  {
    SortMembers(reply.items, ByIndex());
    assert ordered[k] in reply.items;
  }

  lemma AllGood(reply: Reply, ordered: seq<Item>, dimensions: nat)
    requires reply.Data? && ordered == Sort(reply.items, ByIndex())
    requires forall j :: 0 <= j < |ordered| ==> GoodItem(ordered[j], dimensions)
    ensures GoodReply(reply, |reply.items|, dimensions)
  {
    SortMembers(reply.items, ByIndex());
    forall i | 0 <= i < |reply.items| ensures GoodItem(reply.items[i], dimensions) {
      assert reply.items[i] in ordered;
    }
  }

  // ------------------------------------------------------------------- alignment

  /** The reply's indices are a permutation of the batch's positions. */
  ghost predicate Indexed(items: seq<Item>) {
    && (forall i :: 0 <= i < |items| ==> items[i].index.Some? && 0 <= items[i].index.value < |items|)
    && (forall i, j :: 0 <= i < j < |items| ==> items[i].index != items[j].index)
  }

  /** A strictly increasing sequence of numbers below its length counts up from 0. */
  lemma {:induction false} IncreasingCounts(s: seq<int>, lo: int, j: nat)
    requires j < |s|
    requires forall i :: 0 <= i < |s| ==> lo <= s[i] < lo + |s|
    requires forall i, k :: 0 <= i < k < |s| ==> s[i] < s[k]
    ensures s[j] == lo + j
  {
    LowerBound(s, lo, j);
    UpperBound(s, lo, j);
  }

  lemma {:induction false} LowerBound(s: seq<int>, lo: int, j: nat)
    requires j < |s|
    requires forall i :: 0 <= i < |s| ==> lo <= s[i]
    requires forall i, k :: 0 <= i < k < |s| ==> s[i] < s[k]
    ensures s[j] >= lo + j
  {
    if j > 0 {
      LowerBound(s, lo, j - 1);
    }
  }

  lemma {:induction false} UpperBound(s: seq<int>, lo: int, j: nat)
    requires j < |s|
    requires forall i :: 0 <= i < |s| ==> s[i] < lo + |s|
    requires forall i, k :: 0 <= i < k < |s| ==> s[i] < s[k]
    ensures s[j] <= lo + j
    decreases |s| - j
  {
    if j + 1 < |s| {
      UpperBound(s, lo, j + 1);
    }
  }

  /** Sorting by index puts the item with index `j` at position `j`, whatever order it came in. */
  lemma SortedByIndex(items: seq<Item>, j: nat)
    requires Indexed(items) && j < |items|
    ensures var placed := Sort(items, ByIndex())[j]; placed.index == Some(j) && placed in items
  {
    var ordered := Sort(items, ByIndex());
    SortSorts(items, ByIndex());
    SortMembers(items, ByIndex());
    assert Distinct(items);
    SortDistinct(items, ByIndex());
    OrderedCounts(items, ordered, j);
    assert ordered[j] in items;
  }

  /** Indexed items in ascending order stand at their indices. */
  lemma OrderedCounts(items: seq<Item>, ordered: seq<Item>, j: nat)
    requires Indexed(items) && |ordered| == |items| && j < |items|
    requires Sorted(ordered, ByIndex()) && Distinct(ordered) && forall x :: x in ordered ==> x in items
    ensures ordered[j].index == Some(j)
  {
    assert forall i :: 0 <= i < |ordered| ==> ordered[i] in items;
    var keys := Map(ordered, IndexOf);
    forall i | 0 <= i < |keys| ensures 0 <= keys[i] < |keys| {
      assert ordered[i] in items;
    }
    forall i, k | 0 <= i < k < |keys| ensures keys[i] < keys[k] {
      assert ByIndex()(ordered[i], ordered[k]);
      assert ordered[i] in items && ordered[k] in items && ordered[i] != ordered[k];
    }
    IncreasingCounts(keys, 0, j);
  }

  /** Items without indices keep the order of the response. */
  lemma {:induction false} UnindexedKeepsOrder(items: seq<Item>)
    requires forall i :: 0 <= i < |items| ==> items[i].index == None
    ensures Sort(items, ByIndex()) == items
  {
    if items != [] {
      UnindexedKeepsOrder(items[1..]);
    }
  }

  /** The endpoint answered the batch: item with index `k` embeds input `k`. */
  ghost predicate Answers(reply: Reply, batch: seq<string>, model: string -> Vector) {
    && reply.Data? && |reply.items| == |batch|
    && ((Indexed(reply.items)
         && forall i :: 0 <= i < |batch| ==> reply.items[i].embedding == Some(model(batch[reply.items[i].index.value])))
        || forall i :: 0 <= i < |batch| ==> reply.items[i] == Item(None, Some(model(batch[i]))))
  }

  /**
   When every request is answered for its own batch, in whatever order, result `i` of a successful
   call is the model's embedding of text `i`, truncated.
   */
  lemma EmbedAligned(texts: seq<string>, replies: seq<Reply>, out: seq<Vector>, model: string -> Vector, i: nat)
    requires |replies| >= BatchCount(|texts|) && |out| == |texts| && i < |texts|
    requires forall k :: 0 <= k < |texts| ==>
      Placed(replies[k / EMBED_BATCH_SIZE], k % EMBED_BATCH_SIZE) == Some(out[k])
    requires
      var b := i / EMBED_BATCH_SIZE;
      var from := EMBED_BATCH_SIZE * b;
      var batch := Map(texts[from..from + BatchSize(|texts|, b)], TruncateEmbedInput);
      Answers(replies[b], batch, model)
    ensures out[i] == model(TruncateEmbedInput(texts[i]))
  {
    AlignedThrough(texts, replies, out, model, TruncateEmbedInput, i);
  }

  /** The alignment does not depend on how inputs are prepared. */
  lemma AlignedThrough(
    texts: seq<string>, replies: seq<Reply>, out: seq<Vector>, model: string -> Vector, prepare: string -> string,
    i: nat)
    requires |replies| >= BatchCount(|texts|) && |out| == |texts| && i < |texts|
    requires forall k :: 0 <= k < |texts| ==>
      Placed(replies[k / EMBED_BATCH_SIZE], k % EMBED_BATCH_SIZE) == Some(out[k])
    requires
      var b := i / EMBED_BATCH_SIZE;
      var from := EMBED_BATCH_SIZE * b;
      var batch := Map(texts[from..from + BatchSize(|texts|, b)], prepare);
      Answers(replies[b], batch, model)
    ensures out[i] == model(prepare(texts[i]))
  {
    var b, j := i / EMBED_BATCH_SIZE, i % EMBED_BATCH_SIZE;
    InItsBatch(|texts|, i);
    PlacedEmbeds(texts, EMBED_BATCH_SIZE * b, BatchSize(|texts|, b), replies[b], model, prepare, j);
  }

  /** The vector placed at `j` embeds the j-th text of the batch that starts at `from`. */
  lemma PlacedEmbeds(
    texts: seq<string>, from: nat, size: nat, reply: Reply, model: string -> Vector, prepare: string -> string,
    j: nat)
    requires from + size <= |texts| && j < size
    requires Answers(reply, Map(texts[from..from + size], prepare), model)
    ensures Placed(reply, j) == Some(model(prepare(texts[from + j])))
  {
    PreparedAt(texts, from, size, prepare, j);
    AnswerIsPlaced(reply, Map(texts[from..from + size], prepare), model, j);
  }

  lemma PreparedAt(texts: seq<string>, from: nat, size: nat, prepare: string -> string, j: nat)
    requires from + size <= |texts| && j < size
    ensures Map(texts[from..from + size], prepare)[j] == prepare(texts[from + j])
  {
  }

  lemma InItsBatch(n: nat, i: nat)
    requires i < n
    ensures var b := i / EMBED_BATCH_SIZE; b < BatchCount(n) && i % EMBED_BATCH_SIZE < BatchSize(n, b)
    ensures EMBED_BATCH_SIZE * (i / EMBED_BATCH_SIZE) + i % EMBED_BATCH_SIZE == i
  {
  }

  /** Whatever order an answer came in, its j-th vector embeds the j-th input. */
  lemma AnswerIsPlaced(reply: Reply, batch: seq<string>, model: string -> Vector, j: nat)
    requires Answers(reply, batch, model) && j < |batch|
    ensures Placed(reply, j) == Some(model(batch[j]))
  {
    var items := reply.items;
    if
      && Indexed(items)
      && forall k :: 0 <= k < |batch| ==> items[k].embedding == Some(model(batch[items[k].index.value]))
    {
      SortedByIndex(items, j);
    } else {
      UnindexedKeepsOrder(items);
    }
  }
}
