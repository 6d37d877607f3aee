/**
 The embeddings client behind the memory cell's cache (src/cells/memory-cell.ts:190-206,
 src/ai/providers.ts:126-167).
 */
module EmbeddingClient {
  import opened Lists
  import opened Providers
  import opened MemoryCell
  import opened MemoryIndex

  /** The texts of the b-th request for `keys`, each prepared by the client. */
  function RequestOf(keys: seq<Key>, b: nat, prepare: string -> string): seq<string>
    requires b < BatchCount(|keys|)
  {
    var from := EMBED_BATCH_SIZE * b;
    Map(TextsOf(keys)[from..from + BatchSize(|keys|, b)], prepare)
  }

  function TextsOf(keys: seq<Key>): (texts: seq<string>)
    ensures |texts| == |keys|
  {
    Map(keys, (k: Key) => k.text)
  }

  /**
   The client's answers are what `Store` needs: if the provider of `model` is an endpoint behind the
   client, and every reply to a request embeds that request, then a successful call for the missing
   keys returns, key by key, what the provider returns for the key's text.
   */
  lemma ClientFeedsCache(provider: Provider, model: Model, endpoint: string -> Vector,
                         missing: seq<Key>, replies: seq<Reply>, answers: seq<Vector>)
    requires forall k :: k in missing ==> k.model == model
    requires forall text :: provider.embed(model, text) == endpoint(TruncateEmbedInput(text))
    requires |replies| >= BatchCount(|missing|) && |answers| == |missing|
    requires forall b :: 0 <= b < BatchCount(|missing|) ==>
      Answers(replies[b], RequestOf(missing, b, TruncateEmbedInput), endpoint)
    requires forall i :: 0 <= i < |missing| ==>
      Placed(replies[i / EMBED_BATCH_SIZE], i % EMBED_BATCH_SIZE) == Some(answers[i])
    ensures forall i :: 0 <= i < |missing| ==> answers[i] == provider.embed(missing[i].model, missing[i].text)
  {
    forall i | 0 <= i < |missing| ensures answers[i] == provider.embed(missing[i].model, missing[i].text) {
      ClientAnswersKey(endpoint, TruncateEmbedInput, missing, replies, answers, i);
      assert missing[i] in missing;
    }
  }

  /** The answer for one key, however the client prepares texts. */
  lemma ClientAnswersKey(endpoint: string -> Vector, prepare: string -> string,
                         missing: seq<Key>, replies: seq<Reply>, answers: seq<Vector>, i: nat)
    requires |replies| >= BatchCount(|missing|) && |answers| == |missing| && i < |missing|
    requires forall b :: 0 <= b < BatchCount(|missing|) ==>
      Answers(replies[b], RequestOf(missing, b, prepare), endpoint)
    requires forall k :: 0 <= k < |missing| ==>
      Placed(replies[k / EMBED_BATCH_SIZE], k % EMBED_BATCH_SIZE) == Some(answers[k])
    ensures answers[i] == endpoint(prepare(missing[i].text))
  {
    var texts := TextsOf(missing);
    var b := i / EMBED_BATCH_SIZE;
    InItsBatch(|missing|, i);
    assert Answers(replies[b], RequestOf(missing, b, prepare), endpoint);
    AlignedThrough(texts, replies, answers, endpoint, prepare, i);
  }
}
