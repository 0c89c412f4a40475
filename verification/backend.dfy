/**
 The retrieval pipeline of backend.py put together: the index built at
 start-up (lines 14-38), the semantic search (lines 42-49) and the
 `/chat` handler (lines 66-84). The embedding service, the similarity
 measure, `np.argsort` and the chat model are parameters.
 */
module Backend {
  import opened Seqs
  import opened Text
  import opened Chunker
  import opened Embedding
  import opened Ranking
  import opened Prompt

  /** `top_n=10`, the number of chunks `chat` asks for. */
  const DefaultTopN: int := 10

  /** Start-up: chunk the corpus text and embed every chunk. */
  method Startup(raw: string, embed: string -> Vector) returns (idx: Index)
    ensures idx.texts == Chunks(raw)
    ensures Parallel(idx, embed)
    ensures forall c :: c in idx.texts ==> IsChunk(c)
  {
    var chunks := ChunkCorpus(raw);
    idx := EmbedChunks(chunks, embed);
  }

  /** `cosine_similarity([query_embed], embeddings)[0]`: the score of every
      indexed embedding against the query's, in index order. */
  function Similarities(q: Vector, embeddings: seq<Vector>, sim: (Vector, Vector) -> Score): seq<Score> {
    seq(|embeddings|, i requires 0 <= i < |embeddings| => sim(q, embeddings[i]))
  }

  /** `np.argsort` may be any function returning an ascending order of the indices. */
  ghost predicate SortsAscending(argsort: seq<Score> -> seq<int>) {
    forall s :: IsArgsort(s, argsort(s))
  }

  /** The indices `get_top_chunks` picks: the last `top_n` entries of the
      argsort of the similarities, best first. */
  function ChosenIndices(query: string, idx: Index, embed: string -> Vector,
                         sim: (Vector, Vector) -> Score, argsort: seq<Score> -> seq<int>,
                         topN: int): seq<int>
  {
    TopIndices(argsort(Similarities(embed(query), idx.embeddings, sim)), topN)
  }

  /** `get_top_chunks(query, embeddings, texts, top_n)`. With no chunk at all
      the embeddings are `np.array([])`, a one-dimensional array that
      `cosine_similarity` rejects, so the search fails (`None`). Otherwise
      it returns the pair `(texts[i], similarity of i)` for each chosen
      index `i`, best first, and no chunk left out scores higher than a
      chunk returned. */
  function GetTopChunks(query: string, idx: Index, embed: string -> Vector,
                        sim: (Vector, Vector) -> Score, argsort: seq<Score> -> seq<int>,
                        topN: int): (r: Option<seq<(string, Score)>>)
    requires |idx.embeddings| == |idx.texts|
    requires SortsAscending(argsort)
    ensures r.None? <==> |idx.texts| == 0
    ensures r.Some? ==>
      var top := ChosenIndices(query, idx, embed, sim, argsort, topN);
      && Distinct(top)
      && |r.value| == |top|
      && forall k :: 0 <= k < |top| ==>
           0 <= top[k] < |idx.texts| &&
           r.value[k] == (idx.texts[top[k]], sim(embed(query), idx.embeddings[top[k]]))
    ensures r.Some? && topN >= 1 ==> |r.value| == Min(topN, |idx.texts|)
    ensures r.Some? && topN == 0 ==> |r.value| == |idx.texts|
    ensures r.Some? ==> forall a, b :: 0 <= a < b < |r.value| ==> r.value[a].1 >= r.value[b].1
    ensures r.Some? ==> forall i, k ::
      (0 <= i < |idx.texts| && i !in ChosenIndices(query, idx, embed, sim, argsort, topN) && 0 <= k < |r.value|) ==>
      sim(embed(query), idx.embeddings[i]) <= r.value[k].1
  {
    if |idx.embeddings| == 0 then None
    else
      var sims := Similarities(embed(query), idx.embeddings, sim);
      var order := argsort(sims);
      var top := TopIndices(order, topN);
      var r := SelectTop(sims, idx.texts, order, topN);
      TopIndicesAreDistinctIndices(sims, order, topN);
      ScoredBySimilarity(sims, embed(query), idx.embeddings, sim, top, r);
      assert top == ChosenIndices(query, idx, embed, sim, argsort, topN);
      Some(r)
  }

  /** A bound on the left-out similarities carries over to the scores
      they stand for. */
  lemma ScoredBySimilarity(scores: seq<Score>, q: Vector, embeddings: seq<Vector>,
                           sim: (Vector, Vector) -> Score, top: seq<int>, r: seq<(string, Score)>)
    requires |scores| == |embeddings|
    requires forall i :: 0 <= i < |scores| ==> scores[i] == sim(q, embeddings[i])
    requires forall i, k :: 0 <= i < |scores| && i !in top && 0 <= k < |r| ==> scores[i] <= r[k].1
    ensures forall i, k :: 0 <= i < |embeddings| && i !in top && 0 <= k < |r| ==> sim(q, embeddings[i]) <= r[k].1
  {
    forall i, k | 0 <= i < |embeddings| && i !in top && 0 <= k < |r|
      ensures sim(q, embeddings[i]) <= r[k].1
    {
      assert scores[i] <= r[k].1;
    }
  }

  /** The JSON body of a successful `/chat` response. */
  datatype ChatReply = ChatReply(reply: string, chunks: seq<(string, Score)>)

  /** The `/chat` handler: select the ten best chunks for the message, build
      the two-message request, and return the model's reply with the chunks.
      When the search fails, the request fails before the model is asked. */
  method Chat(message: string, idx: Index, embed: string -> Vector,
              sim: (Vector, Vector) -> Score, argsort: seq<Score> -> seq<int>,
              complete: seq<Message> -> string)
    returns (outcome: Option<ChatReply>)
    requires |idx.embeddings| == |idx.texts|
    requires SortsAscending(argsort)
    ensures outcome.None? <==> |idx.texts| == 0
    ensures outcome.Some? ==>
      outcome.value.chunks == GetTopChunks(message, idx, embed, sim, argsort, DefaultTopN).value
    ensures outcome.Some? ==> |outcome.value.chunks| == Min(DefaultTopN, |idx.texts|)
    ensures outcome.Some? ==>
      outcome.value.reply == complete(BuildPrompt(Context(outcome.value.chunks), message))
  {
    var found := GetTopChunks(message, idx, embed, sim, argsort, DefaultTopN);
    if found.None? {
      return None;
    }
    var chunks := found.value;
    var context := Context(chunks);
    var fullPrompt := BuildPrompt(context, message);
    var reply := complete(fullPrompt);
    outcome := Some(ChatReply(reply, chunks));
  }

  /** Every chunk the search returns for an index built at start-up is a
      cleaned corpus chunk. */
  lemma SearchReturnsCorpusChunks(raw: string, idx: Index, query: string, embed: string -> Vector,
                                  sim: (Vector, Vector) -> Score, argsort: seq<Score> -> seq<int>, topN: int)
    requires idx.texts == Chunks(raw) && Parallel(idx, embed)
    requires SortsAscending(argsort)
    ensures GetTopChunks(query, idx, embed, sim, argsort, topN).Some? ==>
      forall k :: 0 <= k < |GetTopChunks(query, idx, embed, sim, argsort, topN).value| ==>
        GetTopChunks(query, idx, embed, sim, argsort, topN).value[k].0 in Chunks(raw)
  {
    var r := GetTopChunks(query, idx, embed, sim, argsort, topN);
    if r.Some? {
      var top := ChosenIndices(query, idx, embed, sim, argsort, topN);
      forall k | 0 <= k < |r.value| ensures r.value[k].0 in Chunks(raw) {
        assert r.value[k].0 == idx.texts[top[k]];
      }
    }
  }

  /** A blank corpus gives an empty index, on which every search fails. */
  lemma BlankCorpusSearchFails(raw: string, idx: Index, query: string, embed: string -> Vector,
                               sim: (Vector, Vector) -> Score, argsort: seq<Score> -> seq<int>, topN: int)
    requires AllWhitespace(raw)
    requires idx.texts == Chunks(raw) && Parallel(idx, embed)
    requires SortsAscending(argsort)
    ensures GetTopChunks(query, idx, embed, sim, argsort, topN).None?
  {
    BlankCorpus(raw);
  }
}
