/**
 Index construction (backend.py, lines 28-38): one embedding per chunk,
 computed in chunk order, returned next to the unchanged chunk list.
 The embedding service is a network call; here it is the parameter
 `embed`, a total function from a text to its vector.
 */
module Embedding {

  /** An embedding vector; the service's floats are modelled as reals. */
  type Vector = seq<real>

  /** What `embed_chunks` returns: the embeddings and the texts, side by side. */
  datatype Index = Index(embeddings: seq<Vector>, texts: seq<string>)

  /** The two lists of an index are parallel: position `i` of `embeddings`
      holds the embedding of position `i` of `texts`. */
  predicate Parallel(idx: Index, embed: string -> Vector) {
    && |idx.embeddings| == |idx.texts|
    && forall i :: 0 <= i < |idx.texts| ==> idx.embeddings[i] == embed(idx.texts[i])
  }

  /** `embed_chunks`: ask for one embedding per chunk, in order, and return
      them together with the chunks. */
  method EmbedChunks(chunks: seq<string>, embed: string -> Vector) returns (idx: Index)
    ensures idx.texts == chunks
    ensures Parallel(idx, embed)
  {
    var embeddings: seq<Vector> := [];
    var k := 0;
    while k < |chunks|
      invariant 0 <= k <= |chunks|
      invariant |embeddings| == k
      invariant forall i :: 0 <= i < k ==> embeddings[i] == embed(chunks[i])
    {
      embeddings := embeddings + [embed(chunks[k])];
      k := k + 1;
    }
    idx := Index(embeddings, chunks);
  }
}
