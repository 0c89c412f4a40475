# Retrieval core of the cetbot chat backend, in Dafny

`backend.py` answers questions about a product from a fixed text corpus.
At start-up it cuts the corpus into chunks: it splits on the page marker
`"--- https"`, splits each page on `"NEXT"`, strips every piece and drops the
blank ones. It then asks an embedding service for one vector per chunk.
For every `/chat` request it embeds the message and scores it against every
chunk. It keeps the ten best chunks, best first, and joins their texts with a
blank line into a context. It sends a fixed system instruction followed by
that context, plus the user's message, to a chat model. The reply goes back
together with the selected `(text, score)` pairs.

This project models that pipeline as pure functions and proves what it
guarantees:

- `seqs.dfy` (`Seqs`): `FlatMap` (a nested loop that appends), `Reverse`, `Min`.
- `text.dfy` (`Text`): Python's `str.strip()` (with Python's whitespace set),
  `str.split(sep)`, `sep.join(xs)` and substring search.
- `chunker.dfy` (`Chunker`): the module-level chunking loops.
- `index.dfy` (`Embedding`): `embed_chunks` and the parallel-lists invariant.
- `ranking.dfy` (`Ranking`): `np.argsort(similarities)[-top_n:][::-1]` and the
  pairs built from it.
- `prompt.dfy` (`Prompt`): the context string and the two-message request.
- `backend.dfy` (`Backend`): start-up, `get_top_chunks` and the `/chat` handler.

The embedding service, the similarity measure, `np.argsort` and the chat model
are parameters. `embed: string -> Vector` is the embedding service.
`sim: (Vector, Vector) -> Score` stands for `cosine_similarity`.
`argsort` is any function that returns an ascending order of the indices.
`complete: seq<Message> -> string` is the chat model.

What the code does at its edges, and the model with it:

- The page marker is only `"--- https"`, so the rest of each URL stays in the
  page's first chunk. The corpus
  `"--- https://a\nHello world NEXT Goodbye world --- https://b\nFoo bar"`
  yields `"://a\nHello world"`, `"Goodbye world"` and `"://b\nFoo bar"`.
  `Chunker.ChunkMembers` states this general shape: every chunk is the strip
  of a piece between markers.
- `np.argsort` uses an unstable sort by default, so chunks with equal
  scores may come back in any order. The selection is stated for every
  ascending order of the indices. `Ranking.TopScoresIgnoreTies` shows that
  two such orders give the same score at every rank; only the texts of
  equally scored chunks can differ.
- `top_n` may be any integer. The slice `[-top_n:]` is modelled exactly:
  `top_n == 0` returns every chunk, and a negative `top_n` drops chunks from
  the low end. `/chat` always asks for 10.
- With an empty corpus there are no chunks, and `embed_chunks` returns
  `np.array([])`, a one-dimensional array. `cosine_similarity` rejects it,
  so every search and every `/chat` request fails before the chat model is
  asked. The model returns `None` there (`Backend.GetTopChunks`,
  `Backend.Chat`, `Backend.BlankCorpusSearchFails`).

## Model

| member | source | states |
|---|---|---|
| Text.Strip | backend.py:22 | the stripped piece has no whitespace at either end and is no longer than the piece |
| Text.StripRemovesOnlyWhitespace | backend.py:22 | the piece is its leading whitespace, then its stripped part, then its trailing whitespace: only whitespace is removed, only from the ends |
| Text.StripEmptyIffBlank | backend.py:22-23 | the `if cleaned` test fails exactly when the piece is empty or all whitespace |
| Text.StripIdempotent | backend.py:22 | stripping a stripped piece changes nothing |
| Text.StrippedIsFixpoint | backend.py:22 | a string with no whitespace at either end is its own strip |
| Text.FindFirstIsFirst | backend.py:17 | the search used by `split` finds the leftmost occurrence of the marker, and finds none exactly when the marker does not occur |
| Text.Split | backend.py:17 | `str.split` always returns at least one piece, even for an empty string |
| Text.SplitPiecesAvoidSeparator | backend.py:17 | no piece of `raw.split(marker)` contains the marker |
| Text.SplitSingleIffNoSeparator | backend.py:17 | `split` gives one piece exactly when the marker does not occur, and that piece is the whole string |
| Text.SplitPiecesAvoid | backend.py:20 | a substring absent from a page is absent from each of its pieces |
| Text.JoinSplit | backend.py:17 | joining the pieces of a split with the marker gives back the split string: splitting loses no text |
| Text.StripAvoids | backend.py:22 | stripping cannot create a marker |
| Text.Join | backend.py:71 | joining no texts gives the empty string; otherwise the result's length is the texts' lengths plus one separator between each two |
| Text.JoinPlacesEach | backend.py:71 | the k-th text occurs in the joined string at its offset |
| Text.JoinSeparatorAfter | backend.py:71 | right after every text but the last comes the separator |
| Text.JoinOffsetStep | backend.py:71 | each text starts one text and one separator after the previous one |
| Chunker.CleanPiece | backend.py:22-24 | one piece gives at most one chunk, none exactly when the piece is empty or all whitespace, and a kept chunk is non-empty and stripped |
| Chunker.ChunkCorpus | backend.py:17-24 | the two nested loops build exactly the chunk list, and every chunk is non-empty, stripped and free of both markers |
| Chunker.AppendPageChunks | backend.py:20-24 | the inner loop appends exactly the page's cleaned pieces to the list built so far |
| Chunker.Chunks | backend.py:17-24 | every chunk is non-empty, equal to its own strip, and contains neither `"NEXT"` nor `"--- https"` |
| Chunker.ChunksAreStripFixpoints | backend.py:22-24 | stripping a chunk again leaves it unchanged |
| Chunker.ChunksInCorpusOrder | backend.py:17-24 | the chunks are the cleaned pieces of all pages in corpus order: pages in order and, within a page, its pieces in order |
| Chunker.ChunkMembers | backend.py:17-24 | a string is a chunk exactly when it is the non-empty strip of some piece of the corpus |
| Chunker.CleanedNoLonger | backend.py:17-24 | the corpus never has more chunks than sub-pieces |
| Chunker.NoMarkerCorpus | backend.py:17-24 | a corpus with neither marker yields its own strip as the only chunk, or no chunk when it is blank |
| Chunker.BlankCorpus | backend.py:17-24 | an empty or all-whitespace corpus yields no chunk |
| Embedding.EmbedChunks | backend.py:28-36 | the texts come back unchanged, with one embedding per text and the i-th embedding that of the i-th text |
| Ranking.PySliceFrom | backend.py:48 | `s[start:]` is a suffix of `s`; a negative start keeps the last `min(-start, len(s))` elements, a non-negative one drops the first `start` |
| Ranking.TopIndices | backend.py:48 | the chosen positions are the last `min(top_n, N)` entries of the ascending order (all of them for `top_n == 0`), read from the end |
| Ranking.TopIndicesAreDistinctIndices | backend.py:48 | the chosen indices are distinct valid chunk indices |
| Ranking.LeftOutScoresNoHigher | backend.py:48 | every index not chosen scores no higher than every index chosen |
| Ranking.LargeTopNReturnsAll | backend.py:48 | when `top_n` is at least the number of chunks, every chunk is chosen |
| Ranking.SelectTop | backend.py:47-49 | `min(top_n, N)` pairs `(texts[i], scores[i])`, scores non-increasing, and no left-out score above a returned one; this holds for any tie order |
| Ranking.InsertByScore | backend.py:48 | inserting an index into a list adds exactly that index and keeps every other element |
| Ranking.ArgSortPrefix | backend.py:48 | inserting the indices one by one gives an ascending permutation of them |
| Ranking.ArgSort | backend.py:48 | an ascending order of the indices exists for every score list, so the selection can always be made |
| Ranking.PermutationKeepsScores | backend.py:48 | reading the scores along an argsort reorders them without adding or losing any value |
| Ranking.SortedUnique | backend.py:48 | two ascending sequences holding the same values are equal |
| Ranking.ArgsortScoresUnique | backend.py:48 | every ascending order of the indices reads the scores as the same sequence of values |
| Ranking.TopScoresIgnoreTies | backend.py:48-49 | two ascending orders that break ties differently select the same number of pairs with the same score at every rank |
| Prompt.Context | backend.py:71 | no chunks give an empty context, one chunk gives its text, and the length is the texts' lengths plus a blank line between each two |
| Prompt.ContextInRankOrder | backend.py:71 | the context holds the selected texts in rank order, each one followed by a blank line except the last |
| Prompt.BuildPrompt | backend.py:73-76 | two messages: a system message holding the fixed instruction followed by the context, then a user message holding the query unchanged |
| Prompt.PromptRoundTrip | backend.py:73-76 | the context and the query are both recovered unchanged from the request, and the user message is not taken for a system message |
| Prompt.EmptySelectionBarePreamble | backend.py:71-74 | with no chunk selected (a negative `top_n` of at least the corpus size) the system message is the instruction alone |
| Backend.Startup | backend.py:17-38 | the index holds exactly the corpus's chunks, each embedding that of its chunk, and every text is a clean chunk |
| Backend.GetTopChunks | backend.py:42-49 | the search fails exactly when the index is empty (the empty embedding array of line 36 is rejected at line 47); otherwise each pair is `(texts[i], similarity of i)` for distinct chosen indices `i`, `min(top_n, N)` of them, best score first, and every chunk left out scores no higher than every chunk returned |
| Backend.Chat | backend.py:67-84 | the request fails exactly when the index is empty; otherwise the chunks are the search result for the message with `top_n` 10, `min(10, N)` of them, and the reply is the model's answer to the two-message request built from their texts and the message |
| Backend.SearchReturnsCorpusChunks | backend.py:38-49 | every text a search returns is a chunk of the corpus |
| Backend.BlankCorpusSearchFails | backend.py:17-47 | for an empty or all-whitespace corpus every search fails |

## Left out

- Reading the corpus file (backend.py:14-15): the corpus text is a parameter.
- The embedding and chat-completion calls (backend.py:10, 31-35, 43-46, 78-82): they are the parameters `embed` and `complete`. Their failures, retries and the model names are not modelled.
- Cosine similarity (backend.py:47): the parameter `sim`. Its range, zero-vector behaviour and floating-point rounding are not modelled.
- Floating point: embeddings and scores are reals; NaN scores are not modelled.
- Embedding dimensionality: all vectors are `seq<real>`, and equal lengths are not required.
- `np.argsort` (backend.py:48): any ascending order of the indices may stand in for it. `Ranking.ArgSort` is one such order, by insertion; the tie order numpy actually produces is not modelled.
- The FastAPI app, CORS settings and request/response types (backend.py:52-68): HTTP glue.
- The JSON encoding of the response (backend.py:84): `Backend.ChatReply` holds the reply and the pairs as values.
- The failure of `cosine_similarity` (backend.py:47): it is `None`, without the exception's type or message, and the HTTP error it turns into is not modelled. Its other failures (embeddings of different lengths, non-finite values) are not modelled either.
- `ex2.py`: a Streamlit variant of the same pipeline, outside this model.
