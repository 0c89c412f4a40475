/**
 The corpus chunker run at start-up (backend.py, lines 17-24): the raw
 corpus is split on the page marker, each page on the sub-chunk marker,
 every piece is stripped and the empty ones are dropped.
 */
module Chunker {
  import opened Text
  import opened Seqs

  /** The marker that starts each scraped page. Only `"--- https"` is
      matched, so the rest of the page URL stays in the page's first piece. */
  const PageMarker: string := "--- https"

  /** The marker for a forced break inside a page. */
  const SubMarker: string := "NEXT"

  /** What every chunk satisfies. */
  predicate IsChunk(c: string) {
    && |c| > 0
    && IsStripped(c)
    && !Contains(c, SubMarker)
    && !Contains(c, PageMarker)
  }

  /** The body of the inner loop for one piece: strip it and keep it only
      when something is left. */
  function CleanPiece(piece: string): (r: seq<string>)
    ensures |r| <= 1
    ensures |r| == 0 <==> AllWhitespace(piece)
    ensures forall c :: c in r ==> |c| > 0 && IsStripped(c)
  {
    StripEmptyIffBlank(piece);
    var c := Strip(piece);
    if |c| > 0 then [c] else []
  }

  /** The pieces of one page, `page.split("NEXT")`. */
  function SubPieces(page: string): seq<string> {
    Split(page, SubMarker)
  }

  /** The pages of the corpus, `raw.split("--- https")`. */
  function Pages(raw: string): seq<string> {
    Split(raw, PageMarker)
  }

  /** The chunks one page contributes. */
  function PageChunks(page: string): seq<string> {
    FlatMap(SubPieces(page), CleanPiece)
  }

  /** The chunk list the module-level loops build from the raw corpus:
      every chunk is non-empty, already stripped, and contains neither marker. */
  function Chunks(raw: string): (r: seq<string>)
    ensures forall c :: c in r ==> IsChunk(c)
  {
    PagesChunksAreChunks(raw);
    FlatMap(Pages(raw), PageChunks)
  }

  /** Every sub-piece of every page, before stripping, in corpus order. */
  function Pieces(raw: string): seq<string> {
    FlatMap(Pages(raw), SubPieces)
  }

  /** The chunker as the source writes it: a loop over the pages that
      appends each page's cleaned pieces. */
  method ChunkCorpus(raw: string) returns (chunks: seq<string>)
    ensures chunks == Chunks(raw)
    ensures forall c :: c in chunks ==> IsChunk(c)
  {
    var pages := Split(raw, PageMarker);
    chunks := [];
    var p := 0;
    while p < |pages|
      invariant 0 <= p <= |pages|
      invariant chunks == FlatMap(pages[..p], PageChunks)
    {
      chunks := AppendPageChunks(chunks, pages[p]);
      FlatMapSnoc(pages, p, PageChunks);
      p := p + 1;
    }
    assert pages[..p] == pages;
  }

  /** The inner loop: split one page on the sub-chunk marker and append
      every piece that is not blank once stripped. */
  method AppendPageChunks(chunks: seq<string>, page: string) returns (chunks': seq<string>)
    ensures chunks' == chunks + PageChunks(page)
  {
    var subchunks := Split(page, SubMarker);
    chunks' := chunks;
    var q := 0;
    while q < |subchunks|
      invariant 0 <= q <= |subchunks|
      invariant chunks' == chunks + FlatMap(subchunks[..q], CleanPiece)
    {
      ghost var done := FlatMap(subchunks[..q], CleanPiece);
      var cleaned := Strip(subchunks[q]);
      if |cleaned| > 0 {
        chunks' := chunks' + [cleaned];
        assert chunks' == chunks + (done + [cleaned]);
      }
      FlatMapSnoc(subchunks, q, CleanPiece);
      q := q + 1;
    }
    assert subchunks[..q] == subchunks;
  }

  /** What the pages contribute passes `IsChunk`: stripping a piece of a
      page cannot bring back a marker the splits removed. */
  lemma PagesChunksAreChunks(raw: string)
    ensures forall c :: c in FlatMap(Pages(raw), PageChunks) ==> IsChunk(c)
  {
    SplitPiecesAvoidSeparator(raw, PageMarker);
    forall page, piece | page in Pages(raw) && piece in SubPieces(page)
      ensures forall c :: c in CleanPiece(piece) ==> IsChunk(c)
    {
      SplitPiecesAvoidSeparator(page, SubMarker);
      SplitPiecesAvoid(page, SubMarker, PageMarker);
      StripAvoids(piece, SubMarker);
      StripAvoids(piece, PageMarker);
    }
    forall page | page in Pages(raw)
      ensures forall c :: c in PageChunks(page) ==> IsChunk(c)
    {
      FlatMapAll(SubPieces(page), CleanPiece, IsChunk);
    }
    FlatMapAll(Pages(raw), PageChunks, IsChunk);
  }

  /** A chunk is left unchanged by stripping it again. */
  lemma ChunksAreStripFixpoints(raw: string)
    ensures forall c :: c in Chunks(raw) ==> Strip(c) == c
  {
    forall c | c in Chunks(raw) ensures Strip(c) == c {
      StrippedIsFixpoint(c);
    }
  }

  /** The chunks are the cleaned sub-pieces of the corpus in corpus order:
      pages in split order and, within a page, its pieces in split order. */
  lemma ChunksInCorpusOrder(raw: string)
    ensures Chunks(raw) == FlatMap(Pieces(raw), CleanPiece)
  {
    FlatMapCompose(Pages(raw), SubPieces, CleanPiece, PageChunks);
  }

  /** A string is a chunk exactly when it is the non-empty strip of one of
      the corpus's sub-pieces: nothing is invented and nothing non-blank is lost. */
  lemma ChunkMembers(raw: string, c: string)
    ensures c in Chunks(raw) <==> |c| > 0 && exists p :: p in Pieces(raw) && Strip(p) == c
  {
    ChunksInCorpusOrder(raw);
    CleanedMembers(Pieces(raw), c);
  }

  /** Membership in the cleaned list of some pieces. */
  lemma CleanedMembers(pieces: seq<string>, c: string)
    ensures c in FlatMap(pieces, CleanPiece) <==> |c| > 0 && exists p :: p in pieces && Strip(p) == c
  {
    if c in FlatMap(pieces, CleanPiece) {
      FlatMapOrigin(pieces, CleanPiece, c);
      var p :| p in pieces && c in CleanPiece(p);
      assert Strip(p) == c;
    }
    if |c| > 0 && exists p :: p in pieces && Strip(p) == c {
      var p :| p in pieces && Strip(p) == c;
      assert c in CleanPiece(p);
      FlatMapIntro(pieces, CleanPiece, p, c);
    }
  }

  /** The corpus never has more chunks than sub-pieces. */
  lemma CleanedNoLonger(raw: string)
    ensures |Chunks(raw)| <= |Pieces(raw)|
  {
    ChunksInCorpusOrder(raw);
    CleanedAtMostOnePerPiece(Pieces(raw));
  }

  /** Cleaning keeps at most one chunk per piece. */
  lemma {:induction false} CleanedAtMostOnePerPiece(pieces: seq<string>)
    ensures |FlatMap(pieces, CleanPiece)| <= |pieces|
  {
    if |pieces| > 0 {
      CleanedAtMostOnePerPiece(pieces[..|pieces| - 1]);
    }
  }

  /** A corpus containing neither marker is one page with one piece: it
      yields its stripped self, or nothing when it is blank. */
  lemma NoMarkerCorpus(raw: string)
    requires !Contains(raw, PageMarker) && !Contains(raw, SubMarker)
    ensures Chunks(raw) == if AllWhitespace(raw) then [] else [Strip(raw)]
  {
    SplitSingleIffNoSeparator(raw, PageMarker);
    SplitSingleIffNoSeparator(raw, SubMarker);
    assert [raw][..0] == [];
    assert Chunks(raw) == PageChunks(raw);
    assert PageChunks(raw) == CleanPiece(raw);
    StripEmptyIffBlank(raw);
  }

  /** A corpus that is empty or only whitespace yields no chunk. */
  lemma BlankCorpus(raw: string)
    requires AllWhitespace(raw)
    ensures Chunks(raw) == []
  {
    BlankAvoidsMarker(raw, PageMarker);
    BlankAvoidsMarker(raw, SubMarker);
    NoMarkerCorpus(raw);
  }

  /** A blank string cannot contain a marker, whose first character is not blank. */
  lemma BlankAvoidsMarker(s: string, t: string)
    requires AllWhitespace(s)
    requires |t| > 0 && !IsWhitespace(t[0])
    ensures !Contains(s, t)
  {
  }
}
