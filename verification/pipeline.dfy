/** `pdf_to_chunks`: paragraphs per page, then chunks with `chunk_size` 800
    and `overlap_size` 200. A chunk of two or more sentences is at most 800
    characters long, and the next chunk starts so that the shared sentences
    weigh at least 200, unless that would not move it forward. The PDF
    reader is outside the model: a document arrives as the texts of each
    page's text containers, and the file name arrives as `source`. */
module Pipeline {
  import opened Wrappers
  import opened Paragraphs
  import opened Segmenter
  import opened Chunker

  const ChunkSize := 800
  const OverlapSize := 200

  function PdfToChunks(pages: seq<seq<string>>, pageNumbers: Option<seq<int>>, minLineLength: int,
                       detect: string -> Option<string>, source: string): seq<Chunk>
  {
    var paras := ExtractParagraphs(pages, pageNumbers, minLineLength);
    if |paras| == 0 then [] else SplitTextWithPage(paras, detect, ChunkSize, OverlapSize, source)
  }

  /** A page the chunk can come from: an existing page that was asked for. */
  predicate FromRequestedPage(c: Chunk, pageCount: nat, pageNumbers: Option<seq<int>>) {
    c.page < pageCount && Selected(pageNumbers, c.page)
  }

  /** Every chunk names the given source and an existing page that was asked
      for, the chunks come in page order, and a document with no paragraph
      gives no chunk. */
  lemma PdfToChunksSpec(pages: seq<seq<string>>, pageNumbers: Option<seq<int>>, minLineLength: int,
                        detect: string -> Option<string>, source: string)
    ensures forall i :: 0 <= i < |PdfToChunks(pages, pageNumbers, minLineLength, detect, source)| ==>
              && PdfToChunks(pages, pageNumbers, minLineLength, detect, source)[i].source == source
              && FromRequestedPage(PdfToChunks(pages, pageNumbers, minLineLength, detect, source)[i], |pages|, pageNumbers)
    ensures ChunkPagesInOrder(PdfToChunks(pages, pageNumbers, minLineLength, detect, source))
    ensures ExtractParagraphs(pages, pageNumbers, minLineLength) == [] ==>
              PdfToChunks(pages, pageNumbers, minLineLength, detect, source) == []
  {
    var paras := ExtractParagraphs(pages, pageNumbers, minLineLength);
    var cs := PdfToChunks(pages, pageNumbers, minLineLength, detect, source);
    if |paras| > 0 {
      SplitTextWithPageSpec(paras, detect, ChunkSize, OverlapSize, source);
      forall i | 0 <= i < |cs| ensures FromRequestedPage(cs[i], |pages|, pageNumbers) {
        var k :| 0 <= k < |paras| && paras[k].page == cs[i].page;
      }
    }
  }

  /** Every chunk of two or more sentences is at most 800 characters long:
      the chunks are the space-joined runs of the outer loop's windows. */
  lemma PdfChunksFit(pages: seq<seq<string>>, pageNumbers: Option<seq<int>>, minLineLength: int,
                     detect: string -> Option<string>, source: string)
    ensures var ss := Sentences(ExtractParagraphs(pages, pageNumbers, minLineLength), detect);
            ss != [] ==>
              Describes(ss, Windows(ss, ChunkSize, OverlapSize, 0),
                        PdfToChunks(pages, pageNumbers, minLineLength, detect, source), ChunkSize)
  {
    var paras := ExtractParagraphs(pages, pageNumbers, minLineLength);
    var ss := Sentences(paras, detect);
    if ss != [] {
      assert paras != [];
      ChunksSpec(ss, ChunkSize, OverlapSize, source);
    }
  }
}
