# PDF to chunks: a Dafny model

This project models the text pipeline of `utils/rag/pdf2chunks.py`. The
pipeline turns a PDF into overlapping text chunks for a retrieval store. It
has three stages that run strictly forward:

1. **Paragraph reconstruction** (`extract_paragraphs_by_page`). On every
   selected page the right-trimmed lines are merged into a buffer:
   - a line ending in `-` loses its hyphens at both ends and is glued on;
   - any other line is added after one space when the buffer is non-empty;
   - a line shorter than `min_line_length` ends the paragraph.

   Every paragraph is tagged with its page index.
2. **Sentence segmentation** (`sent_tokenize`).
   - Chinese text is cut after each of `。！？；!?`.
   - Other text is cut at a whitespace run after `.`, `!` or `?` that is
     followed by a capital letter or an opening quote. A text longer than
     100 characters with no such cut falls back to cutting after every
     terminal mark followed by whitespace.
   - The pieces are stripped, and empty pieces are dropped.
3. **Chunk building** (`split_text_with_page`).
   - The sentences of all paragraphs are flattened, each tagged with its
     paragraph's page.
   - Consecutive sentences are packed greedily into chunks. A sentence
     counts its characters plus one joining space. A chunk of two or more
     sentences weighs at most `chunk_size` plus one, so its text is at most
     `chunk_size` characters. A single sentence longer than that forms a
     chunk of its own.
   - The next chunk starts at the latest sentence from which the rest of the
     current chunk weighs at least `overlap_size`. The shared sentences then
     hold at least `overlap_size` characters, counting one space per
     sentence, so the shared text can be one character per sentence shorter.
     When even the sentences after the current start weigh less, the next
     chunk starts one sentence later and shares less.

`pdf_to_chunks` composes the stages with `chunk_size = 800` and
`overlap_size = 200`.

The modules follow the stages:

- `wrappers.dfy` (`Wrappers`): the `Option` type.
- `text.dfy` (`Text`): the Python string operations the source relies on.
  These are `str.isspace`, `strip`, `rstrip`, `strip('-')`, `join` and
  `split('\n')`.
- `paragraphs.dfy` (`Paragraphs`): paragraph reconstruction.
- `segmenter.dfy` (`Segmenter`): sentence segmentation. The two regular
  expressions are written out as explicit cut points.
- `chunker.dfy` (`Chunker`): sentence flattening and chunk building. It has
  a functional definition (`BuildChunks`) and the loop as the source runs
  it (`PackChunks`), proved equal.
- `pipeline.dfy` (`Pipeline`): `pdf_to_chunks`.

Characters are Unicode scalar values, so the length of a Dafny string is
Python's `len`.

The hyphen joining follows the code as written. The line after a
hyphen-ended line still gets its space, so `["Hello wor-", "ld today."]`
becomes `"Hello wor ld today."`, not `"Hello world today."` as the comment at
line 94 of `utils/rag/pdf2chunks.py` intends: it says the hyphen is removed
and the pieces are joined directly (`Paragraphs.HyphenatedWrapKeepsSpace`).

The chunk loop has two exits after a chunk is emitted. The second one,
`next_start >= total` at lines 203-204, can never be taken:
- the next start never passes the current chunk's end (`Chunker.NextStart`);
- the loop only gets there when that end is before `total`.

A chunk can lie wholly inside its predecessor and add no new sentence
(`Chunker.ChunkInsidePredecessor`). Still, the sentences each chunk adds
beyond its predecessor partition the sentence list
(`Chunker.WindowsPartition`).

## Model

| member | source | states |
|---|---|---|
| Text.SplitOnJoin | utils/rag/pdf2chunks.py:81-82 | joining lines that hold no newline with `'\n'` and splitting on `'\n'` again gives the same lines back |
| Text.StripKeepsNonSpace | utils/rag/pdf2chunks.py:42 | `strip()` removes whitespace only: the non-whitespace characters survive in order |
| Text.Strip | utils/rag/pdf2chunks.py:42 | `strip()` never lengthens a string and leaves no whitespace at either end |
| Text.StripIsSlice | utils/rag/pdf2chunks.py:42 | `strip()` keeps a contiguous slice of the string, and everything outside it is whitespace |
| Text.SplitOn | utils/rag/pdf2chunks.py:82 | `split('\n')` gives at least one part, no part holds the separator, and joining the parts with it gives the string back |
| Paragraphs.PageLines | utils/rag/pdf2chunks.py:80-82 | a page has at least one line, no line holds a newline, and the lines rejoined with newlines are the container texts joined with newlines |
| Paragraphs.PageLinesOfSingleLines | utils/rag/pdf2chunks.py:75-82 | when every container holds one line without a newline, the page's lines are exactly the containers |
| Paragraphs.MergeLines | utils/rag/pdf2chunks.py:85-107 | the line loop emits only non-empty paragraphs, and at most one more than there are lines |
| Paragraphs.MergeLinesByRuns | utils/rag/pdf2chunks.py:89-107 | the line loop equals a reference reading: the buffer finishes the first run of effective lines, then each later run between short lines is merged, and empty merges are dropped (the leftover buffer is flushed at the end) |
| Paragraphs.Runs | utils/rag/pdf2chunks.py:89-103 | cutting a page at its short lines gives at least one run, and every line in a run is at least `min_line_length` long after right-trimming |
| Paragraphs.PageParagraphsByRuns | utils/rag/pdf2chunks.py:80-107 | a page's paragraphs are the non-empty merges of the runs of effective lines between short lines |
| Paragraphs.MergeWithoutHyphens | utils/rag/pdf2chunks.py:96-98 | a run of non-empty lines none of which ends in `-` merges into those lines joined by single spaces |
| Paragraphs.FoldWithoutHyphens | utils/rag/pdf2chunks.py:96-98 | appending lines none of which ends in `-` to a non-empty buffer joins buffer and lines with single spaces |
| Paragraphs.FoldHyphenated | utils/rag/pdf2chunks.py:93-95 | lines that all end in `-` are glued onto the buffer one after the other, each with its hyphens stripped at both ends and with no separator |
| Paragraphs.HyphenatedWrapKeepsSpace | utils/rag/pdf2chunks.py:93-98 | as written, `["Hello wor-", "ld today.", "", "Next para."]` gives `["Hello wor ld today.", "Next para."]`: the hyphen goes, the space after it stays, and the empty line ends the paragraph |
| Paragraphs.ExtractParagraphs | utils/rag/pdf2chunks.py:66-113 | every paragraph is non-empty and tagged with an existing page that the allowlist selects, and pages never go backwards along the output |
| Paragraphs.ExtractParagraphsByPage | utils/rag/pdf2chunks.py:69-111 | the paragraphs tagged with page `p` are exactly that page's own paragraphs, in order, if `p` exists and is selected, and none otherwise |
| Paragraphs.ExtractFromByPage | utils/rag/pdf2chunks.py:69-111 | from page `first` on, the paragraphs tagged with `p` are exactly page `p`'s own paragraphs if `p` is at least `first`, exists and is selected, and none otherwise |
| Paragraphs.ExtractFromStep | utils/rag/pdf2chunks.py:69-111 | one turn of the page loop puts exactly the current page's paragraphs, if it is selected, in front of those of the later pages |
| Paragraphs.ExtractFromOwn | utils/rag/pdf2chunks.py:69-111 | one turn of the page loop puts the current page's paragraphs, tagged with its index, in front of the later pages' paragraphs, and puts none when the page is not selected |
| Paragraphs.ExtractFromIsAssemble | utils/rag/pdf2chunks.py:69-111 | the page loop from page `first` on is the concatenation of each later page's output, tagged with its index, in page order |
| Paragraphs.AssembleByPage | utils/rag/pdf2chunks.py:69-111 | in such a concatenation, the texts tagged with `p` are page `p`'s output if `p` is one of the pages, and none otherwise |
| Segmenter.CjkPieces | utils/rag/pdf2chunks.py:30-32 | the Chinese split: the pieces concatenate back to the text, every piece but the last ends in a mark, no piece holds a mark before its end, and the last piece holds none |
| Segmenter.CjkSentences | utils/rag/pdf2chunks.py:30-42 | for a `zh` tag, a mark is only ever a sentence's last character and every sentence but the last ends in one |
| Segmenter.StripKeepsEndMark | utils/rag/pdf2chunks.py:42 | stripping a Chinese piece that ends in a mark keeps that mark at its end |
| Segmenter.CutsFrom | utils/rag/pdf2chunks.py:36-39 | the separators found are in order and do not overlap, each is a match of the pattern (a maximal whitespace run after `.`/`!`/`?`, followed by an opener under the strict pattern), and every match of the pattern is found |
| Segmenter.RunEnd | utils/rag/pdf2chunks.py:36 | the greedy `\s+` ends at the first non-whitespace character or the end of the text, with only whitespace before it |
| Segmenter.LatinCuts | utils/rag/pdf2chunks.py:34-39 | the Latin separators are exactly the loose matches when the strict pattern matches nowhere and the text is longer than 100 characters, and exactly the strict matches otherwise; they cover only whitespace |
| Segmenter.StrictSplitIsWhole | utils/rag/pdf2chunks.py:36-38 | the strict split leaves exactly one piece exactly when the strict pattern matches nowhere in the text |
| Segmenter.Pieces | utils/rag/pdf2chunks.py:36 | splitting at `k` separators gives `k + 1` pieces, which rebuild the text when the separators' texts are put back between them |
| Segmenter.PieceIsSlice | utils/rag/pdf2chunks.py:36 | piece `k` is exactly the text between separator `k - 1` (or the start) and separator `k` (or the end) |
| Segmenter.RawPiecesKeepNonSpace | utils/rag/pdf2chunks.py:30-39 | both splits drop only whitespace: the pieces hold the text's non-whitespace characters in order |
| Segmenter.PiecesKeepNonSpace | utils/rag/pdf2chunks.py:36-39 | cutting whitespace separators out of the text keeps every other character, in order |
| Segmenter.Clean | utils/rag/pdf2chunks.py:42 | cleaning keeps no more pieces than it gets, and every piece it keeps is non-empty with no whitespace at either end; with `CleanOne` and `CleanAppend` the result is fixed exactly |
| Segmenter.CleanOne | utils/rag/pdf2chunks.py:42 | one piece gives its stripped text when that is not empty, and nothing otherwise |
| Segmenter.CleanAppend | utils/rag/pdf2chunks.py:42 | each piece is cleaned on its own: cleaning two lists one after the other is cleaning their concatenation, so no two pieces are ever merged and the order is kept |
| Segmenter.CleanKeepsNonSpace | utils/rag/pdf2chunks.py:42 | cleaning drops only whitespace |
| Segmenter.SentTokenize | utils/rag/pdf2chunks.py:16-42 | every sentence is non-empty with no whitespace at either end |
| Segmenter.SentTokenizeKeepsNonSpace | utils/rag/pdf2chunks.py:16-42 | the sentences hold every non-whitespace character of the text, in order |
| Segmenter.DetectionFailureIsEnglish | utils/rag/pdf2chunks.py:25-28 | a failed detection segments exactly like the tag `"en"` |
| Chunker.KeepStrippedOfStripped | utils/rag/pdf2chunks.py:139-142 | on the segmenter's output the second strip and filter keep every sentence unchanged, tagged with the paragraph's page |
| Chunker.KeepStripped | utils/rag/pdf2chunks.py:139-142 | the second strip and filter never keep more sentences than the segmenter gave |
| Chunker.TokenizeSpec | utils/rag/pdf2chunks.py:136-138 | every paragraph's sentences are trimmed and hold the paragraph's non-whitespace characters in order |
| Chunker.FlattenIsTagging | utils/rag/pdf2chunks.py:135-142 | flattening is each paragraph's sentences tagged with its page, one paragraph after the other, with nothing dropped |
| Chunker.TaggedAllInOrder | utils/rag/pdf2chunks.py:135-142 | paragraphs in page order give sentences in page order |
| Chunker.TaggedAllKeepsNonSpace | utils/rag/pdf2chunks.py:135-142 | when each paragraph's sentences hold its non-whitespace characters, all the sentences hold all the paragraphs' non-whitespace characters, in order |
| Chunker.SentencesSpec | utils/rag/pdf2chunks.py:134-142 | the flattened sentences are trimmed and non-empty, each lies on a paragraph's page, they are in page order when the paragraphs are, and they hold every non-whitespace character of the paragraphs in order |
| Chunker.Content | utils/rag/pdf2chunks.py:161-167 | a chunk's length is its sentences' lengths plus one space between each two |
| Chunker.ContentIsJoin | utils/rag/pdf2chunks.py:161-167 | the grown chunk text is its sentences joined by single spaces |
| Chunker.GrowSpec | utils/rag/pdf2chunks.py:163-168 | the inner loop, resumed on a chunk that fits, stops at a chunk that takes one sentence or fits `chunk_size`, and only at the last sentence or where the next one would not fit |
| Chunker.ChunkEnd | utils/rag/pdf2chunks.py:157-168 | a chunk always takes its first sentence, fits `chunk_size` whenever it takes two or more, and stops only at the last sentence or where the next one would not fit |
| Chunker.ChunkEndIsLongestFit | utils/rag/pdf2chunks.py:163-168 | a window from the same start is no longer than the chunk exactly when it is one sentence or fits `chunk_size` |
| Chunker.GrowChunk | utils/rag/pdf2chunks.py:157-168 | the inner loop stops at the greedy end with the space-joined text of the sentences taken |
| Chunker.LongSentenceStandsAlone | utils/rag/pdf2chunks.py:161-168 | a sentence longer than `chunk_size` is never packed with another one: any chunk holding it holds it alone |
| Chunker.OverlapStart | utils/rag/pdf2chunks.py:182-195 | the walk back stops at the latest sentence from which the chunk's tail weighs at least `overlap_size`, or at the chunk's start when the whole chunk weighs less |
| Chunker.WalkBackSpec | utils/rag/pdf2chunks.py:187-190 | the backward loop, resumed with the characters counted so far, stops at the latest sentence whose tail of the chunk weighs at least `overlap_size`, or at the chunk's start |
| Chunker.WalkOverlap | utils/rag/pdf2chunks.py:182-195 | the backward loop returns that overlap start |
| Chunker.NextStart | utils/rag/pdf2chunks.py:195-204 | the next start lies strictly after the current start and never past the current end, so `next_start >= total` cannot hold there; with `overlap_size <= 0` it is the current end |
| Chunker.SharedTailWeight | utils/rag/pdf2chunks.py:182-200 | the sentences the next chunk shares with the current one weigh at least `overlap_size` (characters plus one space each) exactly when the walk back stopped after the current start; when the clamp moves the next start forward they weigh less |
| Chunker.NextEndNotBefore | utils/rag/pdf2chunks.py:163-200 | the next chunk reaches at least as far as the current one |
| Chunker.WindowsChain | utils/rag/pdf2chunks.py:155-207 | the outer loop's chunks start at 0, each starts after the previous start and no later than the previous end, ends never go back, the last ends at the last sentence, each is the greedy chunk from its start, and there are never more chunks than sentences |
| Chunker.ChainStartsIncrease | utils/rag/pdf2chunks.py:195-207 | along the outer loop's chunks the starts strictly increase |
| Chunker.ChainCovers | utils/rag/pdf2chunks.py:155-207 | chunks that start at a sentence and overlap or abut, up to the last sentence, cover every sentence from that start |
| Chunker.ChainPartition | utils/rag/pdf2chunks.py:155-207 | for such chunks, the sentences each adds beyond its predecessor, in order, are exactly the sentences from the start |
| Chunker.WindowsAbutWithoutOverlap | utils/rag/pdf2chunks.py:183-200 | with `overlap_size <= 0` each chunk starts exactly where the previous one ended |
| Chunker.ChunksCover | utils/rag/pdf2chunks.py:155-207 | every sentence is in some chunk |
| Chunker.WindowsPartition | utils/rag/pdf2chunks.py:155-207 | the sentences each chunk adds beyond its predecessor, taken in order, are exactly all sentences |
| Chunker.Emit | utils/rag/pdf2chunks.py:170-175 | one chunk per window, in order, each built from its own window |
| Chunker.BuildChunks | utils/rag/pdf2chunks.py:144-209 | no sentences give no chunks and any sentence gives at least one, there are never more chunks than sentences, and every chunk carries the caller's source |
| Chunker.ChunksSpec | utils/rag/pdf2chunks.py:157-175 | each chunk is the space-join of its window's run of consecutive sentences, carries the page of the run's first sentence, and is at most `chunk_size` long when the run has two or more sentences |
| Chunker.PackChunks | utils/rag/pdf2chunks.py:148-209 | the outer loop as written, with both exits, computes exactly the functional chunk list |
| Chunker.ChunksInPageOrder | utils/rag/pdf2chunks.py:155-175 | sentences in page order give chunks in page order |
| Chunker.SplitTextWithPageSpec | utils/rag/pdf2chunks.py:116-209 | every chunk's page is a paragraph's page, chunks are in page order when the paragraphs are, and there are no chunks exactly when the paragraphs give no sentence |
| Chunker.ThreeOverlappingChunks | utils/rag/pdf2chunks.py:155-207 | four five-letter sentences with `chunk_size` 14 and `overlap_size` 7 give three chunks of two sentences each, each shifted by one sentence |
| Chunker.ChunkInsidePredecessor | utils/rag/pdf2chunks.py:182-207 | `a`, `b`, `c` and a ten-letter sentence with `chunk_size` 5 and `overlap_size` 2 give the chunks `0..3`, `2..3` and `3..4`; the second lies inside the first |
| Pipeline.PdfToChunksSpec | utils/rag/pdf2chunks.py:212-255 | every chunk carries the given source and an existing page that was asked for, chunks come in page order, and a document with no paragraph gives no chunk |
| Pipeline.PdfChunksFit | utils/rag/pdf2chunks.py:248-252 | with `chunk_size` 800, every chunk is the space-join of a run of consecutive sentences that starts on the chunk's page and is at most 800 characters long when the run has two or more sentences |

## Left out

- PDF parsing by pdfminer (`extract_pages`, `LTTextContainer`) is left out because it is binary I/O in a foreign library. A document arrives as the texts of each page's text containers, in layout order. A file that cannot be read is not modelled.
- `langdetect.detect` is a statistical detector. It becomes a parameter `detect` that maps a paragraph's text to `Some(tag)`, or to `None` when it raises. The model holds for every such function. The source never sets `DetectorFactory.seed`, so the real detector is randomised and can tag two equal texts differently within one run. The model fixes one answer per text.
- Python's `re` engine in general is left out. Only the three patterns the source uses are written out, as cut-point functions. `\s` and `str.isspace` are taken as the same fixed character set, `Text.IsSpace`.
- The LangChain `Document` class is replaced by a plain `Chunk` record of content, page and source.
- The module global `file_source_path` is replaced by a `source` parameter.
- Logging and the `__main__` demo are left out because they do not change the result.
- The rest of the repository is not part of this model. That covers the vector-store clients, database and cache connections, LLM wrappers, configuration, the web endpoint and the agents and tools: they are I/O and concurrency plumbing around the pipeline.
- Chunker.PackChunks: covers the chunk loop of lines 147-209 on an already flattened sentence list. The flattening loop of lines 134-146 is modelled only functionally (`Chunker.Sentences`).
