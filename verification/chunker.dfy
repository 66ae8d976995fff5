/** Chunk building (`split_text_with_page`). Paragraphs are flattened into
    page-tagged sentences, and consecutive sentences are packed greedily into
    chunks. Sizes count one joining space per sentence, as the source does. A
    chunk of two or more sentences keeps within `chunkSize` characters; a
    longer single sentence stands alone. The next chunk starts at the latest
    sentence whose tail of the current chunk weighs at least `overlapSize`,
    or one sentence after the current start when no such sentence lies after
    it. */
module Chunker {
  import opened Text
  import opened Wrappers
  import opened Paragraphs
  import opened Segmenter

  /** A sentence and the page of the paragraph it came from. */
  type Sentence = Paged

  /** The emitted document: its text, the page of its first sentence and the
      file it came from. */
  datatype Chunk = Chunk(content: string, page: nat, source: string)

  /** The sentences `start .. end - 1` (end exclusive) that form one chunk. */
  datatype Window = Window(start: nat, end: nat)

  // ---------------------------------------------------------------------
  // Sentences (lines 135-146)

  /** Lines 141-144 for one paragraph: every sentence is stripped again and
      dropped when that leaves nothing, and the rest carry the page. */
  function KeepStripped(page: nat, sents: seq<string>): (r: seq<Sentence>)
    ensures |r| <= |sents|
    decreases |sents|
  {
    if |sents| == 0 then []
    else
      var t := Strip(sents[0]);
      var rest := KeepStripped(page, sents[1..]);
      if t != "" then [Paged(page, t)] + rest else rest
  }

  /** On the segmenter's output the second strip and filter change nothing:
      every sentence is kept as it is, with the paragraph's page. */
  lemma {:induction false} KeepStrippedOfStripped(page: nat, ts: seq<string>)
    requires EachStripped(ts)
    ensures KeepStripped(page, ts) == Tag(page, ts)
    decreases |ts|
  {
    if |ts| > 0 {
      assert KeepStripped(page, ts) == [Paged(page, ts[0])] + KeepStripped(page, ts[1..]);
      assert EachStripped(ts[1..]) by {
        assert forall i :: 0 <= i < |ts| - 1 ==> ts[1..][i] == ts[i + 1];
      }
      KeepStrippedOfStripped(page, ts[1..]);
      TaggedCons(page, ts);
    }
  }

  lemma TaggedCons(page: nat, ts: seq<string>)
    requires |ts| > 0
    ensures Tag(page, ts) == [Paged(page, ts[0])] + Tag(page, ts[1..])
  {
  }

  /** Sentences that stripping leaves unchanged and non-empty. */
  predicate EachStripped(ts: seq<string>) {
    forall i :: 0 <= i < |ts| ==> ts[i] != "" && Strip(ts[i]) == ts[i]
  }

  /** Trimmed sentences are left as they are by stripping. */
  lemma TrimmedAreStripped(ts: seq<string>)
    requires EachTrimmed(ts)
    ensures EachStripped(ts)
  {
    forall i | 0 <= i < |ts| ensures Strip(ts[i]) == ts[i] {
      StripStripped(ts[i]);
    }
  }

  predicate EachTrimmed(ts: seq<string>) {
    forall i :: 0 <= i < |ts| ==> Trimmed(ts[i])
  }

  /** `sent_tokenize(para)` for every paragraph; the detector is called on
      the paragraph's text. */
  function Tokenize(paras: seq<Paragraph>, detect: string -> Option<string>): (tss: seq<seq<string>>)
    ensures |tss| == |paras|
  {
    seq(|paras|, i requires 0 <= i < |paras| => SentTokenize(paras[i].text, detect(paras[i].text)))
  }

  /** The segmenter's sentences of every paragraph are trimmed and hold the
      paragraph's non-whitespace characters. */
  lemma TokenizeSpec(paras: seq<Paragraph>, detect: string -> Option<string>)
    ensures AllTrimmed(Tokenize(paras, detect))
    ensures KeepsNonSpace(paras, Tokenize(paras, detect))
  {
    var tss := Tokenize(paras, detect);
    forall i | 0 <= i < |paras|
      ensures EachTrimmed(tss[i])
      ensures NonSpace(Concat(tss[i])) == NonSpace(paras[i].text)
    {
      assert tss[i] == SentTokenize(paras[i].text, detect(paras[i].text));
      SentTokenizeKeepsNonSpace(paras[i].text, detect(paras[i].text));
    }
  }

  /** The flattening loop over paragraphs and their sentence lists. */
  function Flatten(paras: seq<Paragraph>, tss: seq<seq<string>>): seq<Sentence>
    requires |tss| == |paras|
    decreases |paras|
  {
    if |paras| == 0 then []
    else KeepStripped(paras[0].page, tss[0]) + Flatten(paras[1..], tss[1..])
  }

  /** The sentences of lines 135-146 in order, each tagged with its
      paragraph's page. */
  function Sentences(paras: seq<Paragraph>, detect: string -> Option<string>): seq<Sentence> {
    Flatten(paras, Tokenize(paras, detect))
  }

  /** Each list holds its paragraph's non-whitespace characters. */
  predicate KeepsNonSpace(paras: seq<Paragraph>, tss: seq<seq<string>>)
    requires |tss| == |paras|
  {
    forall i :: 0 <= i < |paras| ==> NonSpace(Concat(tss[i])) == NonSpace(paras[i].text)
  }

  predicate OnPages(ss: seq<Sentence>, pages: set<nat>) {
    forall i :: 0 <= i < |ss| ==> ss[i].page in pages
  }

  predicate PagesAtLeast(ss: seq<Sentence>, lo: nat) {
    forall i :: 0 <= i < |ss| ==> lo <= ss[i].page
  }

  predicate SentencesTrimmed(ss: seq<Sentence>) {
    forall i :: 0 <= i < |ss| ==> Trimmed(ss[i].text)
  }

  predicate AllTrimmed(tss: seq<seq<string>>) {
    forall i :: 0 <= i < |tss| ==> EachTrimmed(tss[i])
  }

  lemma AllTrimmedTail(tss: seq<seq<string>>)
    requires |tss| > 0 && AllTrimmed(tss)
    ensures AllTrimmed(tss[1..])
    ensures EachTrimmed(tss[0])
  {
    assert forall i :: 0 <= i < |tss| - 1 ==> tss[1..][i] == tss[i + 1];
  }

  function PagesOf(paras: seq<Paragraph>): set<nat> {
    set i | 0 <= i < |paras| :: paras[i].page
  }

  predicate PagesInOrder(ss: seq<Sentence>) {
    forall i, j :: 0 <= i < j < |ss| ==> ss[i].page <= ss[j].page
  }

  predicate ParagraphsInOrder(paras: seq<Paragraph>) {
    forall i, j :: 0 <= i < j < |paras| ==> paras[i].page <= paras[j].page
  }

  /** Flattening trimmed sentence lists keeps every sentence: the result is
      each paragraph's sentences tagged with its page, one paragraph after
      the other. */
  lemma {:induction false} FlattenIsTagging(paras: seq<Paragraph>, tss: seq<seq<string>>)
    requires |tss| == |paras| && AllTrimmed(tss)
    ensures Flatten(paras, tss) == TaggedAll(paras, tss)
    decreases |paras|
  {
    if |paras| > 0 {
      AllTrimmedTail(tss);
      FlattenIsTagging(paras[1..], tss[1..]);
      TrimmedAreStripped(tss[0]);
      KeepStrippedOfStripped(paras[0].page, tss[0]);
    }
  }

  /** The reference reading: every paragraph's sentences with its page. */
  function TaggedAll(paras: seq<Paragraph>, tss: seq<seq<string>>): seq<Sentence>
    requires |tss| == |paras|
    decreases |paras|
  {
    if |paras| == 0 then [] else Tag(paras[0].page, tss[0]) + TaggedAll(paras[1..], tss[1..])
  }

  /** Every sentence is non-empty and trimmed, and lies on the page of one
      of the paragraphs. */
  lemma {:induction false} TaggedAllSpec(paras: seq<Paragraph>, tss: seq<seq<string>>)
    requires |tss| == |paras| && AllTrimmed(tss)
    ensures OnPages(TaggedAll(paras, tss), PagesOf(paras))
    ensures SentencesTrimmed(TaggedAll(paras, tss))
    decreases |paras|
  {
    if |paras| > 0 {
      var ss := TaggedAll(paras, tss);
      var head := Tag(paras[0].page, tss[0]);
      var tail := TaggedAll(paras[1..], tss[1..]);
      assert TaggedAll(paras, tss) == head + tail;
      AllTrimmedTail(tss);
      TaggedAllSpec(paras[1..], tss[1..]);
      TailPages(paras);
      assert paras[0].page in PagesOf(paras);
      forall i | 0 <= i < |ss| ensures ss[i].page in PagesOf(paras) && Trimmed(ss[i].text) {
        if i < |head| {
          assert ss[i] == head[i];
        } else {
          assert ss[i] == tail[i - |head|];
        }
      }
    }
  }

  lemma TailPages(paras: seq<Paragraph>)
    requires |paras| > 0
    ensures PagesOf(paras[1..]) <= PagesOf(paras)
  {
    forall q | q in PagesOf(paras[1..]) ensures q in PagesOf(paras) {
      var k :| 0 <= k < |paras[1..]| && paras[1..][k].page == q;
      assert paras[k + 1].page == q;
    }
  }

  /** Sentences keep the paragraphs' page order. */
  lemma {:induction false} TaggedAllInOrder(paras: seq<Paragraph>, tss: seq<seq<string>>)
    requires |tss| == |paras|
    requires ParagraphsInOrder(paras)
    ensures PagesInOrder(TaggedAll(paras, tss))
    decreases |paras|
  {
    if |paras| > 0 {
      var p := paras[0];
      var head := Tag(p.page, tss[0]);
      var tail := TaggedAll(paras[1..], tss[1..]);
      assert TaggedAll(paras, tss) == head + tail;
      assert ParagraphsInOrder(paras[1..]) by {
        forall i, j | 0 <= i < j < |paras| - 1 ensures paras[1..][i].page <= paras[1..][j].page {
          assert paras[1..][i] == paras[i + 1] && paras[1..][j] == paras[j + 1];
        }
      }
      TaggedAllInOrder(paras[1..], tss[1..]);
      TaggedAllPagesAtLeast(paras[1..], tss[1..], p.page);
      AppendInOrder(head, tail, p.page);
    }
  }

  /** Paragraphs on page `lo` or later give sentences on page `lo` or later. */
  lemma {:induction false} TaggedAllPagesAtLeast(paras: seq<Paragraph>, tss: seq<seq<string>>, lo: nat)
    requires |tss| == |paras|
    requires forall i :: 0 <= i < |paras| ==> lo <= paras[i].page
    ensures PagesAtLeast(TaggedAll(paras, tss), lo)
    decreases |paras|
  {
    if |paras| > 0 {
      var ss := TaggedAll(paras, tss);
      var head := Tag(paras[0].page, tss[0]);
      var tail := TaggedAll(paras[1..], tss[1..]);
      assert TaggedAll(paras, tss) == head + tail;
      TaggedAllPagesAtLeast(paras[1..], tss[1..], lo);
      forall i | 0 <= i < |ss| ensures lo <= ss[i].page {
        if i < |head| {
          assert ss[i] == head[i];
        } else {
          assert ss[i] == tail[i - |head|];
        }
      }
    }
  }

  lemma AppendInOrder(head: seq<Sentence>, tail: seq<Sentence>, page: nat)
    requires forall i :: 0 <= i < |head| ==> head[i].page == page
    requires PagesAtLeast(tail, page)
    requires PagesInOrder(tail)
    ensures PagesInOrder(head + tail)
  {
  }

  /** Tagging drops nothing: the sentence texts are the lists' sentences,
      so their non-whitespace characters are the paragraphs' whenever each
      list holds its paragraph's. */
  lemma {:induction false} TaggedAllKeepsNonSpace(paras: seq<Paragraph>, tss: seq<seq<string>>)
    requires |tss| == |paras|
    requires KeepsNonSpace(paras, tss)
    ensures NonSpace(Concat(Texts(TaggedAll(paras, tss)))) == NonSpace(Concat(Texts(paras)))
    decreases |paras|
  {
    if |paras| > 0 {
      TaggedAllKeepsNonSpace(paras[1..], tss[1..]);
      var head := Tag(paras[0].page, tss[0]);
      var tail := TaggedAll(paras[1..], tss[1..]);
      assert TaggedAll(paras, tss) == head + tail;
      assert Texts(head + tail) == tss[0] + Texts(tail);
      ConcatAppend(tss[0], Texts(tail));
      NonSpaceAppend(Concat(tss[0]), Concat(Texts(tail)));
      assert Texts(paras) == [paras[0].text] + Texts(paras[1..]);
      NonSpaceAppend(paras[0].text, Concat(Texts(paras[1..])));
    } else {
      assert Texts(TaggedAll(paras, tss)) == [];
      assert Texts(paras) == [];
    }
  }

  /** The sentences of the paragraphs: trimmed and non-empty, each on the
      page of some paragraph, in page order when the paragraphs are, and
      holding every non-whitespace character of the paragraphs in order. */
  lemma SentencesSpec(paras: seq<Paragraph>, detect: string -> Option<string>)
    ensures OnPages(Sentences(paras, detect), PagesOf(paras))
    ensures SentencesTrimmed(Sentences(paras, detect))
    ensures ParagraphsInOrder(paras) ==> PagesInOrder(Sentences(paras, detect))
    ensures NonSpace(Concat(Texts(Sentences(paras, detect)))) == NonSpace(Concat(Texts(paras)))
  {
    var tss := Tokenize(paras, detect);
    TokenizeSpec(paras, detect);
    FlattenIsTagging(paras, tss);
    TaggedAllSpec(paras, tss);
    if ParagraphsInOrder(paras) {
      TaggedAllInOrder(paras, tss);
    }
    TaggedAllKeepsNonSpace(paras, tss);
  }

  // ---------------------------------------------------------------------
  // Sizes

  /** The sentences' lengths from `a` up to `b`, plus one joining space each. */
  function Weight(ss: seq<Sentence>, a: nat, b: nat): nat
    requires a <= b <= |ss|
    decreases b - a
  {
    if a == b then 0 else Weight(ss, a, b - 1) + |ss[b - 1].text| + 1
  }

  /** Splitting a range splits its weight. */
  lemma {:induction false} WeightSplit(ss: seq<Sentence>, a: nat, m: nat, b: nat)
    requires a <= m <= b <= |ss|
    ensures Weight(ss, a, b) == Weight(ss, a, m) + Weight(ss, m, b)
    decreases b - m
  {
    if m < b {
      WeightSplit(ss, a, m, b - 1);
    }
  }

  /** Every sentence adds at least one to the weight. */
  lemma WeightAtLeastCount(ss: seq<Sentence>, a: nat, b: nat)
    requires a <= b <= |ss|
    ensures Weight(ss, a, b) >= b - a
    decreases b - a
  {
  }

  /** The chunk text as the source grows it: the first sentence, then
      `' ' + sentence` for every further one. Its length is the weight of
      the window less one, because the first sentence has no space. */
  function Content(ss: seq<Sentence>, a: nat, b: nat): (c: string)
    requires a < b <= |ss|
    ensures |c| == Weight(ss, a, b) - 1
    decreases b - a
  {
    if b == a + 1 then ss[a].text else Content(ss, a, b - 1) + " " + ss[b - 1].text
  }

  /** The chunk text is the sentences of its window joined by single spaces. */
  lemma {:induction false} ContentIsJoin(ss: seq<Sentence>, a: nat, b: nat)
    requires a < b <= |ss|
    ensures Content(ss, a, b) == Join(Texts(ss[a..b]), " ")
    decreases b - a
  {
    if b == a + 1 {
      assert Texts(ss[a..b]) == [ss[a].text];
    } else {
      ContentIsJoin(ss, a, b - 1);
      assert Texts(ss[a..b]) == Texts(ss[a..b - 1]) + [ss[b - 1].text];
      JoinSnoc(Texts(ss[a..b - 1]), ss[b - 1].text, " ");
    }
  }

  // ---------------------------------------------------------------------
  // Growing a chunk (lines 157-168)

  /** The inner `while` loop: from sentence `i` with the chunk `len` long,
      take sentences while the chunk plus a space plus the sentence fits. */
  function Grow(ss: seq<Sentence>, chunkSize: int, i: nat, len: int): nat
    requires i <= |ss|
    decreases |ss| - i
  {
    if i < |ss| && len + |ss[i].text| + 1 <= chunkSize then
      Grow(ss, chunkSize, i + 1, len + |ss[i].text| + 1)
    else
      i
  }

  lemma {:induction false} GrowSpec(ss: seq<Sentence>, chunkSize: int, start: nat, i: nat, len: int)
    requires start < i <= |ss|
    requires len == Weight(ss, start, i) - 1
    requires i == start + 1 || len <= chunkSize
    ensures var e := Grow(ss, chunkSize, i, len);
            && i <= e <= |ss|
            && (e == start + 1 || Weight(ss, start, e) - 1 <= chunkSize)
            && (e == |ss| || Weight(ss, start, e + 1) - 1 > chunkSize)
    decreases |ss| - i
  {
    if i < |ss| && len + |ss[i].text| + 1 <= chunkSize {
      GrowSpec(ss, chunkSize, start, i + 1, len + |ss[i].text| + 1);
    }
  }

  /** The end (exclusive) of the chunk that starts at `start`: it always takes
      its first sentence, stays within `chunkSize` whenever it takes more than
      one, and stops only at the last sentence or where the next one would not
      fit. */
  function ChunkEnd(ss: seq<Sentence>, chunkSize: int, start: nat): (e: nat)
    requires start < |ss|
    ensures start < e <= |ss|
    ensures e == start + 1 || Weight(ss, start, e) - 1 <= chunkSize
    ensures e == |ss| || Weight(ss, start, e + 1) - 1 > chunkSize
  {
    GrowSpec(ss, chunkSize, start, start + 1, |ss[start].text|);
    Grow(ss, chunkSize, start + 1, |ss[start].text|)
  }

  /** Weights only grow as a window is extended. */
  lemma WeightMonotone(ss: seq<Sentence>, a: nat, b: nat, c: nat)
    requires a <= b <= c <= |ss|
    ensures Weight(ss, a, b) <= Weight(ss, a, c)
  {
    WeightSplit(ss, a, b, c);
  }

  /** The greedy end is the longest fitting window: a window from `start`
      ending at `f` is no longer than the chunk exactly when it has a single
      sentence or fits within `chunkSize`. */
  lemma ChunkEndIsLongestFit(ss: seq<Sentence>, chunkSize: int, start: nat, f: nat)
    requires start < f <= |ss|
    ensures f <= ChunkEnd(ss, chunkSize, start)
        <==> (f == start + 1 || Weight(ss, start, f) - 1 <= chunkSize)
  {
    var e := ChunkEnd(ss, chunkSize, start);
    if f <= e {
      WeightMonotone(ss, start, f, e);
    } else {
      WeightMonotone(ss, start, e + 1, f);
    }
  }

  // ---------------------------------------------------------------------
  // Where the next chunk starts (lines 176-200)

  /** The backward walk: from sentence `idx` down to `start`, add sentences
      (with their space) to `chars` until `chars` reaches `overlapSize`.
      Returns the index of the last sentence not taken. */
  function WalkBack(ss: seq<Sentence>, overlapSize: int, start: nat, idx: int, chars: int): int
    requires start - 1 <= idx < |ss|
    decreases idx - start + 1
  {
    if idx >= start && chars < overlapSize then
      WalkBack(ss, overlapSize, start, idx - 1, chars + |ss[idx].text| + 1)
    else
      idx
  }

  lemma {:induction false} WalkBackSpec(ss: seq<Sentence>, overlapSize: int, start: nat, end: nat, idx: int, chars: int)
    requires start <= end <= |ss|
    requires start - 1 <= idx < end
    requires chars == Weight(ss, idx + 1, end)
    requires forall j :: idx + 1 < j <= end ==> Weight(ss, j, end) < overlapSize
    ensures var k := WalkBack(ss, overlapSize, start, idx, chars) + 1;
            && start <= k <= idx + 1
            && (k == start || Weight(ss, k, end) >= overlapSize)
            && (forall j :: k < j <= end ==> Weight(ss, j, end) < overlapSize)
    decreases idx - start + 1
  {
    if idx >= start && chars < overlapSize {
      assert Weight(ss, idx, end) == chars + |ss[idx].text| + 1 by {
        WeightSplit(ss, idx, idx + 1, end);
      }
      WalkBackSpec(ss, overlapSize, start, end, idx - 1, chars + |ss[idx].text| + 1);
    }
  }

  /** `overlap_start_idx + 1` after the walk from the chunk's last sentence:
      the latest index whose tail of the chunk weighs at least `overlapSize`,
      or the chunk's start when even the whole chunk weighs less. */
  function OverlapStart(ss: seq<Sentence>, overlapSize: int, start: nat, end: nat): (k: nat)
    requires start <= end <= |ss|
    ensures start <= k <= end
    ensures k == start || Weight(ss, k, end) >= overlapSize
    ensures forall j :: k < j <= end ==> Weight(ss, j, end) < overlapSize
  {
    WalkBackSpec(ss, overlapSize, start, end, end - 1, 0);
    WalkBack(ss, overlapSize, start, end - 1, 0) + 1
  }

  /** The next chunk's first sentence: the overlap start, pushed forward to
      at least one past the current start. It never lies past the current
      chunk's end, and with no overlap wanted it is that end. */
  function NextStart(ss: seq<Sentence>, chunkSize: int, overlapSize: int, start: nat): (ns: nat)
    requires start < |ss|
    ensures start < ns <= ChunkEnd(ss, chunkSize, start)
    ensures overlapSize <= 0 ==> ns == ChunkEnd(ss, chunkSize, start)
  {
    var k := OverlapStart(ss, overlapSize, start, ChunkEnd(ss, chunkSize, start));
    if k <= start then start + 1 else k
  }

  /** The sentences the next chunk shares with the current one weigh at
      least `overlapSize` (their characters plus one space each) exactly when
      the walk back stopped after the current start. When it reached the
      start, the forward clamp moves the next chunk one sentence on, and the
      shared sentences weigh less. */
  lemma SharedTailWeight(ss: seq<Sentence>, chunkSize: int, overlapSize: int, start: nat)
    requires start < |ss|
    ensures var e := ChunkEnd(ss, chunkSize, start);
            (Weight(ss, NextStart(ss, chunkSize, overlapSize, start), e) >= overlapSize
             <==> OverlapStart(ss, overlapSize, start, e) != start)
  {
    var e := ChunkEnd(ss, chunkSize, start);
    var k := OverlapStart(ss, overlapSize, start, e);
    if k == start {
      assert start < start + 1 <= e;
      assert Weight(ss, start + 1, e) < overlapSize;
    }
  }

  // ---------------------------------------------------------------------
  // The chunk windows (lines 155-207)

  /** The windows of the outer loop from `start`. The source's second exit,
      `next_start >= total` (lines 203-204), is not written: `NextStart`
      never passes the current end, which is below `total` there. */
  function Windows(ss: seq<Sentence>, chunkSize: int, overlapSize: int, start: nat): seq<Window>
    requires start < |ss|
    decreases |ss| - start
  {
    var e := ChunkEnd(ss, chunkSize, start);
    if e >= |ss| then [Window(start, e)]
    else [Window(start, e)] + Windows(ss, chunkSize, overlapSize, NextStart(ss, chunkSize, overlapSize, start))
  }

  /** Every window holds at least one sentence and lies within `n`. */
  predicate Proper(ws: seq<Window>, n: nat) {
    forall i :: 0 <= i < |ws| ==> ws[i].start < ws[i].end <= n
  }

  /** The windows form a chain over the sentences from `start`. */
  predicate Chained(ws: seq<Window>, n: nat, start: nat) {
    && |ws| >= 1
    && ws[0].start == start
    && Proper(ws, n)
    && (forall i :: 0 <= i < |ws| - 1 ==> ws[i].start < ws[i + 1].start <= ws[i].end)
    && (forall i :: 0 <= i < |ws| - 1 ==> ws[i].end <= ws[i + 1].end)
    && ws[|ws| - 1].end == n
  }

  /** Each window is the greedy chunk from its start. */
  predicate Greedy(ss: seq<Sentence>, chunkSize: int, ws: seq<Window>) {
    forall i :: 0 <= i < |ws| ==> ws[i].start < |ss| && ws[i].end == ChunkEnd(ss, chunkSize, ws[i].start)
  }

  /** The loop's progress and termination: the windows start where asked,
      every next start lies strictly after the previous start and no later
      than the previous end, the last window ends at the last sentence, and
      there are never more windows than sentences. */
  lemma {:induction false} WindowsChain(ss: seq<Sentence>, chunkSize: int, overlapSize: int, start: nat)
    requires start < |ss|
    ensures var ws := Windows(ss, chunkSize, overlapSize, start);
            && Chained(ws, |ss|, start)
            && Greedy(ss, chunkSize, ws)
            && |ws| <= |ss| - start
    decreases |ss| - start
  {
    var e := ChunkEnd(ss, chunkSize, start);
    var ws := Windows(ss, chunkSize, overlapSize, start);
    if e < |ss| {
      var ns := NextStart(ss, chunkSize, overlapSize, start);
      var rest := Windows(ss, chunkSize, overlapSize, ns);
      WindowsChain(ss, chunkSize, overlapSize, ns);
      assert ws == [Window(start, e)] + rest;
      NextEndNotBefore(ss, chunkSize, overlapSize, start);
      ChainCons(Window(start, e), rest, |ss|, ns);
      GreedyCons(ss, chunkSize, Window(start, e), rest);
    }
  }

  lemma GreedyCons(ss: seq<Sentence>, chunkSize: int, w: Window, rest: seq<Window>)
    requires w.start < |ss| && w.end == ChunkEnd(ss, chunkSize, w.start)
    requires Greedy(ss, chunkSize, rest)
    ensures Greedy(ss, chunkSize, [w] + rest)
  {
    var ws := [w] + rest;
    forall i | 1 <= i < |ws| ensures ws[i] == rest[i - 1] {
    }
  }

  /** The next chunk reaches at least as far as the current one: what fitted
      from the earlier start still fits from the later one. */
  lemma NextEndNotBefore(ss: seq<Sentence>, chunkSize: int, overlapSize: int, start: nat)
    requires start < |ss| && ChunkEnd(ss, chunkSize, start) < |ss|
    ensures ChunkEnd(ss, chunkSize, start)
         <= ChunkEnd(ss, chunkSize, NextStart(ss, chunkSize, overlapSize, start))
  {
    var e := ChunkEnd(ss, chunkSize, start);
    var ns := NextStart(ss, chunkSize, overlapSize, start);
    if ns < e {
      WeightSplit(ss, start, ns, e);
      ChunkEndIsLongestFit(ss, chunkSize, ns, e);
    }
  }

  lemma ChainCons(w: Window, rest: seq<Window>, n: nat, ns: nat)
    requires w.start < ns <= w.end <= n
    requires Chained(rest, n, ns) && w.end <= rest[0].end
    ensures Chained([w] + rest, n, w.start)
  {
    var ws := [w] + rest;
    forall i | 1 <= i < |ws| ensures ws[i] == rest[i - 1] {
    }
  }

  predicate Abutting(ws: seq<Window>) {
    forall i :: 0 <= i < |ws| - 1 ==> ws[i + 1].start == ws[i].end
  }

  /** With no overlap wanted the windows abut: each starts where the
      previous one ended. */
  lemma {:induction false} WindowsAbutWithoutOverlap(ss: seq<Sentence>, chunkSize: int, overlapSize: int, start: nat)
    requires start < |ss|
    requires overlapSize <= 0
    ensures Abutting(Windows(ss, chunkSize, overlapSize, start))
    decreases |ss| - start
  {
    var e := ChunkEnd(ss, chunkSize, start);
    if e < |ss| {
      var ns := NextStart(ss, chunkSize, overlapSize, start);
      WindowsAbutWithoutOverlap(ss, chunkSize, overlapSize, ns);
      WindowsChain(ss, chunkSize, overlapSize, ns);
      var ws := Windows(ss, chunkSize, overlapSize, start);
      var rest := Windows(ss, chunkSize, overlapSize, ns);
      assert forall i :: 1 <= i < |ws| ==> ws[i] == rest[i - 1];
    }
  }

  /** Sentence `j` lies in some window. */
  predicate Covers(ws: seq<Window>, j: nat) {
    exists i :: 0 <= i < |ws| && ws[i].start <= j < ws[i].end
  }

  /** A chain covers every sentence from its start: each one lies in some
      window. */
  lemma {:induction false} ChainCovers(ws: seq<Window>, n: nat, start: nat, j: nat)
    requires Chained(ws, n, start)
    requires start <= j < n
    ensures Covers(ws, j)
    decreases |ws|
  {
    if j >= ws[0].end {
      assert |ws| > 1;
      var rest := ws[1..];
      assert Chained(rest, n, ws[1].start) by {
        forall i | 0 <= i < |rest| ensures rest[i] == ws[i + 1] {
        }
      }
      ChainCovers(rest, n, ws[1].start, j);
      var i :| 0 <= i < |rest| && rest[i].start <= j < rest[i].end;
      assert ws[i + 1] == rest[i];
    }
  }

  /** The sentences each window adds beyond its predecessor, taken in order,
      are exactly the sentences from `start`: nothing is lost or repeated. */
  function NewlyCovered(ws: seq<Window>, from: nat): seq<Window>
    decreases |ws|
  {
    if |ws| == 0 then []
    else [Window(from, ws[0].end)] + NewlyCovered(ws[1..], ws[0].end)
  }

  predicate Inside(ws: seq<Window>, n: nat) {
    forall i :: 0 <= i < |ws| ==> ws[i].start <= ws[i].end <= n
  }

  /** The sentences of the windows, one window after the other. */
  function Span(ss: seq<Sentence>, ws: seq<Window>): seq<Sentence>
    requires Inside(ws, |ss|)
    decreases |ws|
  {
    if |ws| == 0 then [] else ss[ws[0].start..ws[0].end] + Span(ss, ws[1..])
  }

  lemma {:induction false} ChainPartition(ss: seq<Sentence>, ws: seq<Window>, start: nat, from: nat)
    requires Chained(ws, |ss|, start)
    requires start <= from <= ws[0].end
    ensures Inside(NewlyCovered(ws, from), |ss|)
    ensures Span(ss, NewlyCovered(ws, from)) == ss[from..]
    decreases |ws|
  {
    var nc := NewlyCovered(ws, from);
    var w := ws[0];
    if |ws| == 1 {
      assert ws[1..] == [];
      assert NewlyCovered(ws[1..], w.end) == [];
      assert nc == [Window(from, |ss|)];
      assert Span(ss, nc) == ss[from..|ss|] + Span(ss, []);
    } else {
      var rest := ws[1..];
      assert Chained(rest, |ss|, ws[1].start) by {
        forall i | 0 <= i < |rest| ensures rest[i] == ws[i + 1] {
        }
      }
      ChainPartition(ss, rest, ws[1].start, w.end);
      assert nc == [Window(from, w.end)] + NewlyCovered(rest, w.end);
      assert nc[1..] == NewlyCovered(rest, w.end);
      assert ss[from..] == ss[from..w.end] + ss[w.end..];
    }
  }

  /** What each window adds beyond its predecessor partitions the
      sentences: taken in order they are exactly all sentences, so nothing
      is lost and nothing is emitted twice as new. */
  lemma WindowsPartition(ss: seq<Sentence>, chunkSize: int, overlapSize: int)
    requires |ss| > 0
    ensures Inside(NewlyCovered(Windows(ss, chunkSize, overlapSize, 0), 0), |ss|)
    ensures Span(ss, NewlyCovered(Windows(ss, chunkSize, overlapSize, 0), 0)) == ss
  {
    WindowsChain(ss, chunkSize, overlapSize, 0);
    ChainPartition(ss, Windows(ss, chunkSize, overlapSize, 0), 0, 0);
  }

  // ---------------------------------------------------------------------
  // Chunks

  /** The document built for a window (lines 171-174). */
  function ChunkOf(ss: seq<Sentence>, w: Window, source: string): Chunk
    requires w.start < w.end <= |ss|
  {
    Chunk(Content(ss, w.start, w.end), ss[w.start].page, source)
  }

  /** One chunk per window, in order. */
  function Emit(ss: seq<Sentence>, ws: seq<Window>, source: string): (cs: seq<Chunk>)
    requires Proper(ws, |ss|)
    ensures |cs| == |ws|
    ensures forall i :: 0 <= i < |ws| ==> cs[i] == ChunkOf(ss, ws[i], source)
    decreases |ws|
  {
    if |ws| == 0 then []
    else
      assert Proper(ws[1..], |ss|) by {
        forall i | 0 <= i < |ws| - 1 ensures ws[1..][i] == ws[i + 1] {
        }
      }
      [ChunkOf(ss, ws[0], source)] + Emit(ss, ws[1..], source)
  }

  /** Lines 147-207 once the sentences are known: no sentences give no
      chunks; otherwise one chunk per window of the outer loop. */
  function BuildChunks(ss: seq<Sentence>, chunkSize: int, overlapSize: int, source: string): (cs: seq<Chunk>)
    ensures |cs| <= |ss|
    ensures |cs| == 0 <==> |ss| == 0
    ensures forall i :: 0 <= i < |cs| ==> cs[i].source == source
  {
    if |ss| == 0 then []
    else
      WindowsChain(ss, chunkSize, overlapSize, 0);
      Emit(ss, Windows(ss, chunkSize, overlapSize, 0), source)
  }

  /** The chunks are the windows' sentences: each is the space-join of its
      window's run of consecutive sentences, carries the page of the run's
      first sentence, and is at most `chunkSize` long when the run has two
      or more sentences. */
  predicate Describes(ss: seq<Sentence>, ws: seq<Window>, cs: seq<Chunk>, chunkSize: int) {
    && |cs| == |ws|
    && forall i :: 0 <= i < |cs| ==>
         && ws[i].start < ws[i].end <= |ss|
         && cs[i].content == Join(Texts(ss[ws[i].start..ws[i].end]), " ")
         && cs[i].page == ss[ws[i].start].page
         && (ws[i].end - ws[i].start >= 2 ==> |cs[i].content| <= chunkSize)
  }

  /** Size bound and page (lines 157-174): what every chunk holds. */
  lemma ChunksSpec(ss: seq<Sentence>, chunkSize: int, overlapSize: int, source: string)
    requires |ss| > 0
    ensures Describes(ss, Windows(ss, chunkSize, overlapSize, 0), BuildChunks(ss, chunkSize, overlapSize, source), chunkSize)
  {
    var ws := Windows(ss, chunkSize, overlapSize, 0);
    WindowsChain(ss, chunkSize, overlapSize, 0);
    forall i | 0 <= i < |ws|
      ensures Content(ss, ws[i].start, ws[i].end) == Join(Texts(ss[ws[i].start..ws[i].end]), " ")
    {
      ContentIsJoin(ss, ws[i].start, ws[i].end);
    }
  }

  /** A sentence longer than `chunkSize` is never packed with another one:
      every chunk holding it holds it alone. */
  lemma LongSentenceStandsAlone(ss: seq<Sentence>, chunkSize: int, overlapSize: int, i: nat, j: nat)
    requires j < |ss|
    requires i < |Windows(ss, chunkSize, overlapSize, 0)|
    requires Windows(ss, chunkSize, overlapSize, 0)[i].start <= j < Windows(ss, chunkSize, overlapSize, 0)[i].end
    requires |ss[j].text| > chunkSize
    ensures Windows(ss, chunkSize, overlapSize, 0)[i] == Window(j, j + 1)
  {
    var ws := Windows(ss, chunkSize, overlapSize, 0);
    WindowsChain(ss, chunkSize, overlapSize, 0);
    var w := ws[i];
    WeightSplit(ss, w.start, j, w.end);
    WeightSplit(ss, j, j + 1, w.end);
    WeightAtLeastCount(ss, w.start, j);
    WeightAtLeastCount(ss, j + 1, w.end);
  }

  /** Every sentence is in some chunk. */
  lemma ChunksCover(ss: seq<Sentence>, chunkSize: int, overlapSize: int, j: nat)
    requires j < |ss|
    ensures Covers(Windows(ss, chunkSize, overlapSize, 0), j)
  {
    WindowsChain(ss, chunkSize, overlapSize, 0);
    ChainCovers(Windows(ss, chunkSize, overlapSize, 0), |ss|, 0, j);
  }

  /** The inner loop of lines 163-166: the chunk grown from `start` and
      where it stopped. */
  method GrowChunk(ss: seq<Sentence>, chunkSize: int, start: nat) returns (end: nat, text: string)
    requires start < |ss|
    ensures end == ChunkEnd(ss, chunkSize, start)
    ensures text == Content(ss, start, end)
  {
    text := ss[start].text;
    end := start + 1;
    while end < |ss| && |text| + |ss[end].text| + 1 <= chunkSize
      invariant start < end <= |ss|
      invariant text == Content(ss, start, end)
      invariant Grow(ss, chunkSize, end, |text|) == ChunkEnd(ss, chunkSize, start)
      decreases |ss| - end
    {
      text := text + " " + ss[end].text;
      end := end + 1;
    }
  }

  /** The walk back of lines 182-191, returning `overlap_start_idx + 1`. */
  method WalkOverlap(ss: seq<Sentence>, overlapSize: int, start: nat, end: nat) returns (k: nat)
    requires start <= end <= |ss|
    ensures k == OverlapStart(ss, overlapSize, start, end)
  {
    var overlapChars := 0;
    var idx := end - 1;
    while idx >= start && overlapChars < overlapSize
      invariant start - 1 <= idx < end
      invariant WalkBack(ss, overlapSize, start, idx, overlapChars)
             == WalkBack(ss, overlapSize, start, end - 1, 0)
      decreases idx - start + 1
    {
      overlapChars := overlapChars + |ss[idx].text| + 1;
      idx := idx - 1;
    }
    k := idx + 1;
  }

  /** One turn of the outer loop: the chunk of the window from `start` is
      the next one owed, and the rest are owed from the next start unless
      this window reached the end. */
  lemma PackStep(ss: seq<Sentence>, chunkSize: int, overlapSize: int, source: string, start: nat,
                 done: seq<Chunk>, all: seq<Chunk>)
    requires start < |ss|
    requires Proper(Windows(ss, chunkSize, overlapSize, start), |ss|)
    requires done + Emit(ss, Windows(ss, chunkSize, overlapSize, start), source) == all
    ensures var e := ChunkEnd(ss, chunkSize, start);
            var next := done + [Chunk(Content(ss, start, e), ss[start].page, source)];
            && (e == |ss| ==> next == all)
            && (e < |ss| ==> Owed(ss, chunkSize, overlapSize, source, NextStart(ss, chunkSize, overlapSize, start), next, all))
  {
    var e := ChunkEnd(ss, chunkSize, start);
    var c := Chunk(Content(ss, start, e), ss[start].page, source);
    var ws := Windows(ss, chunkSize, overlapSize, start);
    if e < |ss| {
      var ns := NextStart(ss, chunkSize, overlapSize, start);
      WindowsChain(ss, chunkSize, overlapSize, ns);
      assert ws == [Window(start, e)] + Windows(ss, chunkSize, overlapSize, ns);
      assert ws[1..] == Windows(ss, chunkSize, overlapSize, ns);
      assert Emit(ss, ws, source) == [c] + Emit(ss, ws[1..], source);
      AppendAssociates(done, [c], Emit(ss, ws[1..], source));
    } else {
      assert ws == [Window(start, e)];
      assert Emit(ss, ws, source) == [c];
    }
  }

  /** The loop state: the chunks still owed are those of the windows from
      `i`, and with the chunks so far they make up all of them. */
  predicate Owed(ss: seq<Sentence>, chunkSize: int, overlapSize: int, source: string, i: nat,
                 chunks: seq<Chunk>, all: seq<Chunk>)
  {
    && i < |ss|
    && Proper(Windows(ss, chunkSize, overlapSize, i), |ss|)
    && chunks + Emit(ss, Windows(ss, chunkSize, overlapSize, i), source) == all
  }

  /** Before the outer loop every chunk is still owed. */
  lemma OwedAtStart(ss: seq<Sentence>, chunkSize: int, overlapSize: int, source: string)
    requires |ss| > 0
    ensures Owed(ss, chunkSize, overlapSize, source, 0, [], BuildChunks(ss, chunkSize, overlapSize, source))
  {
    WindowsChain(ss, chunkSize, overlapSize, 0);
    assert [] + Emit(ss, Windows(ss, chunkSize, overlapSize, 0), source) == BuildChunks(ss, chunkSize, overlapSize, source);
  }

  /** The outer loop of lines 155-207 as the source runs it, on a sentence
      list; it computes exactly `BuildChunks`. The exit at lines 203-204 is
      kept as written. */
  method PackChunks(ss: seq<Sentence>, chunkSize: int, overlapSize: int, source: string) returns (chunks: seq<Chunk>)
    ensures chunks == BuildChunks(ss, chunkSize, overlapSize, source)
  {
    chunks := [];
    if |ss| == 0 {
      return;
    }
    var total := |ss|;
    var i := 0;
    ghost var all := BuildChunks(ss, chunkSize, overlapSize, source);
    OwedAtStart(ss, chunkSize, overlapSize, source);
    while i < total
      invariant Owed(ss, chunkSize, overlapSize, source, i, chunks, all)
      decreases total - i
    {
      var startI := i;
      var currentPage := ss[i].page;
      var currentChunk;
      i, currentChunk := GrowChunk(ss, chunkSize, startI);
      PackStep(ss, chunkSize, overlapSize, source, startI, chunks, all);
      chunks := chunks + [Chunk(currentChunk, currentPage, source)];
      if i >= total {
        assert chunks == all;
        break;
      }
      var nextStart := WalkOverlap(ss, overlapSize, startI, i);
      if nextStart <= startI {
        nextStart := startI + 1;
      }
      assert nextStart == NextStart(ss, chunkSize, overlapSize, startI);
      // The exit of lines 203-204 is dead: the next start never passes the
      // current end, which is below `total` here.
      assert nextStart <= i < total;
      if nextStart >= total {
        break;
      }
      i := nextStart;
    }
  }

  /** `split_text_with_page`: the chunks of the paragraphs' sentences. */
  function SplitTextWithPage(paras: seq<Paragraph>, detect: string -> Option<string>,
                             chunkSize: int, overlapSize: int, source: string): seq<Chunk>
  {
    BuildChunks(Sentences(paras, detect), chunkSize, overlapSize, source)
  }

  /** Window starts strictly increase along a chain. */
  lemma {:induction false} ChainStartsIncrease(ws: seq<Window>, n: nat, start: nat, i: nat, j: nat)
    requires Chained(ws, n, start)
    requires i < j < |ws|
    ensures ws[i].start < ws[j].start
    decreases j - i
  {
    if j > i + 1 {
      ChainStartsIncrease(ws, n, start, i, j - 1);
    }
  }

  /** Sentences in page order give chunks in page order. */
  lemma ChunksInPageOrder(ss: seq<Sentence>, chunkSize: int, overlapSize: int, source: string)
    requires PagesInOrder(ss)
    ensures ChunkPagesInOrder(BuildChunks(ss, chunkSize, overlapSize, source))
  {
    if |ss| > 0 {
      var ws := Windows(ss, chunkSize, overlapSize, 0);
      var cs := BuildChunks(ss, chunkSize, overlapSize, source);
      WindowsChain(ss, chunkSize, overlapSize, 0);
      ChunksSpec(ss, chunkSize, overlapSize, source);
      forall i, j | 0 <= i < j < |cs| ensures cs[i].page <= cs[j].page {
        ChainStartsIncrease(ws, |ss|, 0, i, j);
        assert cs[i].page == ss[ws[i].start].page && cs[j].page == ss[ws[j].start].page;
      }
    }
  }

  predicate ChunkPagesInOrder(cs: seq<Chunk>) {
    forall i, j :: 0 <= i < j < |cs| ==> cs[i].page <= cs[j].page
  }

  predicate ChunksOnPages(cs: seq<Chunk>, pages: set<nat>) {
    forall i :: 0 <= i < |cs| ==> cs[i].page in pages
  }

  /** Every chunk's page is the page of one of the paragraphs, the chunks
      come in page order when the paragraphs do, and there are no chunks
      exactly when the paragraphs give no sentence. */
  lemma SplitTextWithPageSpec(paras: seq<Paragraph>, detect: string -> Option<string>,
                              chunkSize: int, overlapSize: int, source: string)
    ensures ChunksOnPages(SplitTextWithPage(paras, detect, chunkSize, overlapSize, source), PagesOf(paras))
    ensures ParagraphsInOrder(paras) ==> ChunkPagesInOrder(SplitTextWithPage(paras, detect, chunkSize, overlapSize, source))
    ensures SplitTextWithPage(paras, detect, chunkSize, overlapSize, source) == [] <==> Sentences(paras, detect) == []
  {
    var ss := Sentences(paras, detect);
    SentencesSpec(paras, detect);
    ChunksOnSentencePages(ss, chunkSize, overlapSize, source, PagesOf(paras));
    if ParagraphsInOrder(paras) {
      ChunksInPageOrder(ss, chunkSize, overlapSize, source);
    }
  }

  /** A chunk's page is the page of one of the sentences. */
  lemma ChunksOnSentencePages(ss: seq<Sentence>, chunkSize: int, overlapSize: int, source: string, pages: set<nat>)
    requires OnPages(ss, pages)
    ensures ChunksOnPages(BuildChunks(ss, chunkSize, overlapSize, source), pages)
  {
    if |ss| > 0 {
      var ws := Windows(ss, chunkSize, overlapSize, 0);
      var cs := BuildChunks(ss, chunkSize, overlapSize, source);
      ChunksSpec(ss, chunkSize, overlapSize, source);
      forall i | 0 <= i < |cs| ensures cs[i].page in pages {
        assert cs[i].page == ss[ws[i].start].page;
      }
    }
  }

  function FourSentences(): seq<Sentence> {
    [Paged(0, "AAAAA"), Paged(0, "BBBBB"), Paged(1, "CCCCC"), Paged(1, "DDDDD")]
  }

  /** Four sentences of five letters with a budget of 14 and an overlap of
      7: two sentences fit per chunk, the walk back reaches the chunk's
      start, and the clamp moves each next chunk on by one sentence. */
  lemma ThreeOverlappingChunks()
    ensures BuildChunks(FourSentences(), 14, 7, "f.pdf")
         == [Chunk("AAAAA BBBBB", 0, "f.pdf"), Chunk("BBBBB CCCCC", 0, "f.pdf"), Chunk("CCCCC DDDDD", 1, "f.pdf")]
  {
    FourSentencesWindows();
    FourSentencesEmit();
  }

  lemma FourSentencesEmit()
    ensures Emit(FourSentences(), [Window(0, 2), Window(1, 3), Window(2, 4)], "f.pdf")
         == [Chunk("AAAAA BBBBB", 0, "f.pdf"), Chunk("BBBBB CCCCC", 0, "f.pdf"), Chunk("CCCCC DDDDD", 1, "f.pdf")]
  {
    var ss := FourSentences();
    FourSentencesContents();
    var cs := Emit(ss, [Window(0, 2), Window(1, 3), Window(2, 4)], "f.pdf");
    assert cs[0] == Chunk("AAAAA BBBBB", 0, "f.pdf");
    assert cs[1] == Chunk("BBBBB CCCCC", 0, "f.pdf");
    assert cs[2] == Chunk("CCCCC DDDDD", 1, "f.pdf");
  }

  lemma FourSentencesWindows()
    ensures Windows(FourSentences(), 14, 7, 0) == [Window(0, 2), Window(1, 3), Window(2, 4)]
  {
    var ss := FourSentences();
    assert ChunkEnd(ss, 14, 0) == 2;
    assert NextStart(ss, 14, 7, 0) == 1;
    assert ChunkEnd(ss, 14, 1) == 3;
    assert NextStart(ss, 14, 7, 1) == 2;
    assert ChunkEnd(ss, 14, 2) == 4;
  }

  lemma FourSentencesContents()
    ensures Content(FourSentences(), 0, 2) == "AAAAA BBBBB"
    ensures Content(FourSentences(), 1, 3) == "BBBBB CCCCC"
    ensures Content(FourSentences(), 2, 4) == "CCCCC DDDDD"
  {
    var ss := FourSentences();
    assert Content(ss, 0, 2) == "AAAAA" + " " + "BBBBB";
    assert Content(ss, 1, 3) == "BBBBB" + " " + "CCCCC";
    assert Content(ss, 2, 4) == "CCCCC" + " " + "DDDDD";
  }

  /** A chunk can lie wholly inside its predecessor: after "a b c" the walk
      back keeps only "c", and "c" cannot be joined with the long sentence
      that follows, so the second chunk repeats it and adds nothing new. */
  lemma ChunkInsidePredecessor()
    ensures var ss := [Paged(0, "a"), Paged(0, "b"), Paged(0, "c"), Paged(0, "DDDDDDDDDD")];
            Windows(ss, 5, 2, 0) == [Window(0, 3), Window(2, 3), Window(3, 4)]
  {
    var ss := [Paged(0, "a"), Paged(0, "b"), Paged(0, "c"), Paged(0, "DDDDDDDDDD")];
    assert ChunkEnd(ss, 5, 0) == 3;
    assert NextStart(ss, 5, 2, 0) == 2;
    assert ChunkEnd(ss, 5, 2) == 3;
    assert NextStart(ss, 5, 2, 2) == 3;
    assert ChunkEnd(ss, 5, 3) == 4;
  }
}
