/** Paragraph reconstruction (`extract_paragraphs_by_page`): per page, the
    right-trimmed lines are merged into paragraphs, with short lines acting as
    paragraph breaks. PDF parsing is outside the model: each page arrives as
    the sequence of texts of its text containers, in layout order. */
module Paragraphs {
  import opened Text
  import opened Wrappers

  /** A text and the index of the page it was found on: the source keeps
      both its paragraphs and its sentences as such (page, text) pairs. */
  datatype Paged = Paged(page: nat, text: string)

  type Paragraph = Paged

  /** The texts of a list of paged texts, in order. */
  function Texts(xs: seq<Paged>): (ts: seq<string>)
    ensures |ts| == |xs|
    ensures forall i :: 0 <= i < |xs| ==> ts[i] == xs[i].text
  {
    seq(|xs|, i requires 0 <= i < |xs| => xs[i].text)
  }

  /** The lines of one page: the container texts joined with newlines and
      split on newlines again. */
  function PageLines(containers: seq<string>): (lines: seq<string>)
    ensures |lines| >= 1
    ensures forall i :: 0 <= i < |lines| ==> '\n' !in lines[i]
    ensures Join(lines, "\n") == Join(containers, "\n")
  {
    SplitOn(Join(containers, "\n"), '\n')
  }

  /** Containers that hold one line each are exactly the page's lines. */
  lemma PageLinesOfSingleLines(containers: seq<string>)
    requires |containers| >= 1
    requires forall i :: 0 <= i < |containers| ==> '\n' !in containers[i]
    ensures PageLines(containers) == containers
  {
    SplitOnJoin(containers, '\n');
  }

  /** A page takes part unless an allowlist is given and does not contain it. */
  predicate Selected(pageNumbers: Option<seq<int>>, page: nat) {
    pageNumbers.None? || page in pageNumbers.value
  }

  /** Adds one effective (already right-trimmed) line to the buffer: a line
      ending in '-' loses its hyphens at both ends and is glued on; any other
      line is separated from a non-empty buffer by one space. */
  function AppendLine(buffer: string, text: string): string {
    if EndsWith(text, '-') then buffer + StripChar(text, '-')
    else if buffer != "" then buffer + " " + text
    else text
  }

  /** The buffer as a one-element list of paragraphs, or none if it is empty. */
  function Flush(buffer: string): seq<string> {
    if buffer != "" then [buffer] else []
  }

  /** The line loop of one page, starting with `buffer` already collected. */
  function MergeLines(lines: seq<string>, minLineLength: int, buffer: string): (paras: seq<string>)
    ensures forall i :: 0 <= i < |paras| ==> paras[i] != ""
    ensures |paras| <= |lines| + 1
    decreases |lines|
  {
    if |lines| == 0 then Flush(buffer)
    else
      var text := RStrip(lines[0]);
      if |text| >= minLineLength then MergeLines(lines[1..], minLineLength, AppendLine(buffer, text))
      else Flush(buffer) + MergeLines(lines[1..], minLineLength, "")
  }

  /** The paragraphs of one page's container texts. */
  function PageParagraphs(containers: seq<string>, minLineLength: int): seq<string> {
    MergeLines(PageLines(containers), minLineLength, "")
  }

  function Tag(page: nat, texts: seq<string>): (ps: seq<Paragraph>)
    ensures |ps| == |texts|
    ensures forall i :: 0 <= i < |ps| ==> ps[i] == Paged(page, texts[i])
  {
    seq(|texts|, i requires 0 <= i < |texts| => Paged(page, texts[i]))
  }

  /** The page loop from page `first` on. */
  function ExtractFrom(pages: seq<seq<string>>, pageNumbers: Option<seq<int>>, minLineLength: int, first: nat): seq<Paragraph>
    requires first <= |pages|
    decreases |pages| - first
  {
    if first == |pages| then []
    else
      var rest := ExtractFrom(pages, pageNumbers, minLineLength, first + 1);
      if !Selected(pageNumbers, first) then rest
      else Tag(first, PageParagraphs(pages[first], minLineLength)) + rest
  }

  /** Every paragraph is non-empty and comes from a selected page in
      `lo..hi`, and pages never go backwards along the list. */
  predicate WellTagged(ps: seq<Paragraph>, pageNumbers: Option<seq<int>>, lo: nat, hi: nat) {
    && (forall i :: 0 <= i < |ps| ==> lo <= ps[i].page < hi && Selected(pageNumbers, ps[i].page) && ps[i].text != "")
    && (forall i, j :: 0 <= i < j < |ps| ==> ps[i].page <= ps[j].page)
  }

  lemma {:induction false} ExtractFromWellTagged(pages: seq<seq<string>>, pageNumbers: Option<seq<int>>, minLineLength: int, first: nat)
    requires first <= |pages|
    ensures WellTagged(ExtractFrom(pages, pageNumbers, minLineLength, first), pageNumbers, first, |pages|)
    decreases |pages| - first
  {
    if first < |pages| {
      ExtractFromWellTagged(pages, pageNumbers, minLineLength, first + 1);
      var rest := ExtractFrom(pages, pageNumbers, minLineLength, first + 1);
      if Selected(pageNumbers, first) {
        var texts := PageParagraphs(pages[first], minLineLength);
        assert ExtractFrom(pages, pageNumbers, minLineLength, first) == Tag(first, texts) + rest;
        WellTaggedCons(texts, rest, pageNumbers, first, |pages|);
      }
    }
  }

  /** A selected page's paragraphs in front of well-tagged later pages. */
  lemma WellTaggedCons(texts: seq<string>, rest: seq<Paragraph>, pageNumbers: Option<seq<int>>, first: nat, hi: nat)
    requires first < hi && Selected(pageNumbers, first)
    requires forall i :: 0 <= i < |texts| ==> texts[i] != ""
    requires WellTagged(rest, pageNumbers, first + 1, hi)
    ensures WellTagged(Tag(first, texts) + rest, pageNumbers, first, hi)
  {
    var own := Tag(first, texts);
    var ps := own + rest;
    forall i, j | 0 <= i < j < |ps| ensures ps[i].page <= ps[j].page {
      if j < |own| {
        assert ps[i] == own[i] && ps[j] == own[j];
      } else if i < |own| {
        assert ps[i] == own[i] && ps[j] == rest[j - |own|];
      } else {
        assert ps[i] == rest[i - |own|] && ps[j] == rest[j - |own|];
      }
    }
    forall i | 0 <= i < |ps| ensures first <= ps[i].page < hi && Selected(pageNumbers, ps[i].page) && ps[i].text != "" {
      if i < |own| {
        assert ps[i] == own[i];
      } else {
        assert ps[i] == rest[i - |own|];
      }
    }
  }

  /** `extract_paragraphs_by_page` over already extracted pages: page `p` of
      the document is `pages[p]`. */
  function ExtractParagraphs(pages: seq<seq<string>>, pageNumbers: Option<seq<int>>, minLineLength: int): (ps: seq<Paragraph>)
    ensures forall i :: 0 <= i < |ps| ==> ps[i].page < |pages| && Selected(pageNumbers, ps[i].page) && ps[i].text != ""
    ensures forall i, j :: 0 <= i < j < |ps| ==> ps[i].page <= ps[j].page
  {
    ExtractFromWellTagged(pages, pageNumbers, minLineLength, 0);
    ExtractFrom(pages, pageNumbers, minLineLength, 0)
  }

  // A reference reading of the line loop: a page's paragraphs are the
  // non-empty merges of its maximal runs of effective lines.

  /** The right-trimmed lines of a page cut at every short line into runs of
      effective lines; adjacent short lines give empty runs. */
  function Runs(lines: seq<string>, minLineLength: int): (runs: seq<seq<string>>)
    ensures |runs| >= 1
    ensures forall i, j :: 0 <= i < |runs| && 0 <= j < |runs[i]| ==> |runs[i][j]| >= minLineLength
    decreases |lines|
  {
    if |lines| == 0 then [[]]
    else
      var rest := Runs(lines[1..], minLineLength);
      var text := RStrip(lines[0]);
      if |text| >= minLineLength then [[text] + rest[0]] + rest[1..] else [[]] + rest
  }

  /** Appends the lines of a run to `buffer`, one after the other. */
  function Fold(buffer: string, run: seq<string>): string
    decreases |run|
  {
    if |run| == 0 then buffer else Fold(AppendLine(buffer, run[0]), run[1..])
  }

  /** The merge of every run, dropping the empty merges. */
  function NonEmptyMerges(runs: seq<seq<string>>): seq<string>
    decreases |runs|
  {
    if |runs| == 0 then [] else Flush(Fold("", runs[0])) + NonEmptyMerges(runs[1..])
  }

  /** The line loop with a buffer in hand finishes the first run from that
      buffer, then emits the merge of each later run. */
  lemma {:induction false} MergeLinesByRuns(lines: seq<string>, minLineLength: int, buffer: string)
    ensures var runs := Runs(lines, minLineLength);
            MergeLines(lines, minLineLength, buffer) == Flush(Fold(buffer, runs[0])) + NonEmptyMerges(runs[1..])
    decreases |lines|
  {
    if |lines| > 0 {
      var rest := Runs(lines[1..], minLineLength);
      var text := RStrip(lines[0]);
      var runs := Runs(lines, minLineLength);
      if |text| >= minLineLength {
        MergeLinesByRuns(lines[1..], minLineLength, AppendLine(buffer, text));
        assert runs[0][1..] == rest[0];
        assert runs[1..] == rest[1..];
      } else {
        MergeLinesByRuns(lines[1..], minLineLength, "");
        assert runs[1..] == rest;
      }
    }
  }

  /** A page's paragraphs are the non-empty merges of its runs of effective lines. */
  lemma PageParagraphsByRuns(containers: seq<string>, minLineLength: int)
    ensures PageParagraphs(containers, minLineLength) == NonEmptyMerges(Runs(PageLines(containers), minLineLength))
  {
    MergeLinesByRuns(PageLines(containers), minLineLength, "");
  }

  lemma JoinFirstTwo(b: string, x: string, rest: seq<string>, sep: string)
    ensures Join([b + sep + x] + rest, sep) == Join([b, x] + rest, sep)
  {
    var l := [b, x] + rest;
    assert l[1..] == [x] + rest;
    if |rest| > 0 {
      assert ([b + sep + x] + rest)[1..] == rest;
      assert ([x] + rest)[1..] == rest;
    }
  }

  /** Without hyphenated line ends, appending a run to a non-empty buffer
      is joining everything with single spaces. */
  lemma {:induction false} FoldWithoutHyphens(buffer: string, run: seq<string>)
    requires buffer != ""
    requires forall i :: 0 <= i < |run| ==> !EndsWith(run[i], '-')
    ensures Fold(buffer, run) == Join([buffer] + run, " ")
    decreases |run|
  {
    if |run| > 0 {
      var next := buffer + " " + run[0];
      FoldWithoutHyphens(next, run[1..]);
      JoinFirstTwo(buffer, run[0], run[1..], " ");
      assert [buffer, run[0]] + run[1..] == [buffer] + run;
    }
  }

  /** A paragraph made of non-empty lines none of which ends in '-' is those
      lines joined by single spaces. */
  lemma MergeWithoutHyphens(run: seq<string>)
    requires |run| >= 1
    requires forall i :: 0 <= i < |run| ==> run[i] != "" && !EndsWith(run[i], '-')
    ensures Fold("", run) == Join(run, " ")
  {
    FoldWithoutHyphens(run[0], run[1..]);
    assert [run[0]] + run[1..] == run;
  }

  /** The lines of a run without their hyphens, glued together. */
  function Glued(run: seq<string>): string
    decreases |run|
  {
    if |run| == 0 then "" else StripChar(run[0], '-') + Glued(run[1..])
  }

  /** Every line ends in '-'. */
  predicate Hyphenated(run: seq<string>) {
    forall i :: 0 <= i < |run| ==> EndsWith(run[i], '-')
  }

  lemma HyphenatedTail(run: seq<string>)
    requires |run| > 0 && Hyphenated(run)
    ensures EndsWith(run[0], '-') && Hyphenated(run[1..])
  {
    assert forall i :: 0 <= i < |run| - 1 ==> run[1..][i] == run[i + 1];
  }

  /** Lines that all end in '-' are glued onto the buffer one after the
      other, each without its hyphens and with no separator at all. */
  lemma {:induction false} FoldHyphenated(buffer: string, run: seq<string>)
    requires Hyphenated(run)
    ensures Fold(buffer, run) == buffer + Glued(run)
    decreases |run|
  {
    if |run| > 0 {
      var head := StripChar(run[0], '-');
      var glued := Glued(run[1..]);
      HyphenatedTail(run);
      assert Fold(buffer, run) == Fold(buffer + head, run[1..]);
      assert Glued(run) == head + glued;
      FoldHyphenated(buffer + head, run[1..]);
      AppendAssociates(buffer, head, glued);
    }
  }

  /** Texts of the paragraphs tagged with page `p`, in order. */
  function TextsOnPage(ps: seq<Paragraph>, p: nat): seq<string>
    decreases |ps|
  {
    if |ps| == 0 then [] else (if ps[0].page == p then [ps[0].text] else []) + TextsOnPage(ps[1..], p)
  }

  lemma {:induction false} TextsOnPageAppend(a: seq<Paragraph>, b: seq<Paragraph>, p: nat)
    ensures TextsOnPage(a + b, p) == TextsOnPage(a, p) + TextsOnPage(b, p)
    decreases |a|
  {
    if |a| > 0 {
      assert (a + b)[1..] == a[1..] + b;
      TextsOnPageAppend(a[1..], b, p);
    } else {
      assert a + b == b;
    }
  }

  lemma {:induction false} TextsOnPageTag(q: nat, texts: seq<string>, p: nat)
    ensures TextsOnPage(Tag(q, texts), p) == if q == p then texts else []
    decreases |texts|
  {
    if |texts| > 0 {
      assert Tag(q, texts)[1..] == Tag(q, texts[1..]);
      TextsOnPageTag(q, texts[1..], p);
    }
  }

  /** The paragraph texts page `p` contributes to the output: its own
      paragraphs when it exists and is selected, and none otherwise. */
  function PageOutput(pages: seq<seq<string>>, pageNumbers: Option<seq<int>>, minLineLength: int, p: nat): seq<string> {
    if p < |pages| && Selected(pageNumbers, p) then PageParagraphs(pages[p], minLineLength) else []
  }

  /** The outputs of every page, in page order. */
  function PageOutputs(pages: seq<seq<string>>, pageNumbers: Option<seq<int>>, minLineLength: int): (outs: seq<seq<string>>)
    ensures |outs| == |pages|
  {
    seq(|pages|, k requires 0 <= k < |pages| => PageOutput(pages, pageNumbers, minLineLength, k))
  }

  /** Given page outputs `outs`, each page's paragraphs tagged with its index,
      from page `first` on. */
  function Assemble(outs: seq<seq<string>>, first: nat): seq<Paragraph>
    requires first <= |outs|
    decreases |outs| - first
  {
    if first == |outs| then [] else Tag(first, outs[first]) + Assemble(outs, first + 1)
  }

  /** The page loop assembles the page outputs. */
  lemma {:induction false} ExtractFromIsAssemble(pages: seq<seq<string>>, pageNumbers: Option<seq<int>>, minLineLength: int, first: nat)
    requires first <= |pages|
    ensures ExtractFrom(pages, pageNumbers, minLineLength, first)
         == Assemble(PageOutputs(pages, pageNumbers, minLineLength), first)
    decreases |pages| - first
  {
    if first < |pages| {
      var outs := PageOutputs(pages, pageNumbers, minLineLength);
      ExtractFromIsAssemble(pages, pageNumbers, minLineLength, first + 1);
      ExtractFromOwn(pages, pageNumbers, minLineLength, first);
      assert outs[first] == PageOutput(pages, pageNumbers, minLineLength, first);
      assert Assemble(outs, first) == Tag(first, outs[first]) + Assemble(outs, first + 1);
    }
  }

  /** The page loop puts page `first`'s own paragraphs in front of the later
      pages' ones. */
  lemma ExtractFromOwn(pages: seq<seq<string>>, pageNumbers: Option<seq<int>>, minLineLength: int, first: nat)
    requires first < |pages|
    ensures ExtractFrom(pages, pageNumbers, minLineLength, first)
         == Tag(first, PageOutput(pages, pageNumbers, minLineLength, first)) + ExtractFrom(pages, pageNumbers, minLineLength, first + 1)
  {
    if !Selected(pageNumbers, first) {
      assert Tag(first, []) == [];
    }
  }

  /** From page `first` on, the texts tagged with page `p` are page `p`'s
      output when `p` is among those pages, and none otherwise. */
  lemma {:induction false} AssembleByPage(outs: seq<seq<string>>, first: nat, p: nat)
    requires first <= |outs|
    ensures TextsOnPage(Assemble(outs, first), p) == if first <= p < |outs| then outs[p] else []
    decreases |outs| - first
  {
    if first < |outs| {
      var own := Tag(first, outs[first]);
      var rest := Assemble(outs, first + 1);
      AssembleByPage(outs, first + 1, p);
      TextsOnPageAppend(own, rest, p);
      TextsOnPageTag(first, outs[first], p);
      PageSlot(TextsOnPage(own + rest, p), TextsOnPage(own, p), TextsOnPage(rest, p),
               if p < |outs| then outs[p] else [], first, p, |outs|);
    }
  }

  /** Page `p`'s share of the output from page `first` on, from its share of
      page `first`'s paragraphs and of the later pages' ones. */
  lemma PageSlot(here: seq<string>, own: seq<string>, later: seq<string>, out: seq<string>, first: nat, p: nat, n: nat)
    requires first < n
    requires here == own + later
    requires own == if p == first then out else []
    requires later == if first + 1 <= p < n then out else []
    ensures here == if first <= p < n then out else []
  {
    if p == first {
      assert here == out + [];
    } else {
      assert here == [] + later;
    }
  }

  /** Page by page, the output holds exactly the paragraphs of the selected
      pages: a selected page contributes its own paragraphs, in order; a page
      outside the allowlist contributes nothing. */
  lemma ExtractFromByPage(pages: seq<seq<string>>, pageNumbers: Option<seq<int>>, minLineLength: int, first: nat, p: nat)
    requires first <= |pages|
    ensures TextsOnPage(ExtractFrom(pages, pageNumbers, minLineLength, first), p)
         == if first <= p then PageOutput(pages, pageNumbers, minLineLength, p) else []
  {
    var outs := PageOutputs(pages, pageNumbers, minLineLength);
    ExtractFromIsAssemble(pages, pageNumbers, minLineLength, first);
    AssembleByPage(outs, first, p);
    if first <= p && p >= |pages| {
      assert PageOutput(pages, pageNumbers, minLineLength, p) == [];
    }
  }

  /** One turn of the page loop, seen from page `p`. */
  lemma ExtractFromStep(pages: seq<seq<string>>, pageNumbers: Option<seq<int>>, minLineLength: int, first: nat, p: nat)
    requires first < |pages|
    ensures TextsOnPage(ExtractFrom(pages, pageNumbers, minLineLength, first), p)
         == (if p == first then PageOutput(pages, pageNumbers, minLineLength, p) else [])
            + TextsOnPage(ExtractFrom(pages, pageNumbers, minLineLength, first + 1), p)
  {
    var rest := ExtractFrom(pages, pageNumbers, minLineLength, first + 1);
    var own := OwnParagraphs(pages, pageNumbers, minLineLength, first);
    assert ExtractFrom(pages, pageNumbers, minLineLength, first) == own + rest;
    TextsOnPageAppend(own, rest, p);
    var texts := PageOutput(pages, pageNumbers, minLineLength, first);
    TextsOnPageTag(first, texts, p);
  }

  /** The paragraphs page `first` adds to the output. */
  function OwnParagraphs(pages: seq<seq<string>>, pageNumbers: Option<seq<int>>, minLineLength: int, first: nat): seq<Paragraph>
    requires first < |pages|
  {
    Tag(first, PageOutput(pages, pageNumbers, minLineLength, first))
  }

  lemma ExtractParagraphsByPage(pages: seq<seq<string>>, pageNumbers: Option<seq<int>>, minLineLength: int, p: nat)
    ensures TextsOnPage(ExtractParagraphs(pages, pageNumbers, minLineLength), p)
         == if p < |pages| && Selected(pageNumbers, p) then PageParagraphs(pages[p], minLineLength) else []
  {
    ExtractFromByPage(pages, pageNumbers, minLineLength, 0, p);
  }

  /** As written, the space is dropped before a hyphen-ended line rather than
      after it, so a word wrapped with a hyphen stays split by a space. */
  lemma HyphenatedWrapKeepsSpace()
    ensures MergeLines(["Hello wor-", "ld today.", "", "Next para."], 1, "") == ["Hello wor ld today.", "Next para."]
  {
    var lines := ["Hello wor-", "ld today.", "", "Next para."];
    HyphenLine();
    PlainLines();
    assert lines[1..][1..][1..][1..] == [];
    calc {
      MergeLines(lines, 1, "");
      MergeLines(lines[1..], 1, "Hello wor");
      MergeLines(lines[1..][1..], 1, "Hello wor ld today.");
      ["Hello wor ld today."] + MergeLines(lines[1..][1..][1..], 1, "");
      ["Hello wor ld today."] + MergeLines(lines[1..][1..][1..][1..], 1, "Next para.");
      ["Hello wor ld today.", "Next para."];
    }
  }

  lemma HyphenLine()
    ensures RStrip("Hello wor-") == "Hello wor-"
    ensures AppendLine("", "Hello wor-") == "Hello wor"
  {
    assert DropLastWhile("Hello wor-", Only('-')) == "Hello wor";
  }

  lemma PlainLines()
    ensures RStrip("ld today.") == "ld today."
    ensures AppendLine("Hello wor", "ld today.") == "Hello wor ld today."
    ensures RStrip("") == ""
    ensures RStrip("Next para.") == "Next para."
    ensures AppendLine("", "Next para.") == "Next para."
  {
  }
}
