/** Sentence segmentation (`sent_tokenize`). The language detector is outside
    the model and arrives as its answer: `Some(tag)`, or `None` when it raised.
    The two regular expressions of the source are written out as explicit
    cut points over the text. */
module Segmenter {
  import opened Text
  import opened Wrappers

  /** The two segmentation strategies; one is chosen per paragraph. */
  datatype Script = Cjk | Latin

  /** The language tag in use: the detector's answer, or "en" when it failed. */
  function Language(detected: Option<string>): string {
    match detected
    case Some(tag) => tag
    case None => "en"
  }

  function ScriptOf(lang: string): Script {
    if StartsWith(lang, "zh") then Cjk else Latin
  }

  /** The class `[。！？；!?]` after which Chinese text is cut. */
  predicate IsCjkMark(c: char) {
    c == '。' || c == '！' || c == '？' || c == '；' || c == '!' || c == '?'
  }

  /** The look-behind class `[.!?]` of the Latin patterns. */
  predicate IsTerminal(c: char) {
    c == '.' || c == '!' || c == '?'
  }

  /** The look-ahead class `[A-Z"'“]` of the strict Latin pattern. */
  predicate IsOpener(c: char) {
    ('A' <= c <= 'Z') || c == '"' || c == '\'' || c == '“'
  }

  /** A sentence as returned: non-empty, with no whitespace at either end. */
  predicate Trimmed(t: string) {
    t != "" && !IsSpace(t[0]) && !IsSpace(t[|t| - 1])
  }

  // ---------------------------------------------------------------------
  // Chinese: `re.split(r'(?<=[。！？；!?])', text)`

  /** No mark anywhere except, possibly, at the last position. */
  predicate MarksOnlyAtEnd(t: string) {
    forall j :: 0 <= j < |t| - 1 ==> !IsCjkMark(t[j])
  }

  predicate EndsInMark(t: string) {
    |t| > 0 && IsCjkMark(t[|t| - 1])
  }

  predicate MarkFree(t: string) {
    forall j :: 0 <= j < |t| ==> !IsCjkMark(t[j])
  }

  /** The text cut immediately after every mark: the pieces reassemble the
      text, every piece but the last ends in a mark, no piece holds a mark
      before its end, and the last piece holds none. */
  function CjkPieces(s: string): (r: seq<string>)
    ensures |r| >= 1
    ensures Concat(r) == s
    ensures MarkStructured(r)
    ensures MarkFree(r[|r| - 1])
    decreases |s|
  {
    if |s| == 0 then [""]
    else
      var rest := CjkPieces(s[1..]);
      assert s == [s[0]] + s[1..];
      if IsCjkMark(s[0]) then
        MarkPieceCons(s[0], rest);
        [[s[0]]] + rest
      else
        GluePieceCons(s[0], rest);
        [[s[0]] + rest[0]] + rest[1..]
  }

  /** A mark on its own in front of cut pieces. */
  lemma MarkPieceCons(c: char, rest: seq<string>)
    requires IsCjkMark(c)
    requires |rest| >= 1 && MarkStructured(rest) && MarkFree(rest[|rest| - 1])
    ensures var r := [[c]] + rest;
            |r| >= 1 && Concat(r) == [c] + Concat(rest) && MarkStructured(r) && MarkFree(r[|r| - 1])
  {
    var r := [[c]] + rest;
    assert r[1..] == rest;
    forall i | 1 <= i < |r| ensures r[i] == rest[i - 1] {
    }
  }

  /** A character that is no mark joins the first of the cut pieces. */
  lemma GluePieceCons(c: char, rest: seq<string>)
    requires !IsCjkMark(c)
    requires |rest| >= 1 && MarkStructured(rest) && MarkFree(rest[|rest| - 1])
    ensures var r := [[c] + rest[0]] + rest[1..];
            |r| >= 1 && Concat(r) == [c] + Concat(rest) && MarkStructured(r) && MarkFree(r[|r| - 1])
  {
    var head := [c] + rest[0];
    var r := [head] + rest[1..];
    GlueHead(c, rest[0]);
    assert Concat(r) == [c] + Concat(rest) by {
      assert Concat(rest) == rest[0] + Concat(rest[1..]);
      assert r[1..] == rest[1..];
      AppendAssociates([c], rest[0], Concat(rest[1..]));
    }
    forall i | 0 <= i < |r| ensures MarksOnlyAtEnd(r[i]) && (i < |r| - 1 ==> EndsInMark(r[i])) {
      if i > 0 {
        assert r[i] == rest[i];
      }
    }
    if |rest| == 1 {
      assert r[|r| - 1] == head;
    } else {
      assert r[|r| - 1] == rest[|rest| - 1];
    }
  }

  /** Putting a character that is no mark in front of a piece keeps where its
      marks are. */
  lemma GlueHead(c: char, t: string)
    requires !IsCjkMark(c)
    ensures MarksOnlyAtEnd(t) ==> MarksOnlyAtEnd([c] + t)
    ensures EndsInMark(t) ==> EndsInMark([c] + t)
    ensures MarkFree(t) ==> MarkFree([c] + t)
  {
    var h := [c] + t;
    forall j | 1 <= j < |h| ensures h[j] == t[j - 1] {
    }
  }

  // ---------------------------------------------------------------------
  // Latin: `re.split(r'(?<=[.!?])\s+(?=[A-Z"\'“])', text)` and the looser
  // `re.split(r'(?<=[.!?])\s+', text)`

  /** A matched separator `s[lo..hi]`, removed by the split. */
  datatype Gap = Gap(lo: nat, hi: nat)

  /** `s[lo..hi]` is a match of the Latin pattern: a maximal whitespace run
      right after a terminal mark, which under the strict pattern must also be
      followed by an opener. (The greedy `\s+` can only succeed on the whole
      run, since a shorter run leaves whitespace under the look-ahead.) */
  predicate IsCut(s: string, lo: nat, hi: nat, strict: bool) {
    && 0 < lo < hi <= |s|
    && IsTerminal(s[lo - 1])
    && AllSpace(s[lo..hi])
    && (hi == |s| || !IsSpace(s[hi]))
    && (strict ==> hi < |s| && IsOpener(s[hi]))
  }

  /** Gaps in order, not overlapping, inside `s`, after position `from`. */
  predicate Chain(s: string, gs: seq<Gap>, from: nat)
    decreases |gs|
  {
    && from <= |s|
    && (|gs| == 0 || (from <= gs[0].lo <= gs[0].hi <= |s| && Chain(s, gs[1..], gs[0].hi)))
  }

  /** Every gap lies inside `s` and covers only whitespace. */
  predicate SpaceGaps(s: string, gs: seq<Gap>) {
    forall k :: 0 <= k < |gs| ==> gs[k].lo <= gs[k].hi <= |s| && AllSpace(s[gs[k].lo..gs[k].hi])
  }

  /** The end of the whitespace run starting at `i`. */
  function RunEnd(s: string, i: nat): (j: nat)
    requires i <= |s|
    ensures i <= j <= |s|
    ensures forall k :: i <= k < j ==> IsSpace(s[k])
    ensures j == |s| || !IsSpace(s[j])
    decreases |s| - i
  {
    if i < |s| && IsSpace(s[i]) then RunEnd(s, i + 1) else i
  }

  /** A whitespace run has one maximal end. */
  lemma RunEndUnique(s: string, i: nat, j: nat)
    requires i <= j <= |s|
    requires AllSpace(s[i..j]) && (j == |s| || !IsSpace(s[j]))
    ensures RunEnd(s, i) == j
  {
  }

  lemma TerminalIsNotSpace(c: char)
    requires IsTerminal(c)
    ensures !IsSpace(c)
  {
  }

  /** A cut starts with whitespace. */
  lemma CutStartsWithSpace(s: string, lo: nat, hi: nat, strict: bool)
    requires IsCut(s, lo, hi, strict)
    ensures IsSpace(s[lo])
  {
    assert s[lo..hi][0] == s[lo];
  }

  /** The matches of the pattern at or after position `cur`, left to right:
      exactly the cuts that start there. */
  function CutsFrom(s: string, strict: bool, cur: nat): (gs: seq<Gap>)
    requires cur <= |s|
    ensures Chain(s, gs, cur)
    ensures forall k :: 0 <= k < |gs| ==> IsCut(s, gs[k].lo, gs[k].hi, strict)
    ensures forall lo: nat, hi: nat :: cur <= lo && IsCut(s, lo, hi, strict) ==> Gap(lo, hi) in gs
    decreases |s| - cur
  {
    if cur == |s| then []
    else if 0 < cur && IsTerminal(s[cur - 1]) && IsSpace(s[cur]) then
      var hi := RunEnd(s, cur);
      assert AllSpace(s[cur..hi]);
      if !strict || (hi < |s| && IsOpener(s[hi])) then
        var rest := CutsFrom(s, strict, hi);
        var gs := [Gap(cur, hi)] + rest;
        assert gs[1..] == rest;
        CutHereFound(s, strict, cur, rest);
        gs
      else
        var rest := CutsFrom(s, strict, cur + 1);
        NoCutHereSkipped(s, strict, cur, rest);
        rest
    else
      var rest := CutsFrom(s, strict, cur + 1);
      NoCutHereSkipped(s, strict, cur, rest);
      rest
  }

  /** When the run at `cur` is a match, it and the matches after it are all
      the matches from `cur`. */
  lemma CutHereFound(s: string, strict: bool, cur: nat, rest: seq<Gap>)
    requires 0 < cur < |s| && IsTerminal(s[cur - 1]) && IsSpace(s[cur])
    requires forall lo: nat, h: nat :: RunEnd(s, cur) <= lo && IsCut(s, lo, h, strict) ==> Gap(lo, h) in rest
    ensures forall lo: nat, h: nat :: cur <= lo && IsCut(s, lo, h, strict) ==> Gap(lo, h) in [Gap(cur, RunEnd(s, cur))] + rest
  {
    var hi := RunEnd(s, cur);
    forall lo: nat, h: nat | cur <= lo && IsCut(s, lo, h, strict)
      ensures Gap(lo, h) in [Gap(cur, hi)] + rest
    {
      if lo == cur {
        RunEndUnique(s, lo, h);
      } else if lo < hi {
        assert IsSpace(s[lo - 1]);
        TerminalIsNotSpace(s[lo - 1]);
      }
    }
  }

  /** When no match starts at `cur`, the matches after it are all the
      matches from `cur`. */
  lemma NoCutHereSkipped(s: string, strict: bool, cur: nat, rest: seq<Gap>)
    requires cur < |s|
    requires !(0 < cur && IsTerminal(s[cur - 1]) && IsSpace(s[cur]))
          || (strict && !(RunEnd(s, cur) < |s| && IsOpener(s[RunEnd(s, cur)])))
    requires forall lo: nat, h: nat :: cur + 1 <= lo && IsCut(s, lo, h, strict) ==> Gap(lo, h) in rest
    ensures forall lo: nat, h: nat :: cur <= lo && IsCut(s, lo, h, strict) ==> Gap(lo, h) in rest
  {
    forall lo: nat, h: nat | cur <= lo && IsCut(s, lo, h, strict)
      ensures Gap(lo, h) in rest
    {
      CutStartsWithSpace(s, lo, h, strict);
      if lo == cur && 0 < cur && IsTerminal(s[cur - 1]) && IsSpace(s[cur]) {
        RunEndUnique(s, lo, h);
      }
    }
  }

  /** The texts the gaps cover, in order. */
  function GapTexts(s: string, gs: seq<Gap>, from: nat): (ts: seq<string>)
    requires Chain(s, gs, from)
    ensures |ts| == |gs|
    decreases |gs|
  {
    if |gs| == 0 then [] else [s[gs[0].lo..gs[0].hi]] + GapTexts(s, gs[1..], gs[0].hi)
  }

  /** `ps[0] + seps[0] + ps[1] + ... + seps[n-1] + ps[n]`. */
  function Interleave(ps: seq<string>, seps: seq<string>): string
    requires |ps| == |seps| + 1
    decreases |seps|
  {
    if |seps| == 0 then ps[0] else ps[0] + seps[0] + Interleave(ps[1..], seps[1..])
  }

  /** The pieces of `s[from..]` left between the gaps (`re.split`): put back
      together with the gap texts between them, they rebuild `s[from..]`. */
  function Pieces(s: string, gs: seq<Gap>, from: nat): (ps: seq<string>)
    requires Chain(s, gs, from)
    ensures |ps| == |gs| + 1
    ensures Interleave(ps, GapTexts(s, gs, from)) == s[from..]
    decreases |gs|
  {
    if |gs| == 0 then [s[from..]]
    else
      var g := gs[0];
      var rest := Pieces(s, gs[1..], g.hi);
      var ps := [s[from..g.lo]] + rest;
      assert ps[1..] == rest;
      assert s[from..] == s[from..g.lo] + s[g.lo..g.hi] + s[g.hi..];
      ps
  }

  /** Piece `k` is the text between gap `k - 1` (or `from`) and gap `k` (or
      the end of the text). */
  lemma {:induction false} PieceIsSlice(s: string, gs: seq<Gap>, from: nat, k: nat)
    requires Chain(s, gs, from)
    requires k <= |gs|
    ensures var lo := if k == 0 then from else gs[k - 1].hi;
            var hi := if k == |gs| then |s| else gs[k].lo;
            lo <= hi <= |s| && Pieces(s, gs, from)[k] == s[lo..hi]
    decreases |gs|
  {
    if |gs| > 0 && k > 0 {
      PieceIsSlice(s, gs[1..], gs[0].hi, k - 1);
      assert Pieces(s, gs, from)[k] == Pieces(s, gs[1..], gs[0].hi)[k - 1];
      if k > 1 {
        assert gs[1..][k - 2] == gs[k - 1];
      }
      if k < |gs| {
        assert gs[1..][k - 1] == gs[k];
      }
    }
  }

  /** Texts longer than this fall back to the looser pattern when the strict
      one finds nothing to cut. */
  const FallbackLength := 100

  /** The strict pattern matches nowhere in `s`. */
  ghost predicate NoStrictCut(s: string) {
    forall lo: nat, hi: nat :: !IsCut(s, lo, hi, true)
  }

  /** The separators of the Latin split: all strict matches, unless there are
      none and the text is longer than the fallback length, in which case all
      loose matches. */
  function LatinCuts(s: string): (gs: seq<Gap>)
    ensures Chain(s, gs, 0)
    ensures SpaceGaps(s, gs)
    ensures NoStrictCut(s) && |s| > FallbackLength ==>
              forall lo: nat, hi: nat :: Gap(lo, hi) in gs <==> IsCut(s, lo, hi, false)
    ensures !(NoStrictCut(s) && |s| > FallbackLength) ==>
              forall lo: nat, hi: nat :: Gap(lo, hi) in gs <==> IsCut(s, lo, hi, true)
  {
    var strictCuts := CutsFrom(s, true, 0);
    assert |strictCuts| == 0 <==> NoStrictCut(s) by {
      if |strictCuts| > 0 {
        assert IsCut(s, strictCuts[0].lo, strictCuts[0].hi, true);
      }
    }
    if |strictCuts| == 0 && |s| > FallbackLength then CutsFrom(s, false, 0) else strictCuts
  }

  /** The strict split leaves the text in one piece exactly when the strict
      pattern matches nowhere, which is when the looser pattern may take over. */
  lemma StrictSplitIsWhole(s: string)
    ensures |Pieces(s, CutsFrom(s, true, 0), 0)| == 1 <==> NoStrictCut(s)
  {
    var gs := CutsFrom(s, true, 0);
    if |gs| > 0 {
      assert IsCut(s, gs[0].lo, gs[0].hi, true);
    }
  }

  // ---------------------------------------------------------------------
  // The whole segmenter

  /** The split before cleaning, by the strategy of the detected language. */
  function RawPieces(s: string, script: Script): seq<string> {
    match script
    case Cjk => CjkPieces(s)
    case Latin => Pieces(s, LatinCuts(s), 0)
  }

  /** `[p.strip() for p in raw if p.strip()]`. */
  function Clean(raw: seq<string>): (r: seq<string>)
    ensures |r| <= |raw|
    ensures forall i :: 0 <= i < |r| ==> Trimmed(r[i])
    decreases |raw|
  {
    if |raw| == 0 then []
    else
      var t := Strip(raw[0]);
      var rest := Clean(raw[1..]);
      if t != "" then
        assert ([t] + rest)[1..] == rest;
        [t] + rest
      else
        rest
  }

  /** A single piece is kept, stripped, exactly when it is not blank. */
  lemma CleanOne(p: string)
    ensures Clean([p]) == (if Strip(p) != "" then [Strip(p)] else [])
  {
    assert [p][1..] == [];
  }

  /** Each piece is cleaned on its own: cleaning a list is cleaning its two
      halves, in order. With `CleanOne` this says that the sentences are the
      stripped non-blank pieces, one for one and in order. */
  lemma {:induction false} CleanAppend(a: seq<string>, b: seq<string>)
    ensures Clean(a + b) == Clean(a) + Clean(b)
    decreases |a|
  {
    if |a| > 0 {
      assert (a + b)[0] == a[0];
      assert (a + b)[1..] == a[1..] + b;
      CleanAppend(a[1..], b);
      if Strip(a[0]) != "" {
        AppendAssociates([Strip(a[0])], Clean(a[1..]), Clean(b));
      }
    } else {
      assert a + b == b;
    }
  }

  /** Cleaning only removes whitespace. */
  lemma {:induction false} CleanKeepsNonSpace(raw: seq<string>)
    ensures NonSpace(Concat(Clean(raw))) == NonSpace(Concat(raw))
    decreases |raw|
  {
    if |raw| > 0 {
      CleanKeepsNonSpace(raw[1..]);
      var t := Strip(raw[0]);
      var rest := Clean(raw[1..]);
      NonSpaceAppend(raw[0], Concat(raw[1..]));
      StripKeepsNonSpace(raw[0]);
      if t != "" {
        assert Clean(raw) == [t] + rest;
        assert Concat([t] + rest) == t + Concat(rest);
        NonSpaceAppend(t, Concat(rest));
      } else {
        assert Clean(raw) == rest;
      }
    }
  }

  /** `sent_tokenize(text)` with the detector's answer `detected`. */
  function SentTokenize(text: string, detected: Option<string>): (r: seq<string>)
    ensures forall i :: 0 <= i < |r| ==> Trimmed(r[i])
  {
    Clean(RawPieces(text, ScriptOf(Language(detected))))
  }

  /** The sentences hold every non-whitespace character of the text, in
      order: segmentation only ever drops whitespace. */
  lemma SentTokenizeKeepsNonSpace(text: string, detected: Option<string>)
    ensures NonSpace(Concat(SentTokenize(text, detected))) == NonSpace(text)
  {
    var raw := RawPieces(text, ScriptOf(Language(detected)));
    RawPiecesKeepNonSpace(text, ScriptOf(Language(detected)));
    CleanKeepsNonSpace(raw);
  }

  /** Both strategies only ever drop whitespace. */
  lemma RawPiecesKeepNonSpace(s: string, script: Script)
    ensures NonSpace(Concat(RawPieces(s, script))) == NonSpace(s)
  {
    if script.Latin? {
      PiecesKeepNonSpace(s, LatinCuts(s), 0);
    }
  }

  /** Removing whitespace gaps keeps every other character, in order. */
  lemma {:induction false} PiecesKeepNonSpace(s: string, gs: seq<Gap>, from: nat)
    requires Chain(s, gs, from)
    requires SpaceGaps(s, gs)
    ensures NonSpace(Concat(Pieces(s, gs, from))) == NonSpace(s[from..])
    decreases |gs|
  {
    var ps := Pieces(s, gs, from);
    if |gs| == 0 {
      assert Concat(ps) == s[from..];
    } else {
      var g := gs[0];
      assert AllSpace(s[g.lo..g.hi]);
      PiecesKeepNonSpace(s, gs[1..], g.hi);
      assert ps[1..] == Pieces(s, gs[1..], g.hi);
      assert s[from..] == s[from..g.lo] + s[g.lo..g.hi] + s[g.hi..];
      NonSpaceOfAllSpace(s[g.lo..g.hi]);
      NonSpaceAppend(s[from..g.lo], s[g.lo..g.hi]);
      NonSpaceAppend(s[from..g.lo] + s[g.lo..g.hi], s[g.hi..]);
      NonSpaceAppend(s[from..g.lo], Concat(ps[1..]));
    }
  }

  /** A failed detection segments exactly like the tag "en". */
  lemma DetectionFailureIsEnglish(text: string)
    ensures SentTokenize(text, None) == SentTokenize(text, Some("en"))
  {
  }

  lemma MarkIsNotSpace(c: char)
    requires IsCjkMark(c)
    ensures !IsSpace(c)
  {
  }

  /** Stripping a piece cannot move a mark away from its end. */
  lemma StripKeepsMarksAtEnd(x: string)
    requires MarksOnlyAtEnd(x)
    ensures MarksOnlyAtEnd(Strip(x))
  {
    var t := Strip(x);
    StripIsSlice(x);
    var a := |RStrip(x)| - |t|;
    forall j | 0 <= j < |t| - 1 ensures !IsCjkMark(t[j]) {
      assert t[j] == x[a + j];
    }
  }

  /** Stripping keeps a final mark. */
  lemma StripKeepsEndMark(x: string)
    requires EndsInMark(x)
    ensures EndsInMark(Strip(x))
  {
    MarkIsNotSpace(x[|x| - 1]);
    StripKeepsLast(x);
  }

  /** A mark is only ever a piece's last character, and every piece but the
      last ends in one. */
  predicate MarkStructured(ps: seq<string>) {
    && (forall i :: 0 <= i < |ps| ==> MarksOnlyAtEnd(ps[i]))
    && (forall i :: 0 <= i < |ps| - 1 ==> EndsInMark(ps[i]))
  }

  /** Cleaning Chinese pieces keeps their mark structure. */
  lemma {:induction false} CleanKeepsMarks(raw: seq<string>)
    requires MarkStructured(raw)
    ensures MarkStructured(Clean(raw))
    decreases |raw|
  {
    if |raw| > 0 {
      MarkStructuredTail(raw);
      CleanKeepsMarks(raw[1..]);
      StripKeepsMarksAtEnd(raw[0]);
      if |raw| > 1 {
        StripKeepsEndMark(raw[0]);
      }
      var t := Strip(raw[0]);
      var rest := Clean(raw[1..]);
      if t != "" {
        assert Clean(raw) == [t] + rest;
        MarkStructureCons(t, rest);
      } else {
        assert Clean(raw) == rest;
      }
    }
  }

  lemma MarkStructuredTail(ps: seq<string>)
    requires |ps| > 0 && MarkStructured(ps)
    ensures MarkStructured(ps[1..])
  {
    forall i | 0 <= i < |ps| - 1 ensures ps[1..][i] == ps[i + 1] {
    }
  }

  lemma MarkStructureCons(t: string, rest: seq<string>)
    requires MarksOnlyAtEnd(t) && (|rest| > 0 ==> EndsInMark(t))
    requires MarkStructured(rest)
    ensures MarkStructured([t] + rest)
  {
    var r := [t] + rest;
    forall i | 0 < i < |r| ensures r[i] == rest[i - 1] {
    }
  }

  /** Chinese sentences: a mark is only ever a sentence's last character, and
      every sentence but the last ends in one. */
  lemma CjkSentences(text: string, detected: Option<string>)
    requires ScriptOf(Language(detected)) == Cjk
    ensures MarkStructured(SentTokenize(text, detected))
  {
    assert SentTokenize(text, detected) == Clean(CjkPieces(text));
    CleanKeepsMarks(CjkPieces(text));
  }
}
