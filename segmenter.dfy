/** Heading-driven segmentation of OCR pages into chapters
    (`_segment_chapters`, `Chapter`, the per-page clean-up of
    `_ocr_pdf_to_pages` and `extract_chapters_as_json` in
    pdf_ocr_service.py). */
module Segmentation {

  import opened Text
  import opened LineNormalization
  import opened Headings

  /** "مقدمة" (introduction), the title of the chapter that collects every
      line before the first heading. */
  const PreambleTitle: string := "\U{0645}\U{0642}\U{062F}\U{0645}\U{0629}"

  /** `Chapter`. The segmenter is the only code that changes a chapter, and
      it never changes one after handing it over, so a chapter is a value. */
  datatype Chapter = Chapter(title: string, content: seq<string>, pageStart: int, pageEnd: int)

  /** `Chapter.as_dict()`. */
  datatype ChapterRecord = ChapterRecord(title: string, content: string, pageStart: int, pageEnd: int)

  /** `"\n".join(content).strip()`. */
  function ContentText(ch: Chapter): string {
    Strip(Join(ch.content, "\n"), IsSpace)
  }

  function AsDict(ch: Chapter): (r: ChapterRecord)
    ensures r.title == ch.title && r.pageStart == ch.pageStart && r.pageEnd == ch.pageEnd
  {
    ChapterRecord(ch.title, ContentText(ch), ch.pageStart, ch.pageEnd)
  }

  // ---------------------------------------------------------------------
  // The segmenter as a fold over the lines of the pages
  // ---------------------------------------------------------------------

  /** The finished chapters and the one being filled. */
  datatype SegState = SegState(done: seq<Chapter>, current: Chapter)

  function Start(offset: int): SegState {
    SegState([], Chapter(PreambleTitle, [], 1 + offset, 1 + offset))
  }

  /** One line on page `page` (already shifted by the offset): a heading
      closes a chapter that has content and opens a new one titled by the
      heading; any other line, and a heading met while the current chapter
      is still empty, is content. The fold takes the heading test as a
      parameter `heading`; the segmenter itself passes `IsChapterHeading`,
      and every property below holds whatever the test is. */
  function StepLine(heading: string -> bool, st: SegState, line: string, page: int): SegState {
    if heading(line) && st.current.content != [] then
      SegState(st.done + [st.current.(pageEnd := page)], Chapter(line, [], page, page))
    else
      SegState(st.done, st.current.(content := st.current.content + [line]))
  }

  function StepLines(heading: string -> bool, st: SegState, lines: seq<string>, page: int): SegState
    decreases |lines|
  {
    if lines == [] then st
    else StepLine(heading, StepLines(heading, st, lines[..|lines| - 1], page), lines[|lines| - 1], page)
  }

  /** The state after the first `|pages|` pages; each page ends by moving
      the current chapter's end to that page. */
  function RunPages(heading: string -> bool, pages: seq<string>, offset: int): SegState
    decreases |pages|
  {
    if pages == [] then Start(offset)
    else
      var page := |pages| + offset;
      var st := StepLines(heading, RunPages(heading, pages[..|pages| - 1], offset), SplitLines(pages[|pages| - 1]), page);
      st.(current := st.current.(pageEnd := page))
  }

  /** The current chapter is kept only when it has content. */
  function Finish(st: SegState): seq<Chapter> {
    if st.current.content != [] then st.done + [st.current] else st.done
  }

  function Segment(heading: string -> bool, pages: seq<string>, offset: int): seq<Chapter> {
    Finish(RunPages(heading, pages, offset))
  }

  lemma RunPagesSnoc(heading: string -> bool, pages: seq<string>, p: nat, offset: int,
                     before: SegState, lines: seq<string>, page: int, read: SegState)
    requires p < |pages| && before == RunPages(heading, pages[..p], offset)
    requires lines == SplitLines(pages[p]) && page == p + 1 + offset
    requires read == StepLines(heading, before, lines, page)
    ensures RunPages(heading, pages[..p + 1], offset) == read.(current := read.current.(pageEnd := page))
  {
    assert pages[..p + 1][..p] == pages[..p];
  }

  lemma StepLinesSnoc(heading: string -> bool, st: SegState, lines: seq<string>, i: nat, page: int)
    requires i < |lines|
    ensures StepLines(heading, st, lines[..i + 1], page) == StepLine(heading, StepLines(heading, st, lines[..i], page), lines[i], page)
  {
    assert lines[..i + 1][..i] == lines[..i];
  }

  /** `_segment_chapters(pages, page_offset)`, which tests lines with
      `_is_chapter_heading`. */
  method SegmentChapters(pages: seq<string>, pageOffset: int) returns (chapters: seq<Chapter>)
    ensures chapters == Segment(IsChapterHeading, pages, pageOffset)
  {
    chapters := SegmentBy(IsChapterHeading, pages, pageOffset);
  }

  /** The loops of `_segment_chapters`, for any heading test. */
  method SegmentBy(heading: string -> bool, pages: seq<string>, pageOffset: int) returns (chapters: seq<Chapter>)
    ensures chapters == Segment(heading, pages, pageOffset)
  {
    chapters := [];
    var current := Chapter(PreambleTitle, [], 1 + pageOffset, 1 + pageOffset);
    for p := 0 to |pages|
      invariant SegState(chapters, current) == RunPages(heading, pages[..p], pageOffset)
    {
      var page := p + 1 + pageOffset;
      var lines := SplitLines(pages[p]);
      ghost var before := SegState(chapters, current);
      for i := 0 to |lines|
        invariant SegState(chapters, current) == StepLines(heading, before, lines[..i], page)
      {
        StepLinesSnoc(heading, before, lines, i, page);
        var line := lines[i];
        if heading(line) && current.content != [] {
          current := current.(pageEnd := page);
          chapters := chapters + [current];
          current := Chapter(line, [], page, page);
        } else {
          current := current.(content := current.content + [line]);
        }
      }
      assert lines[..|lines|] == lines;
      ghost var read := StepLines(heading, before, lines, page);
      current := current.(pageEnd := page);
      RunPagesSnoc(heading, pages, p, pageOffset, before, lines, page, read);
      assert SegState(chapters, current) == read.(current := read.current.(pageEnd := page));
    }
    assert pages[..|pages|] == pages;
    if current.content != [] {
      chapters := chapters + [current];
    }
  }

  // ---------------------------------------------------------------------
  // What the segmenter guarantees
  // ---------------------------------------------------------------------

  /** The lines of all pages, in order. */
  function AllLines(pages: seq<string>): seq<string>
    decreases |pages|
  {
    if pages == [] then [] else AllLines(pages[..|pages| - 1]) + SplitLines(pages[|pages| - 1])
  }

  /** The input lines a list of chapters accounts for: the first chapter's
      content, then each later chapter's heading followed by its content. */
  function Emitted(chs: seq<Chapter>): seq<string>
    decreases |chs|
  {
    if chs == [] then []
    else if |chs| == 1 then chs[0].content
    else Emitted(chs[..|chs| - 1]) + [chs[|chs| - 1].title] + chs[|chs| - 1].content
  }

  /** The largest page number a state can mention after `n` pages. */
  function LastPage(n: nat, offset: int): int {
    (if n == 0 then 1 else n) + offset
  }

  /** The lines a state accounts for: those of the finished chapters, then
      the current chapter's heading (unless it is the preamble) and content. */
  function Consumed(st: SegState): seq<string> {
    if st.done == [] then st.current.content
    else Emitted(st.done) + [st.current.title] + st.current.content
  }

  /** The chapter the segmenter opened first. */
  function FirstOf(st: SegState): Chapter {
    if st.done == [] then st.current else st.done[0]
  }

  /** What holds of the finished chapters when `hi` is the page being read. */
  predicate DoneOk(heading: string -> bool, done: seq<Chapter>, offset: int, hi: int) {
    && (forall k :: 1 <= k < |done| ==> heading(done[k].title))
    && (forall k :: 0 <= k < |done| ==> done[k].content != [])
    && (forall k :: 0 <= k < |done| ==> 1 + offset <= done[k].pageStart <= done[k].pageEnd <= hi)
    && (forall k :: 0 <= k < |done| - 1 ==> done[k].pageEnd == done[k + 1].pageStart)
  }

  /** What holds of every state the segmenter passes through, `lines`
      being the lines consumed so far and `hi` the page being read. */
  predicate Inv(heading: string -> bool, st: SegState, lines: seq<string>, offset: int, hi: int) {
    && FirstOf(st).title == PreambleTitle && FirstOf(st).pageStart == 1 + offset
    && DoneOk(heading, st.done, offset, hi)
    && 1 + offset <= st.current.pageStart <= st.current.pageEnd <= hi
    && (st.done != [] ==> heading(st.current.title) && st.done[|st.done| - 1].pageEnd == st.current.pageStart)
    && Consumed(st) == lines
  }

  lemma EmittedSnoc(chs: seq<Chapter>, ch: Chapter)
    ensures Emitted(chs + [ch]) == if chs == [] then ch.content else Emitted(chs) + [ch.title] + ch.content
  {
    assert (chs + [ch])[..|chs|] == chs;
  }

  /** Finishing a chapter that has content and continues the page chain. */
  lemma DoneSnoc(heading: string -> bool, done: seq<Chapter>, ch: Chapter, offset: int, hi: int)
    requires DoneOk(heading, done, offset, hi)
    requires ch.content != [] && 1 + offset <= ch.pageStart <= ch.pageEnd <= hi
    requires done != [] ==> heading(ch.title) && done[|done| - 1].pageEnd == ch.pageStart
    ensures DoneOk(heading, done + [ch], offset, hi)
  {
    var done' := done + [ch];
    assert forall k :: 0 <= k < |done| ==> done'[k] == done[k];
  }

  /** A heading after content closes the current chapter and opens a new one. */
  lemma HeadingKeepsInv(heading: string -> bool, st: SegState, lines: seq<string>, offset: int, line: string, page: int)
    requires Inv(heading, st, lines, offset, page)
    requires heading(line) && st.current.content != []
    ensures Inv(heading, SegState(st.done + [st.current.(pageEnd := page)], Chapter(line, [], page, page)),
                lines + [line], offset, page)
  {
    var closed := st.current.(pageEnd := page);
    var done' := st.done + [closed];
    EmittedSnoc(st.done, closed);
    DoneSnoc(heading, st.done, closed, offset, page);
    assert done'[0].title == FirstOf(st).title && done'[0].pageStart == FirstOf(st).pageStart;
    assert done'[|done'| - 1] == closed;
  }

  /** Any other line is added to the current chapter. */
  lemma ContentKeepsInv(heading: string -> bool, st: SegState, lines: seq<string>, offset: int, line: string, page: int)
    requires Inv(heading, st, lines, offset, page)
    ensures Inv(heading, SegState(st.done, st.current.(content := st.current.content + [line])),
                lines + [line], offset, page)
  {
  }

  lemma StepLineKeepsInv(heading: string -> bool, st: SegState, lines: seq<string>, offset: int, line: string, page: int)
    requires Inv(heading, st, lines, offset, page)
    ensures Inv(heading, StepLine(heading, st, line, page), lines + [line], offset, page)
  {
    if heading(line) && st.current.content != [] {
      HeadingKeepsInv(heading, st, lines, offset, line, page);
    } else {
      ContentKeepsInv(heading, st, lines, offset, line, page);
    }
  }

  lemma {:induction false} StepLinesKeepsInv(heading: string -> bool, st: SegState, lines: seq<string>, offset: int, more: seq<string>, page: int)
    requires Inv(heading, st, lines, offset, page)
    ensures Inv(heading, StepLines(heading, st, more, page), lines + more, offset, page)
    decreases |more|
  {
    if more == [] {
      assert lines + more == lines;
    } else {
      var init := more[..|more| - 1];
      StepLinesKeepsInv(heading, st, lines, offset, init, page);
      StepLineKeepsInv(heading, StepLines(heading, st, init, page), lines + init, offset, more[|more| - 1], page);
      assert lines + init + [more[|more| - 1]] == lines + more;
    }
  }

  /** A state good for page `hi` is good for any later page. */
  lemma InvLater(heading: string -> bool, st: SegState, lines: seq<string>, offset: int, hi: int, hi': int)
    requires Inv(heading, st, lines, offset, hi) && hi <= hi'
    ensures Inv(heading, st, lines, offset, hi')
  {
    assert DoneOk(heading, st.done, offset, hi');
  }

  lemma {:induction false} RunPagesInv(heading: string -> bool, pages: seq<string>, offset: int)
    ensures Inv(heading, RunPages(heading, pages, offset), AllLines(pages), offset, LastPage(|pages|, offset))
    ensures pages != [] ==> RunPages(heading, pages, offset).current.pageEnd == |pages| + offset
    decreases |pages|
  {
    if pages != [] {
      RunPagesInv(heading, pages[..|pages| - 1], offset);
      RunPagesStep(heading, pages, offset);
    }
  }

  /** The invariant after one more page, from the invariant before it. */
  lemma RunPagesStep(heading: string -> bool, pages: seq<string>, offset: int)
    requires pages != []
    requires var init := pages[..|pages| - 1];
      Inv(heading, RunPages(heading, init, offset), AllLines(init), offset, LastPage(|init|, offset))
    ensures Inv(heading, RunPages(heading, pages, offset), AllLines(pages), offset, LastPage(|pages|, offset))
    ensures RunPages(heading, pages, offset).current.pageEnd == |pages| + offset
  {
    var init := pages[..|pages| - 1];
    var page := |pages| + offset;
    var more := SplitLines(pages[|pages| - 1]);
    var st := StepLines(heading, RunPages(heading, init, offset), more, page);
    assert RunPages(heading, pages, offset) == st.(current := st.current.(pageEnd := page));
    assert AllLines(pages) == AllLines(init) + more;
    PageKeepsInv(heading, RunPages(heading, init, offset), AllLines(init), offset, LastPage(|init|, offset), more,
                 RunPages(heading, pages, offset), AllLines(pages), LastPage(|pages|, offset));
  }

  /** Reading one more page keeps the invariant. */
  lemma PageKeepsInv(heading: string -> bool, st: SegState, lines: seq<string>, offset: int, hi: int, more: seq<string>,
                     next: SegState, lines': seq<string>, page: int)
    requires Inv(heading, st, lines, offset, hi) && hi <= page
    requires next == StepLines(heading, st, more, page).(current := StepLines(heading, st, more, page).current.(pageEnd := page))
    requires lines' == lines + more
    ensures Inv(heading, next, lines', offset, page)
  {
    InvLater(heading, st, lines, offset, hi, page);
    StepLinesKeepsInv(heading, st, lines, offset, more, page);
  }

  lemma {:induction false} AllLinesEmpty(pages: seq<string>)
    requires pages == []
    ensures AllLines(pages) == []
  {
  }

  /** What the invariant says about the chapters that `Finish` returns. */
  lemma FinishShape(heading: string -> bool, st: SegState, lines: seq<string>, offset: int, hi: int)
    requires Inv(heading, st, lines, offset, hi)
    ensures var chs := Finish(st);
      && (forall k :: 0 <= k < |chs| ==> chs[k].content != [])
      && (chs != [] ==> chs[0].title == PreambleTitle && chs[0].pageStart == 1 + offset)
      && (forall k :: 1 <= k < |chs| ==> heading(chs[k].title))
      && (forall k :: 0 <= k < |chs| ==> 1 + offset <= chs[k].pageStart <= chs[k].pageEnd <= hi)
      && (forall k :: 0 <= k < |chs| - 1 ==> chs[k].pageEnd == chs[k + 1].pageStart)
  {
    if st.current.content != [] {
      var chs := st.done + [st.current];
      assert forall k :: 0 <= k < |st.done| ==> chs[k] == st.done[k];
      assert chs[0] == FirstOf(st);
    }
  }

  /** Every chapter has content; the first is the preamble and starts on the
      first page; every later one is titled by a heading; page ranges are
      ordered, lie within the pages read, and each chapter ends on the page
      where the next one starts. */
  lemma SegmentShape(heading: string -> bool, pages: seq<string>, offset: int)
    ensures var chs := Segment(heading, pages, offset);
      && (forall k :: 0 <= k < |chs| ==> chs[k].content != [])
      && (chs != [] ==> chs[0].title == PreambleTitle && chs[0].pageStart == 1 + offset)
      && (forall k :: 1 <= k < |chs| ==> heading(chs[k].title))
      && (forall k :: 0 <= k < |chs| ==> 1 + offset <= chs[k].pageStart <= chs[k].pageEnd <= |pages| + offset)
      && (forall k :: 0 <= k < |chs| - 1 ==> chs[k].pageEnd == chs[k + 1].pageStart)
  {
    var st := RunPages(heading, pages, offset);
    RunPagesInv(heading, pages, offset);
    if pages == [] {
      AllLinesEmpty(pages);
    }
    FinishShape(heading, st, AllLines(pages), offset, LastPage(|pages|, offset));
  }

  /** No line is lost and none is invented: the chapters account for every
      input line in order, except that a heading that is the very last line
      opens a chapter that stays empty and is dropped. There are no chapters
      exactly when the pages hold no line. */
  lemma {:induction false} SegmentKeepsLines(heading: string -> bool, pages: seq<string>, offset: int)
    ensures var chs := Segment(heading, pages, offset); var lines := AllLines(pages);
      && (chs == [] <==> lines == [])
      && (|| Emitted(chs) == lines
          || (lines != [] && heading(lines[|lines| - 1])
              && Emitted(chs) + [lines[|lines| - 1]] == lines))
  {
    var st := RunPages(heading, pages, offset);
    RunPagesInv(heading, pages, offset);
    EmittedSnoc(st.done, st.current);
    if st.current.content == [] && st.done != [] {
      assert st.done[0].content != [];
      EmittedNonEmpty(st.done);
      assert Consumed(st) == Emitted(st.done) + [st.current.title];
    }
    if st.current.content != [] && st.done != [] {
      EmittedNonEmpty(st.done);
    }
  }

  lemma {:induction false} EmittedNonEmpty(chs: seq<Chapter>)
    requires chs != [] && chs[0].content != []
    ensures Emitted(chs) != []
    decreases |chs|
  {
    if |chs| > 1 {
      EmittedNonEmpty(chs[..|chs| - 1]);
    }
  }

  /** When the last chapter is the one still open at the end, it ends on the
      last page. */
  lemma SegmentLastEnd(heading: string -> bool, pages: seq<string>, offset: int)
    requires RunPages(heading, pages, offset).current.content != []
    ensures var chs := Segment(heading, pages, offset);
      chs != [] && chs[|chs| - 1].pageEnd == |pages| + offset
  {
    RunPagesInv(heading, pages, offset);
  }

  /** The chapter still open holds content unless the last line read was a
      heading that opened it. */
  lemma OpenChapterHasContent(heading: string -> bool, st: SegState, lines: seq<string>, offset: int, hi: int)
    requires Inv(heading, st, lines, offset, hi)
    requires lines != [] && !heading(lines[|lines| - 1])
    ensures st.current.content != []
  {
    if st.done != [] {
      assert Consumed(st) == Emitted(st.done) + [st.current.title] + st.current.content;
    }
  }

  /** The same, stated on the input: when the pages hold a line and the
      last one is not a heading, the last chapter ends on the last page. */
  lemma SegmentLastLineEnd(heading: string -> bool, pages: seq<string>, offset: int)
    requires AllLines(pages) != [] && !heading(AllLines(pages)[|AllLines(pages)| - 1])
    ensures var chs := Segment(heading, pages, offset);
      chs != [] && chs[|chs| - 1].pageEnd == |pages| + offset
  {
    RunPagesInv(heading, pages, offset);
    OpenChapterHasContent(heading, RunPages(heading, pages, offset), AllLines(pages), offset, LastPage(|pages|, offset));
    SegmentLastEnd(heading, pages, offset);
  }

  // ---------------------------------------------------------------------
  // OCR page clean-up and the JSON export
  // ---------------------------------------------------------------------

  /** The lines of `ls` that are not empty, in order. */
  function DropEmpty(ls: seq<string>): (r: seq<string>)
    decreases |ls|
  {
    if ls == [] then []
    else
      var init := DropEmpty(ls[..|ls| - 1]);
      if ls[|ls| - 1] != "" then init + [ls[|ls| - 1]] else init
  }

  /** One more line is kept exactly when it is not empty. */
  lemma DropEmptyStep(ls: seq<string>, i: nat)
    requires i < |ls|
    ensures DropEmpty(ls[..i + 1]) == DropEmpty(ls[..i]) + (if ls[i] != "" then [ls[i]] else [])
  {
    assert ls[..i + 1][..i] == ls[..i];
  }

  /** Every kept line is a non-empty line of `ls`. */
  lemma {:induction false} DropEmptyFrom(ls: seq<string>)
    ensures forall k :: 0 <= k < |DropEmpty(ls)| ==> DropEmpty(ls)[k] != "" && DropEmpty(ls)[k] in ls
    decreases |ls|
  {
    if ls != [] {
      var init := ls[..|ls| - 1];
      DropEmptyFrom(init);
      forall k | 0 <= k < |DropEmpty(init)|
        ensures DropEmpty(init)[k] in ls
      {
        var j :| 0 <= j < |init| && init[j] == DropEmpty(init)[k];
        assert ls[j] == init[j];
      }
    }
  }

  /** Every line normalised. */
  function NormalizedLines(lines: seq<string>): (r: seq<string>)
    ensures |r| == |lines|
  {
    seq(|lines|, k requires 0 <= k < |lines| => NormalizeLine(lines[k], false, false))
  }

  /** The lines of one OCR page that survive `_normalize_line` with the
      default flags. */
  function CleanLines(lines: seq<string>): seq<string> {
    DropEmpty(NormalizedLines(lines))
  }

  /** The clean-up loop of `_ocr_pdf_to_pages`: split the OCR text into
      lines, normalise each, drop the empty ones, join with newlines. */
  method CleanOcrText(txt: string) returns (text: string)
    ensures text == Join(CleanLines(SplitLines(txt)), "\n")
    ensures SplitLines(text) == CleanLines(SplitLines(txt))
  {
    var lines := SplitLines(txt);
    ghost var normalized := NormalizedLines(lines);
    var tmp: seq<string> := [];
    for i := 0 to |lines|
      invariant tmp == DropEmpty(normalized[..i])
    {
      DropEmptyStep(normalized, i);
      var nl := NormalizeLine(lines[i], false, false);
      assert normalized[i] == nl;
      if nl != "" {
        tmp := tmp + [nl];
      }
    }
    assert normalized[..|lines|] == normalized;
    text := Join(tmp, "\n");
    CleanOcrTextLines(txt);
  }

  /** A normalised line drawn from a line without breaks has no break, no
      whitespace at either end, and is not empty. */
  predicate IsCleanLine(l: string) {
    l != "" && AllChars(l, IsLineChar) && !IsSpace(l[0]) && !IsSpace(l[|l| - 1])
  }

  /** One line: normalisation of a line without breaks adds none. */
  lemma NormalizedIsClean(line: string)
    requires AllChars(line, IsLineChar)
    ensures var nl := NormalizeLine(line, false, false); nl != "" ==> IsCleanLine(nl)
  {
    NormalizeLineChars(line, false, false);
    var nl := NormalizeLine(line, false, false);
    forall k | 0 <= k < |nl|
      ensures IsLineChar(nl[k])
    {
      assert nl[k] in nl;
    }
  }

  lemma {:induction false} CleanLinesAreClean(lines: seq<string>)
    requires forall k :: 0 <= k < |lines| ==> AllChars(lines[k], IsLineChar)
    ensures forall k :: 0 <= k < |CleanLines(lines)| ==> IsCleanLine(CleanLines(lines)[k])
  {
    var normalized := NormalizedLines(lines);
    DropEmptyFrom(normalized);
    forall k | 0 <= k < |CleanLines(lines)|
      ensures IsCleanLine(CleanLines(lines)[k])
    {
      var j :| 0 <= j < |normalized| && normalized[j] == CleanLines(lines)[k];
      NormalizedIsClean(lines[j]);
    }
  }

  /** The cleaned page text splits back into exactly the kept lines, each of
      them clean. */
  lemma CleanOcrTextLines(txt: string)
    ensures var kept := CleanLines(SplitLines(txt));
      && SplitLines(Join(kept, "\n")) == kept
      && forall k :: 0 <= k < |kept| ==> IsCleanLine(kept[k])
  {
    CleanLinesAreClean(SplitLines(txt));
    SplitJoinedLines(CleanLines(SplitLines(txt)));
  }

  /** For a chapter whose lines are clean, `as_dict`'s content is the lines
      joined by newlines and splits back into them. */
  lemma ContentTextRoundTrip(ch: Chapter)
    requires forall k :: 0 <= k < |ch.content| ==> IsCleanLine(ch.content[k])
    ensures ContentText(ch) == Join(ch.content, "\n")
    ensures SplitLines(ContentText(ch)) == ch.content
  {
    if ch.content != [] {
      JoinEnds(ch.content, "\n");
    }
    StripUnchanged(Join(ch.content, "\n"), IsSpace);
    SplitJoinedLines(ch.content);
  }

  /** The pages that `extract_chapters_as_json` segments and the offset it
      passes: from `start_page` on when that is above 1. */
  function StartOffset(startPage: int): (off: nat)
    ensures startPage > 1 ==> off == startPage - 1
    ensures startPage <= 1 ==> off == 0
  {
    if startPage > 1 then startPage - 1 else 0
  }

  function PagesFrom(pages: seq<string>, startPage: int): (r: seq<string>)
    ensures StartOffset(startPage) <= |pages| ==> r == pages[StartOffset(startPage)..]
    ensures StartOffset(startPage) > |pages| ==> r == []
  {
    var off := StartOffset(startPage);
    if off <= |pages| then pages[off..] else []
  }

  /** One exported chapter: title and joined content passed through the
      shaping function (`_arabic_shape`, which depends on libraries outside
      this model, hence a parameter). */
  function ShapedRecord(ch: Chapter, shape: string -> string): ChapterRecord {
    ChapterRecord(shape(ch.title), shape(ContentText(ch)), ch.pageStart, ch.pageEnd)
  }

  /** `extract_chapters_as_json(pdf_path, start_page)` on the OCR'd pages. */
  method ExtractChaptersAsJson(pages: seq<string>, startPage: int, shape: string -> string)
    returns (records: seq<ChapterRecord>)
    ensures var chs := Segment(IsChapterHeading, PagesFrom(pages, startPage), StartOffset(startPage));
      && |records| == |chs|
      && forall k :: 0 <= k < |records| ==> records[k] == ShapedRecord(chs[k], shape)
  {
    var offset := StartOffset(startPage);
    var sliced := PagesFrom(pages, startPage);
    var chs := SegmentChapters(sliced, offset);
    records := [];
    for i := 0 to |chs|
      invariant |records| == i
      invariant forall k :: 0 <= k < i ==> records[k] == ShapedRecord(chs[k], shape)
    {
      records := records + [ShapedRecord(chs[i], shape)];
    }
  }

  /** Page numbers in the export are numbers in the whole document: every
      chapter starts at or after `start_page` and ends by the last page. */
  lemma ExportPageNumbers(pages: seq<string>, startPage: int)
    ensures var chs := Segment(IsChapterHeading, PagesFrom(pages, startPage), StartOffset(startPage));
      forall k :: 0 <= k < |chs| ==>
        (if startPage > 1 then startPage else 1) <= chs[k].pageStart <= chs[k].pageEnd <= |pages|
  {
    var off := StartOffset(startPage);
    var sliced := PagesFrom(pages, startPage);
    SegmentShape(IsChapterHeading, sliced, off);
    var chs := Segment(IsChapterHeading, sliced, off);
    if chs != [] {
      SegmentKeepsLines(IsChapterHeading, sliced, off);
      if sliced == [] {
        AllLinesEmpty(sliced);
      }
      assert |sliced| + off <= |pages|;
    }
  }
}
