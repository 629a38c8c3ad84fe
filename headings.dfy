/** `_is_chapter_heading` and the three anchored `_CHAPTER_PATTERNS`
    (pdf_ocr_service.py:131-135, 166-177). Patterns 1 and 3 are given
    twice: as the run-by-run scan the regex engine performs, and as the
    plain statement of what the regex accepts; lemmas prove the two agree.
    Pattern 2 is a fixed prefix, so its scan is the prefix test itself. */
module Headings {

  import opened Text

  /** "الفصل" (the chapter). */
  const ChapterMarker: string := "\U{0627}\U{0644}\U{0641}\U{0635}\U{0644}"

  /** "باب" (section). */
  const SectionMarker: string := "\U{0628}\U{0627}\U{0628}"

  /** "فصل" (chapter, without the article). */
  const BareChapterMarker: string := "\U{0641}\U{0635}\U{0644}"

  /** ARABIC FULL STOP "۔". */
  const ArabicFullStop: char := '\U{06D4}'

  /** `[ء-ي0-9]`. */
  predicate IsWordChar(c: char) { IsArabicLetter(c) || IsAsciiDigit(c) }

  /** `[-.،)]`. */
  predicate IsItemPunct(c: char) { c == '-' || c == '.' || c == '\U{060C}' || c == ')' }

  // ---------------------------------------------------------------------
  // Pattern 1: ^(?:الفصل|باب)\s+([ء-ي0-9]+)
  // ---------------------------------------------------------------------

  /** The scan: the marker, a non-empty whitespace run, then a word character. */
  predicate MarkerThenWord(line: string, marker: string) {
    HasPrefix(line, marker) &&
    var rest := line[|marker|..];
    var n := LeadRun(rest, IsSpace);
    1 <= n < |rest| && IsWordChar(rest[n])
  }

  predicate MatchesMarkedChapter(line: string) {
    MarkerThenWord(line, ChapterMarker) || MarkerThenWord(line, SectionMarker)
  }

  /** The word that follows the whitespace begins at `j`. */
  predicate MarkerWordAt(line: string, marker: string, j: int) {
    HasPrefix(line, marker) && |marker| < j < |line|
    && AllChars(line[|marker|..j], IsSpace) && IsWordChar(line[j])
  }

  lemma MarkerThenWordIff(line: string, marker: string)
    ensures MarkerThenWord(line, marker) <==> exists j :: MarkerWordAt(line, marker, j)
  {
    if MarkerThenWord(line, marker) {
      var rest := line[|marker|..];
      var n := LeadRun(rest, IsSpace);
      assert line[|marker|..|marker| + n] == rest[..n];
      assert MarkerWordAt(line, marker, |marker| + n);
    }
    if j :| MarkerWordAt(line, marker, j) {
      var rest := line[|marker|..];
      var m := j - |marker|;
      assert rest[..m] == line[|marker|..j];
      assert rest[m] == line[j];
      LeadRunExact(rest, m, IsSpace);
    }
  }

  // ---------------------------------------------------------------------
  // Pattern 2: ^(?:فصل)\s*[:\-]?\s*([ء-ي0-9]+)?
  // everything after the marker is optional, so the marker alone decides
  // ---------------------------------------------------------------------

  predicate MatchesBareMarker(line: string) {
    HasPrefix(line, BareChapterMarker)
  }

  // ---------------------------------------------------------------------
  // Pattern 3: ^\s*[\d٠-٩]{1,3}\s*[-.،)]\s+
  // ---------------------------------------------------------------------

  /** The scan: leading whitespace, a digit run of one to three, optional
      whitespace, one of `-.،)`, then at least one whitespace character.
      Each stage starts where the previous run stops. */
  predicate MatchesNumberedItem(line: string) {
    DigitsFrom(line, LeadRun(line, IsSpace))
  }

  /** The digit run starts at `a`. */
  predicate DigitsFrom(line: string, a: int) {
    0 <= a <= |line| && GapFrom(line, a, a + LeadRun(line[a..], IsDecimalDigit))
  }

  /** The digits run from `a` to `j`; the whitespace before the mark starts at `j`. */
  predicate GapFrom(line: string, a: int, j: int) {
    0 <= j <= |line| && NumberedScanEnds(line, a, j, j + LeadRun(line[j..], IsSpace))
  }

  /** The test the scan applies where its three runs stop. */
  predicate NumberedScanEnds(line: string, a: int, j: int, k: int) {
    1 <= j - a <= 3 && 0 <= k && k + 1 < |line| && IsItemPunct(line[k]) && IsSpace(line[k + 1])
  }

  /** Digits occupy `[i, j)`, the punctuation mark is at `k`. */
  predicate NumberedItemAt(line: string, i: int, j: int, k: int) {
    0 <= i < j <= k && k + 1 < |line| && j - i <= 3
    && AllChars(line[..i], IsSpace) && AllChars(line[i..j], IsDecimalDigit)
    && AllChars(line[j..k], IsSpace) && IsItemPunct(line[k]) && IsSpace(line[k + 1])
  }

  lemma NumberedItemScanFinds(line: string)
    requires MatchesNumberedItem(line)
    ensures exists i, j, k :: NumberedItemAt(line, i, j, k)
  {
    var a := LeadRun(line, IsSpace);
    var j := a + LeadRun(line[a..], IsDecimalDigit);
    var k := j + LeadRun(line[j..], IsSpace);
    ScanStopsAt(line, a, j, k);
    ScanPositions(line, a, j, k);
  }

  /** The positions the scan stops at delimit a numbered item. */
  lemma ScanPositions(line: string, a: nat, j: nat, k: nat)
    requires a == LeadRun(line, IsSpace) && j == a + LeadRun(line[a..], IsDecimalDigit)
    requires k == j + LeadRun(line[j..], IsSpace) && NumberedScanEnds(line, a, j, k)
    ensures NumberedItemAt(line, a, j, k)
  {
    LeadRunPrefix(line, IsSpace);
    LeadRunSlice(line, a, j, IsDecimalDigit);
    LeadRunSlice(line, j, k, IsSpace);
  }

  lemma NumberedItemFoundByScan(line: string, i: int, j: int, k: int)
    requires NumberedItemAt(line, i, j, k)
    ensures MatchesNumberedItem(line)
  {
    LeadRunExact(line, i, IsSpace);
    DigitRunAt(line, i, j, k);
    SpaceRunAt(line, i, j, k);
    ScanStopsAt(line, i, j, k);
  }

  /** Where the three runs stop, the scan tests those positions. */
  lemma ScanStopsAt(line: string, i: nat, j: nat, k: nat)
    requires i <= j <= |line|
    requires i == LeadRun(line, IsSpace) && j == i + LeadRun(line[i..], IsDecimalDigit)
    requires k == j + LeadRun(line[j..], IsSpace)
    ensures MatchesNumberedItem(line) <==> NumberedScanEnds(line, i, j, k)
  {
    SpacesStopAt(line, i);
    DigitsStopAt(line, i, j);
    GapStopsAt(line, i, j, k);
  }

  lemma SpacesStopAt(line: string, i: nat)
    requires i == LeadRun(line, IsSpace)
    ensures MatchesNumberedItem(line) <==> DigitsFrom(line, i)
  {
  }

  lemma DigitsStopAt(line: string, i: nat, j: nat)
    requires i <= |line| && j == i + LeadRun(line[i..], IsDecimalDigit)
    ensures DigitsFrom(line, i) <==> GapFrom(line, i, j)
  {
  }

  lemma GapStopsAt(line: string, i: nat, j: nat, k: nat)
    requires j <= |line| && k == j + LeadRun(line[j..], IsSpace)
    ensures GapFrom(line, i, j) <==> NumberedScanEnds(line, i, j, k)
  {
  }

  /** The digit run of a numbered item, as the scan finds it. */
  lemma DigitRunAt(line: string, i: int, j: int, k: int)
    requires NumberedItemAt(line, i, j, k)
    ensures j == i + LeadRun(line[i..], IsDecimalDigit)
  {
    var t := line[i..];
    assert t[..j - i] == line[i..j];
    assert !IsDecimalDigit(t[j - i]) by {
      if j < k {
        assert line[j..k][0] == line[j];
      }
    }
    LeadRunExact(t, j - i, IsDecimalDigit);
  }

  /** The whitespace before the punctuation mark, as the scan finds it. */
  lemma SpaceRunAt(line: string, i: int, j: int, k: int)
    requires NumberedItemAt(line, i, j, k)
    ensures k == j + LeadRun(line[j..], IsSpace)
  {
    var u := line[j..];
    assert u[..k - j] == line[j..k];
    assert u[k - j] == line[k];
    LeadRunExact(u, k - j, IsSpace);
  }

  lemma MatchesNumberedItemIff(line: string)
    ensures MatchesNumberedItem(line) <==> exists i, j, k :: NumberedItemAt(line, i, j, k)
  {
    if MatchesNumberedItem(line) {
      NumberedItemScanFinds(line);
    }
    if i, j, k :| NumberedItemAt(line, i, j, k) {
      NumberedItemFoundByScan(line, i, j, k);
    }
  }

  // ---------------------------------------------------------------------
  // The classifier
  // ---------------------------------------------------------------------

  predicate MatchesChapterPattern(line: string) {
    MatchesMarkedChapter(line) || MatchesBareMarker(line) || MatchesNumberedItem(line)
  }

  /** The number of characters in `ء-ي` (`len(re.findall(...))`). */
  function ArabicLetterCount(s: string): (n: nat)
    ensures n <= |s|
    ensures n == 0 <==> forall k :: 0 <= k < |s| ==> !IsArabicLetter(s[k])
  {
    if s == [] then 0
    else
      var rest := ArabicLetterCount(s[1..]);
      assert forall k :: 1 <= k < |s| ==> s[k] == s[1..][k - 1];
      (if IsArabicLetter(s[0]) then 1 else 0) + rest
  }

  /** The fallback of pdf_ocr_service.py:173-176. `count / max(len, 1) > 0.4`
      is written `5 * count > 2 * max(len, 1)`: the line has at most 40
      characters, so the exact quotient is never within 1/200 of 0.4 unless
      equal to it, and the float comparison agrees with the exact one. */
  predicate IsShortArabicLine(line: string) {
    var count := ArabicLetterCount(line);
    var len := if |line| > 1 then |line| else 1;
    |line| <= 40 && ' ' in line && ArabicFullStop !in line && '.' !in line
    && count > 0 && 5 * count > 2 * len
  }

  /** `_is_chapter_heading(line)`. */
  predicate IsChapterHeading(line: string) {
    line != "" && (MatchesChapterPattern(line) || IsShortArabicLine(line))
  }

  // ---------------------------------------------------------------------
  // Properties
  // ---------------------------------------------------------------------

  /** The empty line is never a heading. */
  lemma EmptyIsNotHeading()
    ensures !IsChapterHeading("")
  {
  }

  /** A long line, a line with sentence punctuation, or a line without a
      space is a heading only through one of the three anchored patterns. */
  lemma PunctuatedOrLongNeedsPattern(line: string)
    requires |line| > 40 || '.' in line || ArabicFullStop in line || ' ' !in line
    ensures IsChapterHeading(line) <==> MatchesChapterPattern(line)
  {
  }

  /** A line that does not begin with an Arabic letter lacks every marker. */
  lemma NoMarkerWithoutArabicStart(line: string, marker: string)
    requires |marker| > 0 && IsArabicLetter(marker[0])
    requires line == [] || !IsArabicLetter(line[0])
    ensures !HasPrefix(line, marker)
  {
    if |marker| <= |line| {
      assert line[..|marker|][0] == line[0];
    }
  }

  /** A line with no Arabic letter is a heading only through pattern 3 (the two marker
      patterns start with Arabic letters). */
  lemma NonArabicNeedsNumber(line: string)
    requires forall k :: 0 <= k < |line| ==> !IsArabicLetter(line[k])
    ensures IsChapterHeading(line) <==> MatchesNumberedItem(line)
  {
    NoMarkerWithoutArabicStart(line, ChapterMarker);
    NoMarkerWithoutArabicStart(line, SectionMarker);
    NoMarkerWithoutArabicStart(line, BareChapterMarker);
  }

  /** "الفصل الأول" (chapter one) is a heading by pattern 1. */
  lemma MarkedChapterExample()
    ensures IsChapterHeading(ChapterMarker + " \U{0627}\U{0644}\U{0623}\U{0648}\U{0644}")
  {
    var line := ChapterMarker + " \U{0627}\U{0644}\U{0623}\U{0648}\U{0644}";
    assert line[..|ChapterMarker|] == ChapterMarker;
    assert MarkerWordAt(line, ChapterMarker, 6) by {
      assert line[5..6] == " ";
    }
    MarkerThenWordIff(line, ChapterMarker);
  }

  /** A line that starts with a Latin letter matches none of the three
      patterns: it is a heading only by the Arabic-share fallback. */
  lemma LatinStartNeedsArabicShare(line: string)
    requires line != [] && IsAsciiLetter(line[0])
    ensures IsChapterHeading(line) <==> IsShortArabicLine(line)
  {
    NoMarkerWithoutArabicStart(line, ChapterMarker);
    NoMarkerWithoutArabicStart(line, SectionMarker);
    NoMarkerWithoutArabicStart(line, BareChapterMarker);
    LeadRunExact(line, 0, IsSpace);
    assert line[0..] == line;
    LeadRunExact(line, 0, IsDecimalDigit);
  }

  /** So "Chapter One" is not a heading. */
  lemma LatinTitleExample()
    ensures !IsChapterHeading("Chapter One")
  {
    LatinStartNeedsArabicShare("Chapter One");
    NoArabicInChapterOne();
  }

  lemma NoArabicInChapterOne()
    ensures ArabicLetterCount("Chapter One") == 0
  {
    var line := "Chapter One";
    assert forall k | 0 <= k < |line| :: line[k] < '\U{0621}';
  }

  /** "١. س" (an Arabic-Indic numbered item) is a heading by pattern 3. */
  lemma NumberedItemExample()
    ensures IsChapterHeading("\U{0661}. \U{0633}")
  {
    var line := "\U{0661}. \U{0633}";
    assert NumberedItemAt(line, 0, 1, 1) by {
      assert line[..0] == [] && line[0..1] == ['\U{0661}'] && line[1..1] == [];
    }
    NumberedItemFoundByScan(line, 0, 1, 1);
  }

  /** "1234. س" is not: pattern 3 allows at most three digits. */
  lemma LongNumberExample()
    ensures !MatchesNumberedItem("1234. \U{0633}")
  {
    var line := "1234. \U{0633}";
    LeadRunExact(line, 0, IsSpace);
    assert line[0..] == line;
    assert line[..4] == "1234";
    LeadRunExact(line, 4, IsDecimalDigit);
  }
}
