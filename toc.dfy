/** Table-of-contents driven chapter export in pdf_ocr_service.py: the
    per-line parse of `extract_toc_entries` with `_TRAILING_PAGE_RE` and
    `_arabic_digits_to_int`, the keyword scan of `detect_toc_page`, and the
    start mapping, sort and page slicing of
    `export_chapters_to_zip_from_toc`. */
module Toc {

  import opened Wrappers
  import opened Text
  import opened LineNormalization
  import opened Export

  // ---------------------------------------------------------------------
  // One table-of-contents line
  // ---------------------------------------------------------------------

  /** `[.·•،…\-–—]`: the leader characters between a title and its page. */
  predicate IsLeader(c: char) {
    c == '.' || c == '\U{B7}' || c == '\U{2022}' || c == '\U{060C}'
    || c == '\U{2026}' || c == '-' || c == '\U{2013}' || c == '\U{2014}'
  }

  /** `[\.\·•\-–—،…\s]`. */
  predicate IsLeaderOrSpace(c: char) { IsLeader(c) || IsSpace(c) }

  /** `[0-9٠-٩]`. */
  predicate IsPageDigit(c: char) { IsAsciiDigit(c) || IsArabicIndicDigit(c) }

  /** A run of two or more leaders becomes " … ". */
  function CollapseLeaders(line: string): string {
    CollapseRuns(line, IsLeader, 2, " \U{2026} ")
  }

  /** The part of `_TRAILING_PAGE_RE` after the title,
      `\s*[leaders\s]*\s(?P<page>[0-9٠-٩]{1,4})$`, as the scan from the
      end: the trailing page-digit run has one to four digits, a whitespace
      character precedes it, and only leaders and whitespace come before
      that. (`\s*` is absorbed by the class, which holds `\s`.) */
  predicate PageSuffix(w: string) {
    var n := TrailRun(w, IsPageDigit);
    1 <= n <= 4 && n < |w| && IsSpace(w[|w| - n - 1]) && AllChars(w[..|w| - n - 1], IsLeaderOrSpace)
  }

  /** The same suffix split at the whitespace character `i`. */
  predicate PageSuffixAt(w: string, i: int) {
    0 <= i < |w| && AllChars(w[..i], IsLeaderOrSpace) && IsSpace(w[i])
    && 1 <= |w| - i - 1 <= 4 && AllChars(w[i + 1..], IsPageDigit)
  }

  lemma PageSuffixIff(w: string)
    ensures PageSuffix(w) <==> exists i :: PageSuffixAt(w, i)
  {
    var n := TrailRun(w, IsPageDigit);
    if PageSuffix(w) {
      assert PageSuffixAt(w, |w| - n - 1);
    }
    if i :| PageSuffixAt(w, i) {
      var d := w[i + 1..];
      assert w == w[..i + 1] + d;
      TrailRunConcat(w[..i + 1], d, IsPageDigit);
      assert w[..i + 1][i] == w[i];
      assert TrailRun(w[..i + 1], IsPageDigit) == 0;
    }
  }

  /** The title ends where the shortest non-empty prefix leaves a page
      suffix (`(?P<title>.+?)`). */
  function TitleEnd(w: string): (r: Option<nat>)
    ensures r.Some? ==> 1 <= r.value < |w| && PageSuffix(w[r.value..])
    ensures r.Some? ==> forall j :: 1 <= j < r.value ==> !PageSuffix(w[j..])
    ensures r.None? ==> forall j :: 1 <= j <= |w| ==> !PageSuffix(w[j..])
  {
    if |w| == 0 then None else FirstMatchFrom(w, 1, PageSuffix)
  }

  /** `.strip(". \t")`. */
  predicate IsTitleEdge(c: char) { c == '.' || c == ' ' || c == '\t' }

  /** `m.group("title").strip(". \t").strip()`. */
  function CleanTitle(t: string): (r: string)
    ensures r == [] || (!IsSpace(r[0]) && !IsSpace(r[|r| - 1]))
    ensures |r| <= |t|
  {
    Strip(Strip(t, IsTitleEdge), IsSpace)
  }

  datatype TocEntry = TocEntry(title: string, printedPage: nat)

  /** `str.maketrans("٠١٢٣٤٥٦٧٨٩", "0123456789")`. */
  function TranslateArabicIndic(s: string): (r: string)
    ensures |r| == |s|
  {
    seq(|s|, k requires 0 <= k < |s| => if IsArabicIndicDigit(s[k]) then DigitChar(DigitValue(s[k])) else s[k])
  }

  predicate IsNotDecimalDigit(c: char) { !IsDecimalDigit(c) }

  /** Python refuses to convert a numeral longer than this many digits
      (`sys.int_info.default_max_str_digits`); `_arabic_digits_to_int`
      catches the error and answers `None`. */
  const IntMaxStrDigits: nat := 4300

  /** `_arabic_digits_to_int(s)`: translate Arabic-Indic digits, take the
      first run of decimal digits, convert it. */
  function ArabicDigitsToInt(s: string): (r: Option<nat>)
  {
    var t := TranslateArabicIndic(s);
    var i := LeadRun(t, IsNotDecimalDigit);
    if i == |t| then None
    else
      var run := t[i..][..LeadRun(t[i..], IsDecimalDigit)];
      if |run| > IntMaxStrDigits then None else Some(DigitsValue(run))
  }

  /** A string that translates to nothing but decimal digits is read whole. */
  lemma ArabicDigitsWhole(s: string)
    requires s != [] && |s| <= IntMaxStrDigits && AllChars(TranslateArabicIndic(s), IsDecimalDigit)
    ensures ArabicDigitsToInt(s) == Some(DigitsValue(TranslateArabicIndic(s)))
  {
    var t := TranslateArabicIndic(s);
    LeadRunExact(t, 0, IsNotDecimalDigit);
    assert t[0..] == t;
    assert t[..|t|] == t;
    LeadRunExact(t, |t|, IsDecimalDigit);
  }

  /** The match of `_TRAILING_PAGE_RE` on a collapsed line, the title
      clean-up and the page conversion. */
  function ParseCollapsed(w: string): Option<TocEntry> {
    match TitleEnd(w)
    case None => None
    case Some(q) =>
      var rest := w[q..];
      var page := rest[|rest| - TrailRun(rest, IsPageDigit)..];
      match ArabicDigitsToInt(page)
      case None => None
      case Some(v) => Some(TocEntry(CleanTitle(w[..q]), v))
  }

  /** One line of the loop in `extract_toc_entries`. */
  function ParseTocLine(raw: string): Option<TocEntry> {
    var line := NormalizeLine(raw, false, false);
    if line == "" then None else ParseCollapsed(CollapseLeaders(line))
  }

  // ---------------------------------------------------------------------
  // What a line yields
  // ---------------------------------------------------------------------

  /** The line, after leader collapsing, ends with whitespace and then one
      to four page digits, with at least one character before the
      whitespace. */
  predicate EndsWithPageNumber(w: string) {
    var n := TrailRun(w, IsPageDigit);
    1 <= n <= 4 && n + 2 <= |w| && IsSpace(w[|w| - n - 1])
  }

  /** The trailing page digits of `w`. */
  function PageDigits(w: string): string {
    w[|w| - TrailRun(w, IsPageDigit)..]
  }

  lemma TitleEndIff(w: string)
    ensures TitleEnd(w).Some? <==> EndsWithPageNumber(w)
    ensures TitleEnd(w).Some? ==> PageDigits(w[TitleEnd(w).value..]) == PageDigits(w)
  {
    if TitleEnd(w).Some? {
      TitleEndPage(w, TitleEnd(w).value);
    }
    if EndsWithPageNumber(w) {
      var n := TrailRun(w, IsPageDigit);
      PageNumberSuffix(w, n, |w| - n - 1);
    }
  }

  /** Where the title ends, the rest carries the line's own page digits. */
  lemma TitleEndPage(w: string, q: nat)
    requires 1 <= q < |w| && PageSuffix(w[q..])
    ensures EndsWithPageNumber(w) && PageDigits(w[q..]) == PageDigits(w)
  {
    var n := TrailRun(w[q..], IsPageDigit);
    TrailRunOfSuffix(w, q, IsPageDigit);
    assert w[q..][|w[q..]| - n - 1] == w[|w| - n - 1];
    assert w[q..][|w[q..]| - n..] == w[|w| - n..];
  }

  /** The whitespace before the page digits starts a page suffix. */
  lemma PageNumberSuffix(w: string, n: nat, q: nat)
    requires n == TrailRun(w, IsPageDigit) && 1 <= n <= 4 && q == |w| - n - 1 && IsSpace(w[q])
    ensures PageSuffix(w[q..])
  {
    TrailRunSuffix(w, IsPageDigit);
    assert w[q + 1..] == w[|w| - n..];
    TrailRunAfter(w, q, IsPageDigit);
    SpaceThenDigits(w[q..], n);
  }

  /** One whitespace character followed by one to four page digits. */
  lemma SpaceThenDigits(rest: string, n: nat)
    requires 1 <= n <= 4 && |rest| == n + 1 && n == TrailRun(rest, IsPageDigit) && IsSpace(rest[0])
    ensures PageSuffix(rest)
  {
    assert rest[..0] == [];
  }

  /** A translated run of page digits is read digit by digit. */
  lemma TranslateKeepsValue(d: string)
    requires AllChars(d, IsPageDigit)
    ensures AllChars(TranslateArabicIndic(d), IsAsciiDigit)
    ensures DigitsValue(TranslateArabicIndic(d)) == DigitsValue(d)
    decreases |d|
  {
    if d != [] {
      var init := d[..|d| - 1];
      TranslateKeepsValue(init);
      assert TranslateArabicIndic(d)[..|d| - 1] == TranslateArabicIndic(init);
    }
  }

  lemma {:induction false} DigitsValueBound(d: string)
    requires AllChars(d, IsDecimalDigit)
    ensures DigitsValue(d) < Pow10(|d|)
    decreases |d|
  {
    if d != [] {
      DigitsValueBound(d[..|d| - 1]);
    }
  }

  /** One to four page digits convert to their value, below 10000. */
  lemma PageDigitsToInt(d: string)
    requires 1 <= |d| <= 4 && AllChars(d, IsPageDigit)
    ensures ArabicDigitsToInt(d) == Some(DigitsValue(d))
    ensures DigitsValue(d) < 10000
  {
    TranslateKeepsValue(d);
    var t := TranslateArabicIndic(d);
    assert AllChars(t, IsDecimalDigit) by {
      assert forall k :: 0 <= k < |t| ==> IsAsciiDigit(t[k]);
    }
    ArabicDigitsWhole(d);
    assert AllChars(d, IsDecimalDigit) by {
      assert forall k :: 0 <= k < |d| ==> IsPageDigit(d[k]);
    }
    DigitsValueBound(d);
    Pow10AtMostFour(|d|);
  }

  lemma {:induction false} Pow10AtMostFour(m: nat)
    requires m <= 4
    ensures Pow10(m) <= 10000
  {
    if m > 0 {
      Pow10AtMostFour(m - 1);
    }
  }

  /** A collapsed line yields an entry exactly when it ends with
      whitespace and one to four page digits after at least one character;
      the page is the value of those digits. */
  lemma ParseCollapsedIff(w: string)
    ensures ParseCollapsed(w).Some? <==> EndsWithPageNumber(w)
    ensures ParseCollapsed(w).Some? ==>
      ParseCollapsed(w).value.printedPage == DigitsValue(PageDigits(w)) < 10000
  {
    TitleEndIff(w);
    if TitleEnd(w).Some? {
      var q := TitleEnd(w).value;
      assert PageDigits(w[q..]) == PageDigits(w);
      PageDigitsToInt(PageDigits(w));
    }
  }

  /** A line yields an entry exactly when, normalised and with its leaders
      collapsed, it ends with whitespace followed by one to four Latin or
      Arabic-Indic digits; the printed page is the value of those digits,
      ٠-٩ counting as 0-9. Every other line is skipped. The lines come from
      `splitlines`, so none holds a line break; for a string that did, the
      regular expression's `.` and `$` would not cross the break while this
      reading does. */
  lemma ParseTocLineIff(raw: string)
    ensures var w := CollapseLeaders(NormalizeLine(raw, false, false));
      && (ParseTocLine(raw).Some? <==> NormalizeLine(raw, false, false) != "" && EndsWithPageNumber(w))
      && (ParseTocLine(raw).Some? ==>
            ParseTocLine(raw).value.printedPage == DigitsValue(PageDigits(w)) < 10000)
  {
    ParseCollapsedIff(CollapseLeaders(NormalizeLine(raw, false, false)));
  }

  /** `_arabic_digits_to_int` reads back what `str` writes. */
  lemma ArabicDigitsOfNatToString(n: nat)
    requires |NatToString(n)| <= IntMaxStrDigits
    ensures ArabicDigitsToInt(NatToString(n)) == Some(n)
  {
    var s := NatToString(n);
    AsciiTranslateUnchanged(s);
    ArabicDigitsWhole(s);
    DigitsValueOfNatToString(n);
  }

  lemma AsciiTranslateUnchanged(s: string)
    requires AllChars(s, IsAsciiDigit)
    ensures TranslateArabicIndic(s) == s
  {
  }

  /** The Arabic-Indic spelling of a numeral. */
  function ToArabicIndic(s: string): (r: string)
    requires AllChars(s, IsAsciiDigit)
    ensures |r| == |s| && AllChars(r, IsArabicIndicDigit)
  {
    seq(|s|, k requires 0 <= k < |s| => ((s[k] as int - '0' as int) + 0x0660) as char)
  }

  /** ...and what the Arabic-Indic spelling of `str(n)` writes. */
  lemma ArabicDigitsOfArabicIndic(n: nat)
    requires |NatToString(n)| <= IntMaxStrDigits
    ensures ArabicDigitsToInt(ToArabicIndic(NatToString(n))) == Some(n)
  {
    var s := NatToString(n);
    var a := ToArabicIndic(s);
    forall k | 0 <= k < |s|
      ensures TranslateArabicIndic(a)[k] == s[k]
    {
      assert a[k] as int == s[k] as int - '0' as int + 0x0660;
      assert IsArabicIndicDigit(a[k]);
      var d := DigitValue(a[k]);
      assert d == s[k] as int - '0' as int;
      assert DigitChar(d) as int == s[k] as int;
    }
    assert TranslateArabicIndic(a) == s;
    ArabicDigitsWhole(a);
    DigitsValueOfNatToString(n);
  }

  /** No decimal digit, no number. */
  lemma ArabicDigitsNone(s: string)
    requires forall k :: 0 <= k < |s| ==> !IsDecimalDigit(s[k])
    ensures ArabicDigitsToInt(s) == None
  {
    var t := TranslateArabicIndic(s);
    LeadRunExact(t, |t|, IsNotDecimalDigit);
  }

  // ---------------------------------------------------------------------
  // The page loop
  // ---------------------------------------------------------------------

  /** The present values of `os`, in order. */
  function SomeValues(os: seq<Option<TocEntry>>): (es: seq<TocEntry>)
    ensures |es| <= |os|
    decreases |os|
  {
    if os == [] then []
    else
      var init := SomeValues(os[..|os| - 1]);
      match os[|os| - 1]
      case None => init
      case Some(e) => init + [e]
  }

  /** Each value comes from a position of `os`. */
  lemma {:induction false} SomeValuesFrom(os: seq<Option<TocEntry>>)
    ensures forall e :: e in SomeValues(os) ==> exists k :: 0 <= k < |os| && os[k] == Some(e)
    decreases |os|
  {
    if os != [] {
      var init := os[..|os| - 1];
      SomeValuesFrom(init);
      forall e | e in SomeValues(os)
        ensures exists k :: 0 <= k < |os| && os[k] == Some(e)
      {
        if e in SomeValues(init) {
          var k :| 0 <= k < |init| && init[k] == Some(e);
          assert os[k] == init[k];
        } else {
          assert os[|os| - 1] == Some(e);
        }
      }
    }
  }

  /** No value exactly when every position is `None`. */
  lemma {:induction false} SomeValuesEmptyIff(os: seq<Option<TocEntry>>)
    ensures SomeValues(os) == [] <==> forall k :: 0 <= k < |os| ==> os[k].None?
    decreases |os|
  {
    if os != [] {
      var init := os[..|os| - 1];
      SomeValuesEmptyIff(init);
      assert forall k :: 0 <= k < |init| ==> os[k] == init[k];
    }
  }

  /** One more option adds its value, if it has one. */
  lemma SomeValuesStep(os: seq<Option<TocEntry>>, i: nat)
    requires i < |os|
    ensures SomeValues(os[..i + 1]) == SomeValues(os[..i]) + (if os[i].Some? then [os[i].value] else [])
  {
    assert os[..i + 1][..i] == os[..i];
  }

  /** What each line of the table yields. */
  function ParsedLines(lines: seq<string>): (r: seq<Option<TocEntry>>)
    ensures |r| == |lines|
  {
    seq(|lines|, k requires 0 <= k < |lines| => ParseTocLine(lines[k]))
  }

  /** The entries of the lines, in order. */
  function TocEntriesOf(lines: seq<string>): seq<TocEntry> {
    SomeValues(ParsedLines(lines))
  }

  /** `extract_toc_entries` once the page text is known. */
  method ExtractTocEntries(txt: string) returns (entries: seq<TocEntry>)
    ensures entries == TocEntriesOf(SplitLines(txt))
  {
    var lines := SplitLines(txt);
    ghost var parsed := ParsedLines(lines);
    entries := [];
    for i := 0 to |lines|
      invariant entries == SomeValues(parsed[..i])
    {
      SomeValuesStep(parsed, i);
      var entry := ParseTocLine(lines[i]);
      assert parsed[i] == entry;
      if entry.Some? {
        entries := entries + [entry.value];
      }
    }
    assert parsed[..|lines|] == parsed;
  }

  /** Every entry comes from a line. */
  lemma {:induction false} TocEntriesFromLines(lines: seq<string>)
    ensures forall e :: e in TocEntriesOf(lines) ==> exists k :: 0 <= k < |lines| && ParseTocLine(lines[k]) == Some(e)
  {
    SomeValuesFrom(ParsedLines(lines));
  }

  /** The table is empty exactly when no line yields an entry. */
  lemma {:induction false} TocEntriesEmptyIff(lines: seq<string>)
    ensures TocEntriesOf(lines) == [] <==> forall k :: 0 <= k < |lines| ==> ParseTocLine(lines[k]).None?
  {
    var os := ParsedLines(lines);
    SomeValuesEmptyIff(os);
    assert forall k :: 0 <= k < |lines| ==> os[k] == ParseTocLine(lines[k]);
    assert (forall k :: 0 <= k < |os| ==> os[k].None?) <==> (forall k :: 0 <= k < |lines| ==> ParseTocLine(lines[k]).None?);
  }

  /** Every printed page is below 10000. */
  lemma {:induction false} TocEntriesPageBound(lines: seq<string>)
    ensures forall e :: e in TocEntriesOf(lines) ==> e.printedPage < 10000
  {
    TocEntriesFromLines(lines);
    forall e | e in TocEntriesOf(lines)
      ensures e.printedPage < 10000
    {
      var k :| 0 <= k < |lines| && ParseTocLine(lines[k]) == Some(e);
      ParseTocLineIff(lines[k]);
    }
  }

  // ---------------------------------------------------------------------
  // Finding the table-of-contents page
  // ---------------------------------------------------------------------

  /** "المحتويات" (contents). */
  const ContentsKeyword: string := "\U{0627}\U{0644}\U{0645}\U{062D}\U{062A}\U{0648}\U{064A}\U{0627}\U{062A}"

  /** "فهرس" (index). */
  const IndexKeyword: string := "\U{0641}\U{0647}\U{0631}\U{0633}"

  /** "جدول المحتويات" (table of contents). */
  const TableKeyword: string := "\U{062C}\U{062F}\U{0648}\U{0644} " + ContentsKeyword

  predicate HasTocKeyword(txt: string) {
    Contains(txt, ContentsKeyword) || Contains(txt, IndexKeyword) || Contains(txt, TableKeyword)
  }

  /** The third keyword never decides anything: it contains the first. */
  lemma TableKeywordRedundant(txt: string)
    ensures HasTocKeyword(txt) <==> Contains(txt, ContentsKeyword) || Contains(txt, IndexKeyword)
  {
    if Contains(txt, TableKeyword) {
      var i :| 0 <= i <= |txt| && HasPrefix(txt[i..], TableKeyword);
      assert txt[i + 5..][..|ContentsKeyword|] == txt[i..][..|TableKeyword|][5..];
      assert HasPrefix(txt[i + 5..], ContentsKeyword);
    }
  }

  /** The page `idx` (from 1) was read and mentions a keyword. */
  predicate IsTocPage(texts: seq<Option<string>>, idx: int) {
    1 <= idx <= |texts| && texts[idx - 1].Some? && HasTocKeyword(texts[idx - 1].value)
  }

  /** `detect_toc_page` over the OCR text of each page, `None` standing for
      a page whose OCR failed: the first of the first `maxScanPages` pages
      that mentions a keyword. */
  method DetectTocPage(texts: seq<Option<string>>, maxScanPages: nat) returns (r: Option<nat>)
    ensures r.Some? ==> r.value <= maxScanPages && IsTocPage(texts, r.value)
    ensures r.Some? ==> forall j :: 1 <= j < r.value ==> !IsTocPage(texts, j)
    ensures r.None? ==> forall j :: 1 <= j <= maxScanPages ==> !IsTocPage(texts, j)
  {
    var scanned := if maxScanPages < |texts| then maxScanPages else |texts|;
    var keywords := [ContentsKeyword, IndexKeyword, TableKeyword];
    for idx := 1 to scanned + 1
      invariant forall j :: 1 <= j < idx ==> !IsTocPage(texts, j)
    {
      var page := texts[idx - 1];
      if page.Some? {
        for k := 0 to |keywords|
          invariant forall m :: 0 <= m < k ==> !Contains(page.value, keywords[m])
        {
          if Contains(page.value, keywords[k]) {
            return Some(idx);
          }
        }
        assert !HasTocKeyword(page.value) by {
          assert keywords[0] == ContentsKeyword && keywords[1] == IndexKeyword && keywords[2] == TableKeyword;
        }
      }
    }
    return None;
  }

  /** The TOC page the export reads: the requested one, or the detected one
      when nothing usable was requested and detection found a page. */
  function ChooseTocPage(requested: Option<int>, detected: Option<nat>): (r: Option<int>)
    ensures requested.Some? && requested.value > 0 ==> r == requested
    ensures (requested.None? || requested.value <= 0) && detected.Some? && detected.value > 0 ==> r == Some(detected.value)
    ensures (requested.None? || requested.value <= 0) && (detected.None? || detected.value == 0) ==> r == requested
  {
    if requested.Some? && requested.value > 0 then requested
    else if detected.Some? && detected.value > 0 then Some(detected.value)
    else requested
  }

  // ---------------------------------------------------------------------
  // From entries to chapter page ranges
  // ---------------------------------------------------------------------

  /** A retained entry: its title and its page in the PDF. */
  datatype TocStart = TocStart(title: string, pdfPage: int)

  /** The entries whose page, shifted by the printed-to-PDF offset, lies in
      the PDF, in table order. */
  function InRangeStarts(toc: seq<TocEntry>, offset: int, pageCount: nat): (r: seq<TocStart>)
    ensures |r| <= |toc|
    ensures forall k :: 0 <= k < |r| ==> 1 <= r[k].pdfPage <= pageCount
    decreases |toc|
  {
    if toc == [] then []
    else
      var init := InRangeStarts(toc[..|toc| - 1], offset, pageCount);
      var e := toc[|toc| - 1];
      var p := e.printedPage + offset;
      if p < 1 || p > pageCount then init else init + [TocStart(e.title, p)]
  }

  lemma {:induction false} InRangeEmptyIff(toc: seq<TocEntry>, offset: int, pageCount: nat)
    ensures InRangeStarts(toc, offset, pageCount) == [] <==>
      forall k :: 0 <= k < |toc| ==> toc[k].printedPage + offset < 1 || toc[k].printedPage + offset > pageCount
    decreases |toc|
  {
    if toc != [] {
      var init := toc[..|toc| - 1];
      InRangeEmptyIff(init, offset, pageCount);
      forall k | 0 <= k < |init|
        ensures toc[k] == init[k]
      {
      }
    }
  }

  /** `sorted(key=pdf_page)`: insertion after every element with a page not
      above the new one keeps equal pages in table order. */
  function InsertByPage(sorted: seq<TocStart>, x: TocStart): (r: seq<TocStart>)
    ensures |r| == |sorted| + 1
    decreases |sorted|
  {
    if sorted == [] then [x]
    else if sorted[0].pdfPage <= x.pdfPage then [sorted[0]] + InsertByPage(sorted[1..], x)
    else [x] + sorted
  }

  function SortByPage(s: seq<TocStart>): (r: seq<TocStart>)
    ensures |r| == |s|
    decreases |s|
  {
    if s == [] then [] else InsertByPage(SortByPage(s[..|s| - 1]), s[|s| - 1])
  }

  /** Insertion adds exactly the one element. */
  lemma {:induction false} InsertByPageMultiset(sorted: seq<TocStart>, x: TocStart)
    ensures multiset(InsertByPage(sorted, x)) == multiset(sorted) + multiset{x}
    decreases |sorted|
  {
    if sorted != [] {
      assert sorted == [sorted[0]] + sorted[1..];
      InsertByPageMultiset(sorted[1..], x);
    }
  }

  /** The sort is a permutation. */
  lemma {:induction false} SortByPageMultiset(s: seq<TocStart>)
    ensures multiset(SortByPage(s)) == multiset(s)
    decreases |s|
  {
    if s != [] {
      assert s == s[..|s| - 1] + [s[|s| - 1]];
      SortByPageMultiset(s[..|s| - 1]);
      InsertByPageMultiset(SortByPage(s[..|s| - 1]), s[|s| - 1]);
    }
  }

  predicate SortedByPage(s: seq<TocStart>) {
    forall i, j :: 0 <= i < j < |s| ==> s[i].pdfPage <= s[j].pdfPage
  }

  /** The elements of `s` on page `p`, in order. */
  function OnPage(s: seq<TocStart>, p: int): seq<TocStart>
    decreases |s|
  {
    if s == [] then [] else (if s[0].pdfPage == p then [s[0]] else []) + OnPage(s[1..], p)
  }

  lemma {:induction false} OnPageConcat(a: seq<TocStart>, b: seq<TocStart>, p: int)
    ensures OnPage(a + b, p) == OnPage(a, p) + OnPage(b, p)
    decreases |a|
  {
    if a != [] {
      assert (a + b)[1..] == a[1..] + b;
      OnPageConcat(a[1..], b, p);
    } else {
      assert a + b == b;
    }
  }

  lemma {:induction false} OnPageAbove(s: seq<TocStart>, p: int)
    requires forall k :: 0 <= k < |s| ==> s[k].pdfPage > p
    ensures OnPage(s, p) == []
    decreases |s|
  {
    if s != [] {
      OnPageAbove(s[1..], p);
    }
  }

  lemma {:induction false} InsertByPageSorted(sorted: seq<TocStart>, x: TocStart)
    requires SortedByPage(sorted)
    ensures SortedByPage(InsertByPage(sorted, x))
    decreases |sorted|
  {
    if sorted != [] && sorted[0].pdfPage <= x.pdfPage {
      var tail := InsertByPage(sorted[1..], x);
      InsertByPageSorted(sorted[1..], x);
      InsertByPageMultiset(sorted[1..], x);
      forall k | 0 <= k < |tail|
        ensures sorted[0].pdfPage <= tail[k].pdfPage
      {
        InMultisetBound(sorted, x, tail, k);
      }
    }
  }

  /** Every element after the head of a sorted list, and the inserted one,
      is on a page not below the head's. */
  lemma InMultisetBound(sorted: seq<TocStart>, x: TocStart, tail: seq<TocStart>, k: nat)
    requires SortedByPage(sorted) && sorted != [] && sorted[0].pdfPage <= x.pdfPage
    requires multiset(tail) == multiset(sorted[1..]) + multiset{x} && k < |tail|
    ensures sorted[0].pdfPage <= tail[k].pdfPage
  {
    assert tail[k] in multiset(tail);
    if tail[k] != x {
      assert tail[k] in multiset(sorted[1..]);
      var m :| 0 <= m < |sorted[1..]| && sorted[1..][m] == tail[k];
      assert sorted[m + 1] == tail[k];
    }
  }

  lemma OnPageSingle(y: TocStart, p: int)
    ensures OnPage([y], p) == if y.pdfPage == p then [y] else []
  {
    assert [y][1..] == [];
  }

  lemma InsertByPageBehind(sorted: seq<TocStart>, x: TocStart)
    requires sorted != [] && sorted[0].pdfPage <= x.pdfPage
    ensures InsertByPage(sorted, x) == [sorted[0]] + InsertByPage(sorted[1..], x)
  {
  }

  /** `a == h + t`, `t == r + e` and `s == h + r` give `a == s + e`. */
  lemma Regroup(a: seq<TocStart>, s: seq<TocStart>, h: seq<TocStart>, t: seq<TocStart>, r: seq<TocStart>, e: seq<TocStart>)
    requires a == h + t && t == r + e && s == h + r
    ensures a == s + e
  {
  }

  /** Insertion behind the head: what the tail gains, the whole list gains. */
  lemma {:induction false} InsertBehindHead(sorted: seq<TocStart>, x: TocStart, p: int, extra: seq<TocStart>)
    requires sorted != [] && sorted[0].pdfPage <= x.pdfPage
    requires OnPage(InsertByPage(sorted[1..], x), p) == OnPage(sorted[1..], p) + extra
    ensures OnPage(InsertByPage(sorted, x), p) == OnPage(sorted, p) + extra
  {
    var rest := sorted[1..];
    var tail := InsertByPage(rest, x);
    var h := OnPage([sorted[0]], p);
    InsertByPageBehind(sorted, x);
    OnPageConcat([sorted[0]], tail, p);
    assert sorted == [sorted[0]] + rest;
    OnPageConcat([sorted[0]], rest, p);
    Regroup(OnPage(InsertByPage(sorted, x), p), OnPage(sorted, p), h, OnPage(tail, p), OnPage(rest, p), extra);
  }

  /** Insertion in front of a sorted list whose head is on a later page. */
  lemma {:induction false} InsertInFront(sorted: seq<TocStart>, x: TocStart, p: int)
    requires SortedByPage(sorted) && sorted != [] && sorted[0].pdfPage > x.pdfPage
    ensures OnPage(InsertByPage(sorted, x), p) == OnPage(sorted, p) + (if x.pdfPage == p then [x] else [])
  {
    OnPageSingle(x, p);
    assert InsertByPage(sorted, x) == [x] + sorted;
    OnPageConcat([x], sorted, p);
    if x.pdfPage == p {
      OnPageAbove(sorted, p);
    }
  }

  lemma {:induction false} InsertByPageOnPage(sorted: seq<TocStart>, x: TocStart, p: int)
    requires SortedByPage(sorted)
    ensures OnPage(InsertByPage(sorted, x), p) == OnPage(sorted, p) + (if x.pdfPage == p then [x] else [])
    decreases |sorted|
  {
    if sorted == [] {
      OnPageSingle(x, p);
      assert OnPage(sorted, p) == [];
    } else if sorted[0].pdfPage <= x.pdfPage {
      InsertByPageOnPage(sorted[1..], x, p);
      InsertBehindHead(sorted, x, p, if x.pdfPage == p then [x] else []);
    } else {
      InsertInFront(sorted, x, p);
    }
  }

  lemma {:induction false} SortByPageSorted(s: seq<TocStart>)
    ensures SortedByPage(SortByPage(s))
    decreases |s|
  {
    if s != [] {
      SortByPageSorted(s[..|s| - 1]);
      InsertByPageSorted(SortByPage(s[..|s| - 1]), s[|s| - 1]);
    }
  }

  lemma {:induction false} SortByPageOnPage(s: seq<TocStart>, p: int)
    ensures OnPage(SortByPage(s), p) == OnPage(s, p)
    decreases |s|
  {
    if s != [] {
      var init := s[..|s| - 1];
      var x := s[|s| - 1];
      SortByPageOnPage(init, p);
      var sortedInit := SortByPage(init);
      SortByPageSorted(init);
      assert SortByPage(s) == InsertByPage(sortedInit, x);
      InsertByPageOnPage(sortedInit, x, p);
      OnPageSingle(x, p);
      assert OnPage(SortByPage(s), p) == OnPage(init, p) + OnPage([x], p);
      assert s == init + [x];
      OnPageConcat(init, [x], p);
    }
  }

  /** The sort is stable: for every page the entries on that page keep their
      table order (and so the result is a permutation of its input). */
  lemma SortByPageProps(s: seq<TocStart>, p: int)
    ensures SortedByPage(SortByPage(s))
    ensures OnPage(SortByPage(s), p) == OnPage(s, p)
  {
    SortByPageSorted(s);
    SortByPageOnPage(s, p);
  }

  /** Outcome of mapping the table of contents to PDF pages. */
  const OutOfRangeMessage: string := "TOC pages map outside the PDF range. Adjust the offset."

  /** The mapping loop, the sort and the range check of
      `export_chapters_to_zip_from_toc`. */
  method MapTocStarts(toc: seq<TocEntry>, offset: int, pageCount: nat) returns (r: Result<seq<TocStart>, string>)
    ensures InRangeStarts(toc, offset, pageCount) == [] ==> r == Err(OutOfRangeMessage)
    ensures InRangeStarts(toc, offset, pageCount) != [] ==> r == Ok(SortByPage(InRangeStarts(toc, offset, pageCount)))
  {
    var starts: seq<TocStart> := [];
    for i := 0 to |toc|
      invariant starts == InRangeStarts(toc[..i], offset, pageCount)
    {
      assert toc[..i + 1][..i] == toc[..i];
      var p := toc[i].printedPage + offset;
      if p < 1 || p > pageCount {
        continue;
      }
      starts := starts + [TocStart(toc[i].title, p)];
    }
    assert toc[..|toc|] == toc;
    starts := SortByPage(starts);
    if starts == [] {
      return Err(OutOfRangeMessage);
    }
    return Ok(starts);
  }

  /** What the mapping guarantees: an error exactly when no entry lands in
      the PDF; otherwise every start lies in the PDF, starts are in page
      order, and each page's entries keep their table order. */
  lemma MapTocStartsProps(toc: seq<TocEntry>, offset: int, pageCount: nat, p: int)
    ensures var kept := InRangeStarts(toc, offset, pageCount);
      && (kept == [] <==> forall k :: 0 <= k < |toc| ==>
            toc[k].printedPage + offset < 1 || toc[k].printedPage + offset > pageCount)
      && SortedByPage(SortByPage(kept))
      && (forall k :: 0 <= k < |SortByPage(kept)| ==> 1 <= SortByPage(kept)[k].pdfPage <= pageCount)
      && OnPage(SortByPage(kept), p) == OnPage(kept, p)
      && multiset(SortByPage(kept)) == multiset(kept)
  {
    var kept := InRangeStarts(toc, offset, pageCount);
    InRangeEmptyIff(toc, offset, pageCount);
    SortByPageProps(kept, p);
    SortByPageMultiset(kept);
    SortedStartsValid(toc, offset, pageCount);
  }

  predicate PagesWithin(s: seq<TocStart>, pageCount: nat) {
    forall k :: 0 <= k < |s| ==> 1 <= s[k].pdfPage <= pageCount
  }

  lemma {:induction false} InsertByPageWithin(sorted: seq<TocStart>, x: TocStart, pageCount: nat)
    requires PagesWithin(sorted, pageCount) && 1 <= x.pdfPage <= pageCount
    ensures PagesWithin(InsertByPage(sorted, x), pageCount)
    decreases |sorted|
  {
    if sorted != [] && sorted[0].pdfPage <= x.pdfPage {
      InsertByPageWithin(sorted[1..], x, pageCount);
      var tail := InsertByPage(sorted[1..], x);
      assert InsertByPage(sorted, x) == [sorted[0]] + tail;
    }
  }

  lemma {:induction false} SortByPageWithin(s: seq<TocStart>, pageCount: nat)
    requires PagesWithin(s, pageCount)
    ensures PagesWithin(SortByPage(s), pageCount)
    decreases |s|
  {
    if s != [] {
      SortByPageWithin(s[..|s| - 1], pageCount);
      InsertByPageWithin(SortByPage(s[..|s| - 1]), s[|s| - 1], pageCount);
    }
  }

  /** The sorted in-range starts are what the slicing needs. */
  lemma SortedStartsValid(toc: seq<TocEntry>, offset: int, pageCount: nat)
    ensures ValidStarts(SortByPage(InRangeStarts(toc, offset, pageCount)), pageCount)
  {
    var kept := InRangeStarts(toc, offset, pageCount);
    SortByPageSorted(kept);
    SortByPageWithin(kept, pageCount);
  }

  // ---------------------------------------------------------------------
  // Page slicing
  // ---------------------------------------------------------------------

  datatype TocChapter = TocChapter(title: string, content: string, pageStart: int, pageEnd: int)

  /** Starts as the slicing receives them: in the PDF and in page order. */
  predicate ValidStarts(starts: seq<TocStart>, pageCount: nat) {
    SortedByPage(starts) && forall k :: 0 <= k < |starts| ==> 1 <= starts[k].pdfPage <= pageCount
  }

  /** `pages[lo:hi]` for `0 <= lo, hi <= len(pages)`. */
  function SlicePages(pages: seq<string>, lo: int, hi: int): (r: seq<string>)
    requires 0 <= lo <= |pages| && 0 <= hi <= |pages|
    ensures lo <= hi ==> r == pages[lo..hi]
    ensures lo > hi ==> r == []
  {
    if lo <= hi then pages[lo..hi] else []
  }

  /** Chapter `i` runs from its start to the page before the next start, and
      the last to the end of the PDF. */
  function RangeEnd(starts: seq<TocStart>, i: nat, pageCount: nat): int
    requires i < |starts|
  {
    if i + 1 < |starts| then starts[i + 1].pdfPage - 1 else pageCount
  }

  function TocChapterAt(starts: seq<TocStart>, pages: seq<string>, i: nat): TocChapter
    requires ValidStarts(starts, |pages|) && i < |starts|
  {
    var startP := starts[i].pdfPage;
    var endP := RangeEnd(starts, i, |pages|);
    TocChapter(starts[i].title, Join(SlicePages(pages, startP - 1, endP), "\n"), startP, endP)
  }

  /** One chapter per start. */
  function TocChapters(starts: seq<TocStart>, pages: seq<string>): seq<TocChapter>
    requires ValidStarts(starts, |pages|)
  {
    seq(|starts|, i requires 0 <= i < |starts| => TocChapterAt(starts, pages, i))
  }

  /** The slicing loop of `export_chapters_to_zip_from_toc`. */
  method SliceTocChapters(starts: seq<TocStart>, pages: seq<string>) returns (chapters: seq<TocChapter>)
    requires ValidStarts(starts, |pages|)
    ensures chapters == TocChapters(starts, pages)
  {
    chapters := [];
    for i := 0 to |starts|
      invariant |chapters| == i
      invariant forall t :: 0 <= t < i ==> chapters[t] == TocChapterAt(starts, pages, t)
    {
      var startP := starts[i].pdfPage;
      var endP := if i + 1 < |starts| then starts[i + 1].pdfPage - 1 else |pages|;
      var content := Join(SlicePages(pages, startP - 1, endP), "\n");
      chapters := chapters + [TocChapter(starts[i].title, content, startP, endP)];
    }
    assert chapters == TocChapters(starts, pages);
  }

  /** With strictly increasing starts the ranges tile the PDF from the first
      start to the last page: each range is non-empty, ends on the page
      before the next begins, and the last ends on the last page. */
  lemma TocRangesContiguous(starts: seq<TocStart>, pages: seq<string>)
    requires ValidStarts(starts, |pages|) && starts != []
    requires forall i :: 0 <= i < |starts| - 1 ==> starts[i].pdfPage < starts[i + 1].pdfPage
    ensures forall i :: 0 <= i < |starts| ==>
      TocChapterAt(starts, pages, i).pageStart <= TocChapterAt(starts, pages, i).pageEnd
    ensures forall i :: 0 <= i < |starts| - 1 ==>
      TocChapterAt(starts, pages, i).pageEnd + 1 == TocChapterAt(starts, pages, i + 1).pageStart
    ensures TocChapterAt(starts, pages, |starts| - 1).pageEnd == |pages|
  {
  }

  /** ...and their pages, taken in order, are exactly the pages from the
      first start on. */
  lemma {:induction false} TocRangesCover(starts: seq<TocStart>, pages: seq<string>, i: nat)
    requires ValidStarts(starts, |pages|) && i < |starts|
    requires forall k :: 0 <= k < |starts| - 1 ==> starts[k].pdfPage < starts[k + 1].pdfPage
    ensures RangePages(starts, pages, i) == pages[starts[i].pdfPage - 1..]
    decreases |starts| - i
  {
    var lo := starts[i].pdfPage - 1;
    var hi := RangeEnd(starts, i, |pages|);
    if i + 1 < |starts| {
      TocRangesCover(starts, pages, i + 1);
      assert pages[lo..hi] + pages[hi..] == pages[lo..];
    }
  }

  /** The pages of chapters `i..` concatenated. */
  function RangePages(starts: seq<TocStart>, pages: seq<string>, i: nat): seq<string>
    requires ValidStarts(starts, |pages|) && i < |starts|
    decreases |starts| - i
  {
    var here := SlicePages(pages, starts[i].pdfPage - 1, RangeEnd(starts, i, |pages|));
    if i + 1 < |starts| then here + RangePages(starts, pages, i + 1) else here
  }

  /** Two entries on the same page: the earlier one ends before it starts
      and gets no text. */
  lemma SharedStartIsEmpty(starts: seq<TocStart>, pages: seq<string>, i: nat)
    requires ValidStarts(starts, |pages|) && i + 1 < |starts|
    requires starts[i].pdfPage == starts[i + 1].pdfPage
    ensures TocChapterAt(starts, pages, i).pageEnd < TocChapterAt(starts, pages, i).pageStart
    ensures TocChapterAt(starts, pages, i).content == ""
  {
  }

  // ---------------------------------------------------------------------
  // The whole table-of-contents export, without OCR and files
  // ---------------------------------------------------------------------

  datatype TocExport =
    | NoTocEntries(rawTocText: string)
    | Exported(chapters: seq<TocChapter>, names: seq<string>, entries: seq<string>, tocCount: nat)

  /** The chapter titles, in order, that the file names are made from. */
  function ChapterTitles(chs: seq<TocChapter>): (r: seq<string>)
    ensures |r| == |chs|
    ensures forall i :: 0 <= i < |chs| ==> r[i] == chs[i].title
  {
    seq(|chs|, i requires 0 <= i < |chs| => chs[i].title)
  }

  /** `export_chapters_to_zip_from_toc` given the OCR text of the table of
      contents page and of every page: no entry gives back the raw text; no
      entry inside the PDF is the error; otherwise the chapters sliced at
      the sorted in-range starts, with unique names and their archive
      entries. */
  method ExportFromToc(tocText: string, pages: seq<string>, offset: int)
    returns (r: Result<TocExport, string>, ghost ks: seq<nat>)
    ensures TocEntriesOf(SplitLines(tocText)) == [] ==> r == Ok(NoTocEntries(tocText))
    ensures var toc := TocEntriesOf(SplitLines(tocText));
      toc != [] && InRangeStarts(toc, offset, |pages|) == [] ==> r == Err(OutOfRangeMessage)
    ensures
      var toc := TocEntriesOf(SplitLines(tocText));
      var starts := SortByPage(InRangeStarts(toc, offset, |pages|));
      toc != [] && starts != [] ==>
        ValidStarts(starts, |pages|) && r.Ok? && r.value.Exported? && r.value.tocCount == |toc|
        && r.value.chapters == TocChapters(starts, pages)
    ensures
      var toc := TocEntriesOf(SplitLines(tocText));
      var starts := SortByPage(InRangeStarts(toc, offset, |pages|));
      toc != [] && starts != [] ==>
        r.Ok? && r.value.Exported? && |r.value.names| == |starts| && |r.value.entries| == |starts|
        && DistinctIgnoringCase(r.value.names)
        && (forall i :: 0 <= i < |starts| ==> r.value.entries[i] == EntryName(i + 1, r.value.names[i]))
    ensures
      var toc := TocEntriesOf(SplitLines(tocText));
      var starts := SortByPage(InRangeStarts(toc, offset, |pages|));
      toc != [] && starts != [] ==>
        r.Ok? && r.value.Exported? && |r.value.names| == |starts| && |ks| == |starts|
        && var bases := BaseNames(ChapterTitles(r.value.chapters));
        |bases| == |starts|
        && (forall i :: 0 <= i < |starts| ==> r.value.names[i] == Candidate(bases[i], ks[i]))
        && (forall i, m :: 0 <= i < |starts| && 0 <= m < ks[i] ==>
              TakenBefore(r.value.names, i, Lower(Candidate(bases[i], m))))
  {
    var toc := ExtractTocEntries(tocText);
    if toc == [] {
      return Ok(NoTocEntries(tocText)), [];
    }
    var mapped := MapTocStarts(toc, offset, |pages|);
    if mapped.Err? {
      return Err(mapped.error), [];
    }
    var starts := mapped.value;
    SortedStartsValid(toc, offset, |pages|);
    var chapters := SliceTocChapters(starts, pages);
    var titles := ChapterTitles(chapters);
    var names, entries;
    names, entries, ks := ExportNames(titles);
    r := Ok(Exported(chapters, names, entries, |toc|));
  }
}
