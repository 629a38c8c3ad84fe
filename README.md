# document-extractor: a Dafny model of its text core

This project models the parts of the `document-extractor` service that work on
strings and lists once the optical character recognition (OCR) has produced text.
The model proves what those parts guarantee. It covers two source files.

**`pdf_ocr_service.py`, the pipeline from OCR text to chapters of an Arabic book:**

- **Line normalisation** (`normalize.dfy`, module `LineNormalization`). `_normalize_line`:
  - strips the byte-order and direction marks;
  - collapses runs of space, tab and no-break space;
  - turns dot runs into an ellipsis;
  - optionally folds Arabic letter forms and drops diacritics.
- **The heading classifier** (`headings.dfy`, module `Headings`). It covers the three
  anchored `_CHAPTER_PATTERNS` and the short-Arabic-line fallback of
  `_is_chapter_heading`. Patterns 1 and 3 are written twice: as the scan the regular
  expression performs, and as a plain statement of what it accepts. A lemma proves
  the two agree. Pattern 2 is a fixed prefix, so its scan is the prefix test itself.
- **The heuristic segmenter** (`segmenter.dfy`, module `Segmentation`):
  - the per-page clean-up of `_ocr_pdf_to_pages`;
  - `Chapter.as_dict`;
  - `_segment_chapters`, as a method with the source's nested page and line loops,
    proved equal to a fold over the lines;
  - `extract_chapters_as_json`.
- **The table of contents** (`toc.dfy`, module `Toc`):
  - the per-line parse of `extract_toc_entries`, with `_TRAILING_PAGE_RE` and
    `_arabic_digits_to_int`;
  - the keyword scan of `detect_toc_page`;
  - the choice of the table-of-contents page;
  - the start mapping, stable sort and page slicing of `export_chapters_to_zip_from_toc`.
- **Export naming and paragraphs** (`export.dfy`, module `Export`):
  - `_sanitize_filename`;
  - the `used_names` loops that make names unique ignoring case;
  - the `NN_name.docx` entry names;
  - `_looks_mixed_content`;
  - the document title with its "untitled" placeholder;
  - the blank-line paragraph split.

**`extractor_service.py`, the string core of the ID-card reader** (`card.dfy`, module `CardReader`):

- `clean_mrz_line`, for lines of the machine-readable zone (MRZ) of the card;
- the `\d{8,12}` search that yields the card and chip numbers;
- the choice of the MRZ lines;
- surname and given names from MRZ line 3;
- birth date, gender, expiry date and nationality from MRZ line 2;
- `extract_card_data` as a method that fills the record.

Shared pieces live in `text.dfy` (module `Text`) and `wrappers.dfy` (module `Wrappers`):

- Python's string operations, as used here:
  - `strip`, `splitlines`, `split`, `join` and `lower`;
  - `re.sub` over a character class;
  - `re.search` as a leftmost match;
  - `str(n)`;
  - the list comprehensions that strip every part and drop the empty ones, shared by both
    source files;
- the `Option` and `Result` types.

Python's regular-expression classes are character predicates. `\s` is `Text.IsSpace`, the
characters for which `str.isspace` holds. A match is a scan that tests each position
from the left, which is what `re.search` reports.

## Notes on behaviour

Three facts about the code that a reader might expect otherwise:

- **Adjacent chapters share a page.** Adjacent heuristic chapters share their boundary
  page: `chapters[i].page_end == chapters[i+1].page_start`.
  `Segmentation.SegmentShape` proves this. It is not `page_start - 1`.
- **"Chapter One" is not a heading.** A Latin title such as "Chapter One" is never a
  heading. All three patterns begin with Arabic text or a digit. The fallback needs
  Arabic letters to exceed 40% of the line. See `Headings.LatinTitleExample` and
  `Headings.LatinStartNeedsArabicShare`.
- **No deduplication or sort in `extract_toc_entries`.** It does neither: entries come
  out in line order, repeats included (`Toc.ExtractTocEntries`). The only sort is the
  stable sort by PDF page in the export (`Toc.SortByPage`).

## Model

| member | source | states |
|---|---|---|
| LineNormalization.NormalizeLine | pdf_ocr_service.py:143-163 | the normalised line never begins or ends with whitespace, whatever the flags |
| LineNormalization.NormalizeLineClean | pdf_ocr_service.py:143-163 | with diacritics kept (the calls at lines 249 and 510), for either value of `aggressive`: no whitespace at either end, no tab, no no-break space, no two spaces in a row, no two dots in a row, and never longer than the input |
| LineNormalization.NormalizeLineChars | pdf_ocr_service.py:143-163 | normalisation adds no character other than a space, the ellipsis and the letters the `aggressive` table maps to |
| LineNormalization.UnstrippedClean | pdf_ocr_service.py:144-162 | before the final `strip()` the line already has no tab, no no-break space, no double space and no double dot, and is no longer than the input |
| LineNormalization.CollapseStagesClean | pdf_ocr_service.py:146-148 | after the space substitution and the dot substitution, the four spacing facts hold |
| LineNormalization.FoldKeepsClean | pdf_ocr_service.py:150-160 | the letter-form table keeps those facts and the length |
| LineNormalization.StripKeepsClean | pdf_ocr_service.py:163 | stripping keeps them, and the result has no "  " and no ".." |
| LineNormalization.ReplaceAllLength | pdf_ocr_service.py:159-160 | the replacement loop keeps the length of the line |
| LineNormalization.ReplaceAllChars | pdf_ocr_service.py:159-160 | every character after the loop is from the line or is a replacement target |
| LineNormalization.ReplaceAllKeepsNoDouble | pdf_ocr_service.py:159-160 | a character no pair mentions keeps every adjacency it had |
| Headings.MarkerThenWordIff | pdf_ocr_service.py:132 | the scan for pattern 1 succeeds iff some position `j` holds a word character after the marker and a non-empty whitespace run |
| Headings.MatchesNumberedItemIff | pdf_ocr_service.py:134 | the scan for pattern 3 succeeds iff there are positions `i, j, k` with leading whitespace before `i`, one to three digits in `[i, j)`, whitespace up to one of `-.،)` at `k`, and whitespace after it |
| Headings.NumberedItemScanFinds | pdf_ocr_service.py:134 | a successful pattern-3 scan yields such positions |
| Headings.NumberedItemFoundByScan | pdf_ocr_service.py:134 | any such positions make the scan succeed |
| Headings.ArabicLetterCount | pdf_ocr_service.py:174 | the count of letters in `ء-ي` is at most the length, and is 0 iff the line has no such letter |
| Headings.IsChapterHeading | pdf_ocr_service.py:166-177 | a definition without a contract of its own: a non-empty line that one of the three patterns matches, or a short Arabic line; its properties are the lemmas in the next rows |
| Headings.EmptyIsNotHeading | pdf_ocr_service.py:166-168 | the empty line is not a heading |
| Headings.PunctuatedOrLongNeedsPattern | pdf_ocr_service.py:166-177 | a line longer than 40, or with '.' or '۔', or with no space, is a heading iff one of the three patterns matches |
| Headings.NoMarkerWithoutArabicStart | pdf_ocr_service.py:132-133 | a line not starting with an Arabic letter begins with no marker word |
| Headings.NonArabicNeedsNumber | pdf_ocr_service.py:131-177 | a line without Arabic letters is a heading iff the numbered-item pattern matches |
| Headings.LatinStartNeedsArabicShare | pdf_ocr_service.py:166-177 | a line starting with a Latin letter is a heading iff the Arabic-share fallback holds |
| Headings.LatinTitleExample | pdf_ocr_service.py:166-177 | "Chapter One" is not a heading |
| Headings.NoArabicInChapterOne | pdf_ocr_service.py:174-175 | "Chapter One" has no Arabic letter for the fallback to count |
| Headings.MarkedChapterExample | pdf_ocr_service.py:132 | "الفصل الأول" is a heading |
| Headings.NumberedItemExample | pdf_ocr_service.py:134 | "١. س" (Arabic-Indic digit) is a heading |
| Headings.LongNumberExample | pdf_ocr_service.py:134 | "1234. س" does not match pattern 3: at most three digits |
| Segmentation.AsDict | pdf_ocr_service.py:187-193 | the record keeps the title and both page numbers; its content is the stripped newline join (see ContentTextRoundTrip) |
| Segmentation.ContentTextRoundTrip | pdf_ocr_service.py:190 | for chapters of clean lines the content text is exactly the lines joined by "\n", and it splits back into them |
| Segmentation.SegmentChapters | pdf_ocr_service.py:257-273 | `_segment_chapters` returns the fold `Segment(IsChapterHeading, pages, page_offset)` |
| Segmentation.SegmentBy | pdf_ocr_service.py:257-273 | the nested page and line loops compute the fold for any heading test |
| Segmentation.Segment | pdf_ocr_service.py:257-273 | a definition without a contract of its own: the fold over the pages and lines that `SegmentBy` and `SegmentChapters` are proved equal to; `SegmentShape`, `SegmentKeepsLines` and `SegmentLastEnd` state its properties |
| Segmentation.RunPagesSnoc | pdf_ocr_service.py:260-270 | one turn of the page loop, with `page_end` set afterwards, is one more page of the fold |
| Segmentation.StepLinesSnoc | pdf_ocr_service.py:262-269 | one turn of the line loop is one more line of the fold |
| Segmentation.HeadingKeepsInv | pdf_ocr_service.py:263-267 | a heading after content closes the current chapter at this page and opens one starting here, keeping the segmenter invariant |
| Segmentation.ContentKeepsInv | pdf_ocr_service.py:268-269 | appending any other line keeps the invariant |
| Segmentation.StepLinesKeepsInv | pdf_ocr_service.py:262-269 | a page's lines keep the invariant and account for exactly those lines |
| Segmentation.RunPagesInv | pdf_ocr_service.py:259-270 | after any number of pages the invariant holds for all lines read, and the open chapter ends on the last page |
| Segmentation.FinishShape | pdf_ocr_service.py:271-273 | the invariant gives the shape of the returned list |
| Segmentation.SegmentShape | pdf_ocr_service.py:257-273 | every chapter has content; the first is titled "مقدمة" and starts at `1 + page_offset`; every later one is titled by a heading; `1+offset <= page_start <= page_end <= len(pages)+offset`; each chapter ends on the page where the next starts |
| Segmentation.SegmentKeepsLines | pdf_ocr_service.py:257-273 | no chapters iff no lines; the first chapter's content, then each later title and content, is the input lines in order, except a final heading line, which is dropped |
| Segmentation.SegmentLastEnd | pdf_ocr_service.py:270-272 | when the open chapter is kept, the last chapter ends on the last page |
| Segmentation.OpenChapterHasContent | pdf_ocr_service.py:262-269 | after the lines read so far, the open chapter holds content unless the last line was a heading |
| Segmentation.SegmentLastLineEnd | pdf_ocr_service.py:257-273 | when the pages hold a line and the last one is not a heading, the last chapter ends on the last page |
| Segmentation.DropEmptyStep | pdf_ocr_service.py:248-251 | one more line is kept iff it is not empty |
| Segmentation.DropEmptyFrom | pdf_ocr_service.py:248-251 | every kept line is a non-empty input line |
| Segmentation.NormalizedLines | pdf_ocr_service.py:248-249 | one normalised line per input line |
| Segmentation.CleanOcrText | pdf_ocr_service.py:247-253 | the page clean-up loop returns the normalised non-empty lines joined by "\n", and that text splits back into exactly those lines |
| Segmentation.NormalizedIsClean | pdf_ocr_service.py:249-251 | a kept line has no line break and no whitespace at either end |
| Segmentation.CleanLinesAreClean | pdf_ocr_service.py:247-252 | every kept line is clean |
| Segmentation.CleanOcrTextLines | pdf_ocr_service.py:247-253 | the cleaned page text splits back into exactly the kept lines, so the segmenter's `splitlines()` at line 261 sees them unchanged |
| Segmentation.StartOffset | pdf_ocr_service.py:278-281 | the page offset is `start_page - 1` above 1 and 0 otherwise |
| Segmentation.PagesFrom | pdf_ocr_service.py:278-281 | the pages from the offset on, or none past the end |
| Segmentation.ExtractChaptersAsJson | pdf_ocr_service.py:276-291 | one record per segmented chapter of the sliced pages, with shaped title and content and the same page numbers |
| Segmentation.ExportPageNumbers | pdf_ocr_service.py:276-291 | exported page numbers lie between `max(start_page, 1)` and the number of pages |
| Toc.PageSuffixIff | pdf_ocr_service.py:432-434 | the right-to-left scan of the page suffix succeeds iff some split point has leaders and whitespace, then one whitespace, then one to four page digits |
| Toc.TitleEnd | pdf_ocr_service.py:432-434 | the lazy title ends at the first position from 1 where a page suffix follows, and nowhere when none does |
| Toc.TitleEndIff | pdf_ocr_service.py:432-434 | the pattern matches iff the line ends in whitespace plus one to four page digits after at least one character, and the page group is those digits |
| Toc.CleanTitle | pdf_ocr_service.py:521 | the title is no longer than the group and has no whitespace at either end |
| Toc.TranslateArabicIndic | pdf_ocr_service.py:438-439 | the translation keeps the length |
| Toc.TranslateKeepsValue | pdf_ocr_service.py:438-439 | translated page digits are ASCII and have the same value |
| Toc.AsciiTranslateUnchanged | pdf_ocr_service.py:438-439 | ASCII digits are left as they are |
| Toc.ArabicDigitsWhole | pdf_ocr_service.py:436-446 | a string that translates to digits only, within Python's conversion limit, is read whole |
| Toc.ArabicDigitsNone | pdf_ocr_service.py:440-442 | no decimal digit gives `None` |
| Toc.ArabicDigitsOfNatToString | pdf_ocr_service.py:436-446 | `_arabic_digits_to_int(str(n)) == n` |
| Toc.ArabicDigitsOfArabicIndic | pdf_ocr_service.py:436-446 | the Arabic-Indic spelling of `n` reads back as `n` |
| Toc.PageDigitsToInt | pdf_ocr_service.py:436-446 | one to four page digits convert to their value, below 10000 |
| Toc.ArabicDigitsToInt | pdf_ocr_service.py:436-446 | a definition without a contract of its own: translate Arabic-Indic digits, read the first decimal run, `None` without one or past the numeral length limit; the lemmas above state it |
| Toc.ParseCollapsedIff | pdf_ocr_service.py:517-525 | a collapsed line gives an entry iff it ends with whitespace and one to four page digits; the page is their value |
| Toc.ParseTocLine | pdf_ocr_service.py:509-530 | a definition without a contract of its own: one pass of the loop body, normalise, skip empty, collapse leaders, match the trailing page; `ParseTocLineIff` states when it yields an entry and which |
| Toc.ParseTocLineIff | pdf_ocr_service.py:509-530 | a raw line gives an entry iff, normalised (non-empty) and with leaders collapsed, it ends with whitespace and one to four Latin or Arabic-Indic digits; `printed_page` is their value, ٠-٩ as 0-9, below 10000 |
| Toc.ExtractTocEntries | pdf_ocr_service.py:508-532 | the loop returns each line's entry, in line order, skipping the lines that give none |
| Toc.TocEntriesFromLines | pdf_ocr_service.py:508-531 | every entry is the parse of some line |
| Toc.TocEntriesEmptyIff | pdf_ocr_service.py:508-531 | no entries iff no line parses |
| Toc.TocEntriesPageBound | pdf_ocr_service.py:433 | every printed page is below 10000 |
| Toc.TableKeywordRedundant | pdf_ocr_service.py:468 | the third keyword adds nothing: it contains the first |
| Toc.DetectTocPage | pdf_ocr_service.py:468-477 | the first page among the first `max_scan_pages` whose OCR succeeded and that holds a keyword; `None` iff there is none |
| Toc.ChooseTocPage | pdf_ocr_service.py:542-545 | a positive requested page wins; otherwise a detected page; otherwise the request stays |
| Toc.InRangeStarts | pdf_ocr_service.py:568-573 | kept starts lie within `1..len(pages)` and are no more than the entries |
| Toc.InRangeEmptyIff | pdf_ocr_service.py:568-577 | no start is kept iff every shifted page is outside the PDF |
| Toc.SortByPage | pdf_ocr_service.py:575 | as many starts as given; `SortByPageMultiset`, `SortByPageSorted` and `SortByPageOnPage` state that it is a stable sort by PDF page |
| Toc.InsertByPageMultiset | pdf_ocr_service.py:575 | insertion adds exactly one element |
| Toc.SortByPageMultiset | pdf_ocr_service.py:575 | the sort is a permutation |
| Toc.InsertByPageSorted | pdf_ocr_service.py:575 | insertion keeps a list sorted by page |
| Toc.SortByPageSorted | pdf_ocr_service.py:575 | the result is sorted by PDF page |
| Toc.InsertByPageOnPage | pdf_ocr_service.py:575 | insertion puts the new element after those already on its page |
| Toc.SortByPageOnPage | pdf_ocr_service.py:575 | for every page the entries on it keep their table order (stability) |
| Toc.SortByPageProps | pdf_ocr_service.py:575 | sorted and stable at once |
| Toc.SortByPageWithin | pdf_ocr_service.py:571-575 | sorting keeps every page within the PDF |
| Toc.MapTocStarts | pdf_ocr_service.py:568-577 | the mapping loop and sort yield the error message when nothing is kept, else the stably sorted kept starts |
| Toc.MapTocStartsProps | pdf_ocr_service.py:568-577 | error iff every entry maps outside `1..len(pages)`; otherwise the starts are in the PDF, sorted, a permutation of the kept ones, stable per page |
| Toc.SortedStartsValid | pdf_ocr_service.py:568-577 | the sorted kept starts are what the slicing requires |
| Toc.SlicePages | pdf_ocr_service.py:586 | `pages[lo:hi]`, empty when `lo > hi` |
| Toc.SliceTocChapters | pdf_ocr_service.py:583-587 | the slicing loop gives chapter `i` the pages from its start to the page before the next start, the last to the end |
| Toc.TocRangesContiguous | pdf_ocr_service.py:583-587 | with strictly increasing starts, every range is non-empty, ends on the page before the next begins, and the last ends on the last page |
| Toc.TocRangesCover | pdf_ocr_service.py:583-587 | and their pages, in order, are exactly the pages from the first start on |
| Toc.SharedStartIsEmpty | pdf_ocr_service.py:583-587 | when two starts share a page, the earlier range has `page_end < page_start` and empty content |
| Toc.ExportFromToc | pdf_ocr_service.py:549-595 | no entry gives the raw TOC text; no entry inside the PDF gives the error; otherwise the sliced chapters, and for each chapter `i` the name is candidate `ks[i]` of the base name of its title (`Export.BaseNames`), every earlier candidate of that base being taken, ignoring case, by an earlier name; the names are distinct ignoring case; entry `i` is `{i+1:02d}_{name}.docx` |
| Export.SanitizedCore | pdf_ocr_service.py:359-366 | before the fallback the name holds only allowed characters and has no `. _ -` or space at either end |
| Export.SanitizeFilename | pdf_ocr_service.py:359-367 | the result is the cleaned name cut to its first 120 characters, or, when the cleaned name is empty, the fallback cut to its first 120; so at most 120 characters, non-empty with a non-empty fallback, every character allowed or from the fallback, and a non-empty cleaned name never starting with `.`, `_`, `-` or a space |
| Export.SanitizeKeepsCleanName | pdf_ocr_service.py:359-367 | a name already clean and short enough is returned unchanged |
| Export.FallbackAllowed | pdf_ocr_service.py:404 | the fallback `chapter_<idx>` holds only allowed characters |
| Export.BaseNameAllowed | pdf_ocr_service.py:403-404 | every base name is non-empty and holds only allowed characters, whatever the title |
| Export.CandidatesDistinct | pdf_ocr_service.py:408-409 | different attempts `base`, `base_k` never agree ignoring case |
| Export.Pad2 | pdf_ocr_service.py:412 | `{idx:02d}` has at least two digits |
| Export.EntryNamesDistinct | pdf_ocr_service.py:412 | entries of different chapters have different names, whatever the chapter names |
| Export.EntryNames | pdf_ocr_service.py:412 | entry `i` is the number `i+1` and the name |
| Export.BaseNames | pdf_ocr_service.py:404 | one base name per title |
| Export.NextFreeName | pdf_ocr_service.py:406-410 | the `while` loop returns a candidate whose lower-case form is unused, every earlier candidate being used |
| Export.NamingStep | pdf_ocr_service.py:406-411 | one turn keeps the naming invariant: the set holds exactly the lower-case names so far, which are distinct |
| Export.ExportNames | pdf_ocr_service.py:403-412 | each name is its base's first candidate not taken before, ignoring case; names are distinct ignoring case; entry `i` is `{i+1:02d}_{name}.docx` (the same loop as at lines 588-595) |
| Export.LooksMixedContent | pdf_ocr_service.py:209-213 | a definition without a contract of its own: Arabic and Latin letters together, or `@`, `http://`, `https://` or `www.`; the next two lemmas state it |
| Export.MixedContentMonotone | pdf_ocr_service.py:209-213 | extending a mixed text on either side keeps it mixed |
| Export.NoLatinNotMixed | pdf_ocr_service.py:209-213 | a text with no Latin letter and no '@' is not mixed |
| Export.DocTitle | pdf_ocr_service.py:343 | the heading is never empty: the title, its shaping, or the placeholder; unshaped non-empty titles are kept |
| Export.BlankLineAt | pdf_ocr_service.py:381 | the first run of two newlines, with no such run before it |
| Export.SplitBlankLines | pdf_ocr_service.py:381 | `re.split(r"\n{2,}")` gives at least one part, none with a blank line |
| Export.Paragraphs | pdf_ocr_service.py:381-387 | a definition without a contract of its own: `Text.KeepNonEmpty` of `Text.StripAll` of the blank-line blocks; the lemmas on those two and the next two rows state it |
| Export.ParagraphsAreClean | pdf_ocr_service.py:381-387 | every paragraph is non-empty, has no whitespace at either end and holds no blank line |
| Export.SingleParagraph | pdf_ocr_service.py:381-387 | a content with no blank line is one paragraph, itself stripped |
| Text.StripAll | pdf_ocr_service.py:382 | each part stripped, by value, one result per part |
| Text.StripAllConcat | pdf_ocr_service.py:382 | stripping works part by part: the strip of two runs of parts is the strip of the first followed by the strip of the second |
| Text.KeepNonEmpty | pdf_ocr_service.py:383-384 | `[p for p in parts if p]`, used for the paragraphs here and for the name parts and OCR lines of extractor_service.py:105 and 140: every kept part is non-empty and one of the parts; every non-empty part is kept |
| Text.KeepNonEmptyConcat | pdf_ocr_service.py:383-384 | the filter of two runs of parts is the filter of the first followed by the filter of the second, so the kept parts stay in order |
| Text.KeepNonEmptyCount | pdf_ocr_service.py:383-384 | each non-empty part is kept exactly as often as it occurs; "" is never kept |
| Text.KeepNonEmptyAll | extractor_service.py:140 | parts that are all non-empty are kept as they are |
| Text.SplitJoinedLines | pdf_ocr_service.py:253 | `"\n".join` of lines without breaks, the last one non-empty, splits back into the same lines |
| Text.SplitOnJoin | extractor_service.py:137 | splitting joined parts that lack the separator gives them back |
| Text.JoinSplitOn | extractor_service.py:137 | joining the parts of a split gives back the string |
| Text.FirstMatchFrom | extractor_service.py:145 | the leftmost position where the pattern holds, none left of it; `None` iff nowhere |
| CardReader.Swapped | extractor_service.py:42 | same length; each character replaced by its K→<, O→0, I→1 swap |
| CardReader.CleanMrzLine | extractor_service.py:41-44 | only `A-Z0-9<`, no K, O or I, never longer than the input |
| CardReader.CleanMrzLineFixed | extractor_service.py:41-44 | a line is unchanged iff it already has only `A-Z0-9<` and no K, O, I |
| CardReader.CleanMrzLineIdempotent | extractor_service.py:41-44 | cleaning twice equals cleaning once |
| CardReader.CleanMrzLineConcat | extractor_service.py:41-44 | cleaning distributes over concatenation |
| CardReader.CleanMrzChar | extractor_service.py:42-43 | one character becomes its swap, kept iff it is an MRZ character |
| CardReader.DigitRunMatch | extractor_service.py:62-63 | the match is "" or 8 to 12 decimal digits |
| CardReader.StartsDigitRunAt | extractor_service.py:62 | the search's test at a position is "eight digits start here" |
| CardReader.DigitRunMatchNone | extractor_service.py:62-63 | "" iff no eight digits stand in a row |
| CardReader.DigitRunMatchIs | extractor_service.py:62-63 | the regular-expression match (leftmost start, greedy up to twelve) is what the search returns |
| CardReader.DigitRunMatchFound | extractor_service.py:62-63 | every non-empty result is that regular-expression match |
| CardReader.GreedyRunLength | extractor_service.py:62 | a maximal run of 8 to 12 digits is the greedy run at its start |
| CardReader.NumberText | extractor_service.py:61 | no space and no 'O' remain; every character is from the OCR text or is '0' |
| CardReader.CardNumber | extractor_service.py:61-63 | the card number is "" or 8 to 12 decimal digits |
| CardReader.CardNumberAscii | extractor_service.py:56-63 | with only ASCII digits in the OCR text (the whitelist), the card number is ASCII digits |
| CardReader.ChipNumber | extractor_service.py:80-86 | "" or 8 to 12 digits differing from the card number; "" iff the search fails or finds the card number; otherwise the search result |
| CardReader.StrippedParts | extractor_service.py:105 | `Text.KeepNonEmpty` of `Text.StripAll` of the parts: each kept line is non-empty and stripped; no more lines than parts |
| CardReader.StrippedPartsConcat | extractor_service.py:105 | the lines of two runs of parts are those of the first followed by those of the second: order is kept |
| CardReader.StrippedPart | extractor_service.py:105 | one part gives its stripped form when that is not empty, and nothing otherwise |
| CardReader.OcrLines | extractor_service.py:105 | every line is non-empty, stripped and holds no "\n" |
| CardReader.OcrLinesCons | extractor_service.py:105 | for any text: the first line, stripped, when it is not blank, followed by the lines of the rest |
| CardReader.OcrLinesSingle | extractor_service.py:105 | a text without a newline gives its stripped form when that is not empty, and nothing otherwise |
| CardReader.StrippedPartsOfLines | extractor_service.py:105 | lines already stripped and non-empty are kept as they are |
| CardReader.OcrLinesOfJoin | extractor_service.py:105 | such lines joined by "\n" are read back exactly |
| CardReader.MrzLines | extractor_service.py:132 | every chosen line is an input line with "<<" or 15 `[A-Z0-9]` in a row |
| CardReader.MrzLinesConcat | extractor_service.py:132 | the choice keeps the order of the lines |
| CardReader.MrzLinesComplete | extractor_service.py:132 | no candidate is missed |
| CardReader.FillMrzSlots | extractor_service.py:133-134 | three slots; slot `k` is the `k`-th chosen line, or "" |
| CardReader.Surname | extractor_service.py:139 | the surname holds no '<' |
| CardReader.SurnameBeforeFiller | extractor_service.py:137-139 | the surname is the text before the first '<', stripped |
| CardReader.GivenNames | extractor_service.py:140 | the given names hold no '<' |
| CardReader.GivenNamesStripped | extractor_service.py:140 | for every line 3, the given names are the non-empty parts after the first `<` joined by single spaces and stripped of whitespace: the `<` replacement changes nothing |
| CardReader.GivenNamesJoined | extractor_service.py:137-140 | when no name part holds whitespace: the given names are exactly the non-empty parts after the first `<` joined by single spaces, and splitting at the spaces gives the parts back; "" when there are none |
| CardReader.NamesOfEmptyLine | extractor_service.py:136-140 | an empty line 3 gives empty names, as the guard does |
| CardReader.ReadNames | extractor_service.py:136-140 | the guarded assignments give the surname and given names of line 3 |
| CardReader.BirthDigits | extractor_service.py:145 | a match is six decimal digits |
| CardReader.SexLetter | extractor_service.py:149 | a match is 'M' or 'F' |
| CardReader.ExpiryDigits | extractor_service.py:153 | a match is six decimal digits |
| CardReader.NationalityCode | extractor_service.py:157 | a match is three upper-case letters |
| CardReader.BirthDate | extractor_service.py:145-147 | a definition without a contract of its own: `parse_mrz_date` of the birth digits, or "" without them; see `BirthDigits` and `FieldsOfEmptyLine` |
| CardReader.ExpiryDate | extractor_service.py:153-155 | a definition without a contract of its own: `parse_mrz_date` of the expiry digits, or "" without them; see `ExpiryDigits`, `FieldsNest` and `FieldsOfEmptyLine` |
| CardReader.Gender | extractor_service.py:149-151 | "Male", "Female" or ""; "" iff there are no six digits followed by M or F |
| CardReader.GenderAt | extractor_service.py:149-151 | the first occurrence of six digits followed by M or F decides the gender |
| CardReader.GenderNone | extractor_service.py:149-151 | "" iff six digits followed by M or F occur nowhere |
| CardReader.Nationality | extractor_service.py:157-159 | "" or three upper-case letters |
| CardReader.FieldsNest | extractor_service.py:145-155 | an expiry match implies a sex match, which implies a birth match |
| CardReader.FieldsOfEmptyLine | extractor_service.py:142-159 | an empty line 2 yields no field, as the guard does |
| CardReader.ReadLine2Fields | extractor_service.py:142-159 | the four fields are those read from the cleaned line 2 |
| CardReader.ExtractCardData | extractor_service.py:104-159 | card and chip numbers from their field texts; three MRZ slots from the chosen lines; names from slot 3; the line-2 fields from cleaned slot 2 |

## Left out

- OCR, rasterisation, OpenCV and PIL image processing, and Tesseract and Poppler
  configuration: these are foreign binaries. Page texts, the table-of-contents text and the
  number-field texts are inputs. `detect_toc_page` receives each page's text or `None`
  where OCR failed.
- DOCX building, ZIP writing, temporary directories and file removal: this is library
  I/O. Only the names, titles and paragraphs that go into them are modelled.
- `pdf_to_word_chapters` is not part of this model. Its paragraph split
  (`"\n".join(...).split("\n\n")`) differs from the one modelled.
- `_arabic_shape`: the reshaping libraries are outside this model. Shaping is a function
  parameter (`Segmentation.ExtractChaptersAsJson`, `Export.DocTitle`). The environment
  variable `DOCX_SHAPE_ARABIC` becomes the boolean `shapeForDocx`.
- `parse_mrz_date`: it depends on `datetime.strptime`. It is a function parameter of
  `CardReader.ExtractCardData`.
- Occupation and Issuing_Place (extractor_service.py:124-130) and the `whole_text` they
  read: free-text field searches, not part of the MRZ core.
- Text.IsDecimalDigit: Python's `\d` matches every Unicode decimal digit. The model
  knows ASCII, U+0660-0669 and U+06F0-06F9 only.
- Text.Lower: the model lowers ASCII letters only. Python's `str.lower` folds every
  cased letter, so two names that differ only in a non-ASCII cased letter are treated as
  different here.
- CardReader.CardNumber: states decimal digits, not ASCII digits. The pattern is `\d`,
  so without the OCR whitelist a non-ASCII digit would pass. `CardReader.CardNumberAscii`
  states ASCII under the whitelist's hypothesis.
- CardReader.ReadNames: the `if parts:` test (extractor_service.py:138) always holds,
  because `split` never returns an empty list (`Text.SplitOn`). The model drops it.
- Headings.IsShortArabicLine: the float comparison `count / len > 0.4` is written as
  `5 * count > 2 * len`. For a line of at most 40 characters the two agree.
- Toc.ArabicDigitsToInt: Python's limit on the length of a numeral
  (`sys.int_info.default_max_str_digits`, 4300) is a constant. Past it,
  `_arabic_digits_to_int` yields `None`.
- Toc.ExportFromToc:
  - The source runs the page OCR twice (lines 539 and 548). The model takes the pages
    once.
  - For the raw-text fallback the source runs OCR on the TOC page again. The model
    returns the TOC text it was given.
  - The choice of the TOC page is `Toc.ChooseTocPage`. It is kept apart because the
    OCR calls it feeds are inputs.
  - A TOC page that yields no image (`if not images: return []`, line 500) is the empty
    TOC text.
- Export.Paragraphs: modelled as in `chapter_to_word` (lines 381-387).
  `chapters_json_to_word` strips the whole content first (line 344). Every lemma about
  `Paragraphs` holds for any content, so it holds for the stripped one too. The model
  does not prove that the two splits agree.
- Segmentation.SegmentBy is generic in the heading test. `Segmentation.SegmentChapters`
  instantiates it with `Headings.IsChapterHeading`, as `_segment_chapters` calls
  `_is_chapter_heading`. The `Chapter` objects are values: once appended, the source
  never touches a chapter through another reference.
