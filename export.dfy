/** The naming and text-shaping decisions of the chapter exports in
    pdf_ocr_service.py: `_sanitize_filename`, the `used_names` loop that makes
    names unique ignoring case, the `{idx:02d}_{name}.docx` entry names, the
    blank-line paragraph split, the "(بدون عنوان)" title placeholder and
    `_looks_mixed_content`. */
module Export {

  import opened Text

  // ---------------------------------------------------------------------
  // File names
  // ---------------------------------------------------------------------

  /** The longest name `_sanitize_filename` returns. */
  const MaxNameLength: nat := 120

  /** `[\s‏‎]`: whitespace and the two direction marks. */
  predicate IsSpaceOrDirMark(c: char) {
    IsSpace(c) || c == '\U{200F}' || c == '\U{200E}'
  }

  /** `[ء-يa-zA-Z0-9_\-()\[\]{}]`: what a file name may hold. */
  predicate IsFilenameChar(c: char) {
    IsArabicLetter(c) || IsAsciiLetter(c) || IsAsciiDigit(c)
    || c == '_' || c == '-' || c == '(' || c == ')' || c == '[' || c == ']' || c == '{' || c == '}'
  }

  /** The characters `name.strip("._- ")` removes. */
  predicate IsNameEdge(c: char) { c == '.' || c == '_' || c == '-' || c == ' ' }

  /** The name before the fallback and the length bound: whitespace
      stripped, each whitespace run turned into one underscore, every other
      disallowed character dropped, and dots, underscores, dashes and spaces
      stripped from both ends. */
  function SanitizedCore(name: string): (r: string)
    ensures forall c :: c in r ==> IsFilenameChar(c)
    ensures r == [] || (!IsNameEdge(r[0]) && !IsNameEdge(r[|r| - 1]))
  {
    var trimmed := Strip(name, IsSpace);
    var joined := CollapseRuns(trimmed, IsSpaceOrDirMark, 1, "_");
    var kept := FilterChars(joined, IsFilenameChar);
    Strip(kept, IsNameEdge)
  }

  /** `_sanitize_filename(name, fallback)`. */
  function SanitizeFilename(name: string, fallback: string): (r: string)
    ensures |r| <= MaxNameLength
    ensures fallback != "" ==> r != ""
    ensures forall c :: c in r ==> IsFilenameChar(c) || c in fallback
    ensures SanitizedCore(name) != "" ==> r != "" && !IsNameEdge(r[0])
    ensures SanitizedCore(name) != "" ==>
      HasPrefix(SanitizedCore(name), r) && |r| == (if |SanitizedCore(name)| <= MaxNameLength then |SanitizedCore(name)| else MaxNameLength)
    ensures SanitizedCore(name) == "" ==>
      HasPrefix(fallback, r) && |r| == (if |fallback| <= MaxNameLength then |fallback| else MaxNameLength)
  {
    var core := SanitizedCore(name);
    var chosen := if core == "" then fallback else core;
    if |chosen| <= MaxNameLength then chosen else chosen[..MaxNameLength]
  }

  /** A name that is already clean passes through unchanged. */
  lemma SanitizeKeepsCleanName(name: string, fallback: string)
    requires name != [] && |name| <= MaxNameLength
    requires forall c :: c in name ==> IsFilenameChar(c)
    requires !IsNameEdge(name[0]) && !IsNameEdge(name[|name| - 1])
    ensures SanitizeFilename(name, fallback) == name
  {
    assert name[0] in name && name[|name| - 1] in name;
    StripUnchanged(name, IsSpace);
    CollapseRunsNoRun(name, IsSpaceOrDirMark, 1, "_");
    FilterCharsKeepsAll(name, IsFilenameChar);
    StripUnchanged(name, IsNameEdge);
  }

  /** With no character in the run class, run replacement changes nothing. */
  lemma {:induction false} CollapseRunsNoRun(s: string, inRun: char -> bool, minLen: nat, repl: string)
    requires forall c :: c in s ==> !inRun(c)
    ensures CollapseRuns(s, inRun, minLen, repl) == s
    decreases |s|
  {
    if s != [] {
      assert s[0] in s;
      assert forall c :: c in s[1..] ==> c in s;
      CollapseRunsNoRun(s[1..], inRun, minLen, repl);
      assert s == [s[0]] + s[1..];
    }
  }

  // ---------------------------------------------------------------------
  // Unique names
  // ---------------------------------------------------------------------

  /** `f"chapter_{idx}"`. */
  function ChapterFallback(idx: nat): string {
    "chapter_" + NatToString(idx)
  }

  /** The fallback `chapter_<idx>` is made of allowed characters only. */
  lemma FallbackAllowed(idx: nat)
    ensures forall c :: c in ChapterFallback(idx) ==> IsFilenameChar(c)
  {
    var prefix, digits := "chapter_", NatToString(idx);
    assert forall k :: 0 <= k < |prefix| ==> IsFilenameChar(prefix[k]);
    assert forall c :: c in digits ==> IsAsciiDigit(c);
    forall c | c in prefix + digits
      ensures IsFilenameChar(c)
    {
      if c !in digits {
        var k :| 0 <= k < |prefix| && prefix[k] == c;
      }
    }
  }

  /** Every base name is non-empty and made of allowed characters only. */
  lemma BaseNameAllowed(title: string, idx: nat)
    ensures BaseName(title, idx) != ""
    ensures forall c :: c in BaseName(title, idx) ==> IsFilenameChar(c)
  {
    FallbackAllowed(idx);
  }

  /** The `k`-th name tried for `base`: `base` itself, then `f"{base}_{k}"`. */
  function Candidate(base: string, k: nat): string {
    if k == 0 then base else base + "_" + NatToString(k)
  }

  /** Different attempts for one base never collide, even ignoring case. */
  lemma CandidatesDistinct(base: string, i: nat, j: nat)
    requires i != j
    ensures Lower(Candidate(base, i)) != Lower(Candidate(base, j))
  {
    if i != 0 && j != 0 {
      LowerConcat(base + "_", NatToString(i));
      LowerConcat(base + "_", NatToString(j));
      LowerOfDigits(NatToString(i));
      LowerOfDigits(NatToString(j));
      if Lower(Candidate(base, i)) == Lower(Candidate(base, j)) {
        var p := Lower(base + "_");
        assert (p + NatToString(i))[|p|..] == NatToString(i);
        assert (p + NatToString(j))[|p|..] == NatToString(j);
        NatToStringInjective(i, j);
      }
    }
  }

  /** The title an export names a chapter by: the title, or `chapter_{idx}`
      when it is empty, through `_sanitize_filename` with the same fallback. */
  function BaseName(title: string, idx: nat): string {
    var fallback := ChapterFallback(idx);
    SanitizeFilename(if title != "" then title else fallback, fallback)
  }

  /** `f"{idx:02d}"`. */
  function Pad2(idx: nat): (r: string)
    ensures |r| >= 2 && AllChars(r, IsAsciiDigit)
  {
    if idx < 10 then "0" + NatToString(idx) else NatToString(idx)
  }

  /** `f"{idx:02d}_{name}.docx"`. */
  function EntryName(idx: nat, name: string): string {
    Pad2(idx) + "_" + name + ".docx"
  }

  /** The `while name.lower() in used_names` loop: the first candidate of
      `base` whose lower-case form is not in `used`. */
  method NextFreeName(base: string, used: set<string>) returns (name: string, ghost k: nat)
    ensures name == Candidate(base, k)
    ensures Lower(name) !in used
    ensures forall m :: 0 <= m < k ==> Lower(Candidate(base, m)) in used
  {
    name := base;
    k := 0;
    ghost var seen: set<string> := {};
    var next := 1;
    while Lower(name) in used
      invariant next == k + 1 && name == Candidate(base, k)
      invariant seen <= used && |seen| == k
      invariant forall m :: 0 <= m < k ==> Lower(Candidate(base, m)) in seen
      invariant forall x :: x in seen ==> exists m :: 0 <= m < k && x == Lower(Candidate(base, m))
      decreases |used| - |seen|
    {
      forall m | 0 <= m < k
        ensures Lower(Candidate(base, m)) != Lower(name)
      {
        CandidatesDistinct(base, m, k);
      }
      seen := seen + {Lower(name)};
      SubsetCardinality(seen, used);
      name := base + "_" + NatToString(next);
      k := next;
      next := next + 1;
    }
  }

  /** The base names of a batch, chapter `i` being numbered `i + 1`. */
  function BaseNames(titles: seq<string>): (bases: seq<string>)
    ensures |bases| == |titles|
  {
    seq(|titles|, i requires 0 <= i < |titles| => BaseName(titles[i], i + 1))
  }

  /** The naming loops of `export_chapters_to_zip` and
      `export_chapters_to_zip_from_toc`: chapter `i` (numbered from 1) gets
      the first candidate of its base name whose lower-case form no earlier
      chapter took, and its archive entry is named after its number and that
      name. */
  method ExportNames(titles: seq<string>) returns (names: seq<string>, entries: seq<string>, ghost ks: seq<nat>)
    ensures |names| == |titles| && |entries| == |titles| && |ks| == |titles|
    ensures forall i :: 0 <= i < |names| ==> names[i] == Candidate(BaseNames(titles)[i], ks[i])
    ensures forall i :: 0 <= i < |names| ==> entries[i] == EntryName(i + 1, names[i])
    ensures DistinctIgnoringCase(names)
    ensures forall i, m :: 0 <= i < |names| && 0 <= m < ks[i] ==>
      TakenBefore(names, i, Lower(Candidate(BaseNames(titles)[i], m)))
  {
    var bases := BaseNames(titles);
    var used: set<string> := {};
    names, ks := [], [];
    for i := 0 to |titles|
      invariant |names| == i
      invariant NamingInv(bases, names, ks, used)
    {
      var name, k := NextFreeName(bases[i], used);
      NamingStep(bases, names, ks, used, name, k);
      names := names + [name];
      ks := ks + [k];
      used := used + {Lower(name)};
    }
    entries := EntryNames(names);
  }

  /** What the naming loop keeps: `used` holds the lower-case forms of the
      names given so far, each name is a candidate of its base, no two agree
      ignoring case, and every candidate skipped was taken before. */
  ghost predicate NamingInv(bases: seq<string>, names: seq<string>, ks: seq<nat>, used: set<string>) {
    && |names| == |ks| <= |bases|
    && (forall x :: x in used <==> TakenBefore(names, |names|, x))
    && (forall t :: 0 <= t < |names| ==> names[t] == Candidate(bases[t], ks[t]))
    && DistinctIgnoringCase(names)
    && (forall t, m :: 0 <= t < |names| && 0 <= m < ks[t] ==> TakenBefore(names, t, Lower(Candidate(bases[t], m))))
  }

  /** One turn of the naming loop keeps its invariant. */
  lemma NamingStep(bases: seq<string>, names: seq<string>, ks: seq<nat>, used: set<string>, name: string, k: nat)
    requires NamingInv(bases, names, ks, used) && |names| < |bases|
    requires name == Candidate(bases[|names|], k) && Lower(name) !in used
    requires forall m :: 0 <= m < k ==> Lower(Candidate(bases[|names|], m)) in used
    ensures NamingInv(bases, names + [name], ks + [k], used + {Lower(name)})
  {
    var names' := names + [name];
    var ks' := ks + [k];
    TakenSnoc(names, name);
    forall t | 0 <= t < |names'|
      ensures names'[t] == Candidate(bases[t], ks'[t])
    {
      if t < |names| {
        assert names'[t] == names[t] && ks'[t] == ks[t];
      }
    }
    forall t, m | 0 <= t < |names'| && 0 <= m < ks'[t]
      ensures TakenBefore(names', t, Lower(Candidate(bases[t], m)))
    {
      if t < |names| {
        assert ks'[t] == ks[t];
      }
    }
  }

  /** The archive entry of each chapter, numbered from 1. */
  function EntryNames(names: seq<string>): (entries: seq<string>)
    ensures |entries| == |names|
    ensures forall i :: 0 <= i < |names| ==> entries[i] == EntryName(i + 1, names[i])
  {
    seq(|names|, i requires 0 <= i < |names| => EntryName(i + 1, names[i]))
  }

  /** No two names are equal ignoring case. */
  predicate DistinctIgnoringCase(names: seq<string>) {
    forall i, j :: 0 <= j < i < |names| ==> Lower(names[j]) != Lower(names[i])
  }

  /** Some name before position `i` has lower-case form `x`. */
  predicate TakenBefore(names: seq<string>, i: int, x: string) {
    exists j :: 0 <= j < i && j < |names| && Lower(names[j]) == x
  }

  lemma TakenSnoc(names: seq<string>, name: string)
    requires DistinctIgnoringCase(names) && !TakenBefore(names, |names|, Lower(name))
    ensures DistinctIgnoringCase(names + [name])
    ensures forall t, x :: 0 <= t <= |names| ==> (TakenBefore(names + [name], t, x) <==> TakenBefore(names, t, x))
    ensures forall x :: TakenBefore(names + [name], |names| + 1, x) <==> TakenBefore(names, |names|, x) || x == Lower(name)
  {
    var s := names + [name];
    forall t, x | 0 <= t <= |names|
      ensures TakenBefore(s, t, x) <==> TakenBefore(names, t, x)
    {
      if TakenBefore(s, t, x) {
        var j :| 0 <= j < t && j < |s| && Lower(s[j]) == x;
        assert Lower(names[j]) == x;
      }
      if TakenBefore(names, t, x) {
        var j :| 0 <= j < t && j < |names| && Lower(names[j]) == x;
        assert Lower(s[j]) == x;
      }
    }
    forall x | TakenBefore(s, |names| + 1, x)
      ensures TakenBefore(names, |names|, x) || x == Lower(name)
    {
      var j :| 0 <= j < |names| + 1 && j < |s| && Lower(s[j]) == x;
      if j < |names| {
        assert Lower(names[j]) == x;
      }
    }
    assert TakenBefore(s, |names| + 1, Lower(name)) by {
      assert Lower(s[|names|]) == Lower(name);
    }
    forall x | TakenBefore(names, |names|, x)
      ensures TakenBefore(s, |names| + 1, x)
    {
      var j :| 0 <= j < |names| && j < |names| && Lower(names[j]) == x;
      assert Lower(s[j]) == x;
    }
  }

  lemma SubsetCardinality(a: set<string>, b: set<string>)
    requires a <= b
    ensures |a| <= |b|
  {
    assert b == a + (b - a);
  }

  /** Entry names of different chapters differ: the number before the first
      underscore tells them apart whatever the names. */
  lemma EntryNamesDistinct(i: nat, j: nat, a: string, b: string)
    requires i != j
    ensures EntryName(i, a) != EntryName(j, b)
  {
    var x := EntryName(i, a);
    var y := EntryName(j, b);
    EntryDigits(i, a);
    EntryDigits(j, b);
    if x == y {
      assert Pad2(i) == x[..|Pad2(i)|] == y[..|Pad2(j)|] == Pad2(j);
      Pad2Injective(i, j);
    }
  }

  lemma EntryDigits(i: nat, name: string)
    ensures var e := EntryName(i, name);
      |Pad2(i)| < |e| && e[..|Pad2(i)|] == Pad2(i) && LeadRun(e, IsAsciiDigit) == |Pad2(i)|
  {
    var e := EntryName(i, name);
    var p := Pad2(i);
    assert e == p + ("_" + name + ".docx");
    assert e[..|p|] == p;
    LeadRunExact(e, |p|, IsAsciiDigit);
  }

  lemma Pad2Injective(i: nat, j: nat)
    requires Pad2(i) == Pad2(j)
    ensures i == j
  {
    if i < 10 && j < 10 {
      assert NatToString(i) == Pad2(i)[1..];
      assert NatToString(j) == Pad2(j)[1..];
      NatToStringInjective(i, j);
    } else if i >= 10 && j >= 10 {
      NatToStringInjective(i, j);
    } else if i < 10 {
      NatToStringLong(j, 1);
      assert |NatToString(i)| == 1;
      NatToStringLeadingDigit(j);
    } else {
      NatToStringLong(i, 1);
      assert |NatToString(j)| == 1;
      NatToStringLeadingDigit(i);
    }
  }

  /** `str(n)` has no leading zero. */
  lemma {:induction false} NatToStringLeadingDigit(n: nat)
    requires n >= 10
    ensures NatToString(n)[0] != '0'
  {
    if n / 10 >= 10 {
      NatToStringLeadingDigit(n / 10);
    } else {
      assert NatToString(n / 10) == [DigitChar(n / 10)];
    }
  }

  // ---------------------------------------------------------------------
  // Titles and paragraphs of an exported chapter
  // ---------------------------------------------------------------------

  /** "(بدون عنوان)" ("untitled"). */
  const UntitledPlaceholder: string := "(\U{0628}\U{062F}\U{0648}\U{0646} \U{0639}\U{0646}\U{0648}\U{0627}\U{0646})"

  /** `_looks_mixed_content`: Arabic and Latin letters together, or an
      e-mail address or URL marker. */
  predicate LooksMixedContent(text: string) {
    ((exists k :: 0 <= k < |text| && IsArabicLetter(text[k])) && (exists k :: 0 <= k < |text| && IsAsciiLetter(text[k])))
    || '@' in text || Contains(text, "http://") || Contains(text, "https://") || Contains(text, "www.")
  }

  lemma ContainsInLonger(a: string, b: string, part: string)
    requires Contains(a, part)
    ensures Contains(a + b, part) && Contains(b + a, part)
  {
    var i :| 0 <= i <= |a| && HasPrefix(a[i..], part);
    assert (a + b)[i..][..|part|] == a[i..][..|part|];
    assert (b + a)[|b| + i..] == a[i..];
  }

  /** Extending a text never makes it look less mixed. */
  lemma MixedContentMonotone(a: string, b: string)
    requires LooksMixedContent(a)
    ensures LooksMixedContent(a + b) && LooksMixedContent(b + a)
  {
    if exists k :: 0 <= k < |a| && IsArabicLetter(a[k]) {
      var k :| 0 <= k < |a| && IsArabicLetter(a[k]);
      assert (a + b)[k] == a[k] && (b + a)[|b| + k] == a[k];
    }
    if exists k :: 0 <= k < |a| && IsAsciiLetter(a[k]) {
      var k :| 0 <= k < |a| && IsAsciiLetter(a[k]);
      assert (a + b)[k] == a[k] && (b + a)[|b| + k] == a[k];
    }
    if '@' in a {
      assert '@' in a + b && '@' in b + a;
    }
    if Contains(a, "http://") { ContainsInLonger(a, b, "http://"); }
    if Contains(a, "https://") { ContainsInLonger(a, b, "https://"); }
    if Contains(a, "www.") { ContainsInLonger(a, b, "www."); }
  }

  /** Text with no Latin letter and no '@' is never mixed: the URL markers
      all hold Latin letters. */
  lemma NoLatinNotMixed(text: string)
    requires forall k :: 0 <= k < |text| ==> !IsAsciiLetter(text[k])
    requires '@' !in text
    ensures !LooksMixedContent(text)
  {
    NotContainsLatinStart(text, "http://");
    NotContainsLatinStart(text, "https://");
    NotContainsLatinStart(text, "www.");
  }

  lemma NotContainsLatinStart(text: string, part: string)
    requires forall k :: 0 <= k < |text| ==> !IsAsciiLetter(text[k])
    requires part != [] && IsAsciiLetter(part[0])
    ensures !Contains(text, part)
  {
    forall i | 0 <= i <= |text|
      ensures !HasPrefix(text[i..], part)
    {
      if |part| <= |text[i..]| {
        assert text[i..][..|part|][0] == text[i];
      }
    }
  }

  /** The heading text of a chapter document: the title, shaped when shaping
      is enabled and the title is not mixed, with the placeholder for an
      empty result. */
  function DocTitle(rawTitle: string, shapeForDocx: bool, shape: string -> string): (r: string)
    ensures r != ""
    ensures r == UntitledPlaceholder || r == rawTitle || r == shape(rawTitle)
    ensures !shapeForDocx && rawTitle != "" ==> r == rawTitle
  {
    var t := if shapeForDocx && !LooksMixedContent(rawTitle) then shape(rawTitle) else rawTitle;
    if t != "" then t else UntitledPlaceholder
  }

  /** The first position of a run of two or more newlines, or `|s|`. */
  function BlankLineAt(s: string): (i: nat)
    ensures i <= |s|
    ensures i < |s| ==> i + 1 < |s| && s[i] == '\n' && s[i + 1] == '\n'
    ensures NoDouble(s[..i], '\n') && (i > 0 && i < |s| ==> s[i - 1] != '\n')
    decreases |s|
  {
    if |s| < 2 then |s|
    else if s[0] == '\n' && s[1] == '\n' then 0
    else
      var j := BlankLineAt(s[1..]);
      assert s[..1 + j] == [s[0]] + s[1..][..j];
      1 + j
  }

  /** `re.split(r"\n{2,}", s)`. */
  function SplitBlankLines(s: string): (parts: seq<string>)
    ensures |parts| >= 1
    ensures forall k :: 0 <= k < |parts| ==> NoDouble(parts[k], '\n')
    decreases |s|
  {
    var i := BlankLineAt(s);
    if i == |s| then [s]
    else
      var n := LeadRun(s[i..], c => c == '\n');
      [s[..i]] + SplitBlankLines(s[i + n..])
  }

  /** The paragraph loop of `chapters_json_to_word` and `chapter_to_word`:
      each blank-line block stripped of whitespace, empty ones skipped. */
  function Paragraphs(content: string): (ps: seq<string>)
  {
    KeepNonEmpty(StripAll(SplitBlankLines(content)))
  }

  /** Every paragraph is non-empty, has no whitespace at either end and
      holds no blank line. */
  lemma ParagraphsAreClean(content: string)
    ensures forall p :: p in Paragraphs(content) ==>
      p != "" && !IsSpace(p[0]) && !IsSpace(p[|p| - 1]) && !Contains(p, "\n\n")
  {
    var parts := SplitBlankLines(content);
    var stripped := StripAll(parts);
    forall p | p in Paragraphs(content)
      ensures p != "" && !IsSpace(p[0]) && !IsSpace(p[|p| - 1]) && !Contains(p, "\n\n")
    {
      var k :| 0 <= k < |stripped| && stripped[k] == p;
      var lo, hi := StripIsSlice(parts[k], IsSpace);
      NoDoubleSlice(parts[k], lo, hi, '\n');
      NoDoubleIsNotContains(p, '\n');
    }
  }

  /** A content without blank lines is one paragraph, itself stripped. */
  lemma SingleParagraph(content: string)
    requires NoDouble(content, '\n') && Strip(content, IsSpace) != ""
    ensures Paragraphs(content) == [Strip(content, IsSpace)]
  {
    NoBlankLine(content);
    assert SplitBlankLines(content) == [content];
    assert StripAll([content]) == [Strip(content, IsSpace)];
    assert KeepNonEmpty([Strip(content, IsSpace)]) == [Strip(content, IsSpace)] + KeepNonEmpty([]);
  }

  lemma NoBlankLine(s: string)
    requires NoDouble(s, '\n')
    ensures BlankLineAt(s) == |s|
  {
  }
}
