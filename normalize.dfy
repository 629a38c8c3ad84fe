/** `_normalize_line`: the clean-up applied to every OCR line and to every
    line of a table-of-contents page. */
module LineNormalization {

  import opened Text

  /** The characters stripped from both ends first: BYTE ORDER MARK,
      RIGHT-TO-LEFT MARK and LEFT-TO-RIGHT MARK. */
  predicate IsDirMark(c: char) {
    c == '\U{FEFF}' || c == '\U{200F}' || c == '\U{200E}'
  }

  /** The class of `ARABIC_SPACE_RE`: space, tab and no-break space. */
  predicate IsHSpace(c: char) {
    c == ' ' || c == '\t' || c == '\U{A0}'
  }

  /** The class of `MULTI_DOT_RE`. */
  predicate IsDot(c: char) { c == '.' }

  /** HORIZONTAL ELLIPSIS, which replaces a run of two or more dots. */
  const Ellipsis: char := '\U{2026}'

  /** The class of `TASHKEEL_RE` (Arabic diacritics). */
  predicate IsTashkeel(c: char) {
    ('\U{0610}' <= c <= '\U{061A}') || ('\U{064B}' <= c <= '\U{065F}')
    || c == '\U{0670}' || ('\U{06D6}' <= c <= '\U{06ED}')
  }

  predicate IsNotTashkeel(c: char) { !IsTashkeel(c) }

  /** The `aggressive` table, in the order the dict lists it:
      alef maqsura to yeh, the three hamza/wasla alefs to alef,
      waw with hamza to waw, yeh with hamza to yeh. */
  const ArabicFormReplacements: seq<(char, char)> := [
    ('\U{0649}', '\U{064A}'),
    ('\U{0625}', '\U{0627}'),
    ('\U{0623}', '\U{0627}'),
    ('\U{0671}', '\U{0627}'),
    ('\U{0624}', '\U{0648}'),
    ('\U{0626}', '\U{064A}')
  ]

  /** The loop `for src, dst in replacements.items(): line = line.replace(src, dst)`. */
  function ReplaceAll(s: string, table: seq<(char, char)>): string
    decreases |table|
  {
    if table == [] then s else ReplaceAll(ReplaceChar(s, table[0].0, table[0].1), table[1..])
  }

  predicate IsReplacementTarget(c: char, table: seq<(char, char)>) {
    exists k :: 0 <= k < |table| && table[k].1 == c
  }

  predicate Untouched(c: char, table: seq<(char, char)>) {
    forall k :: 0 <= k < |table| ==> table[k].0 != c && table[k].1 != c
  }

  /** Every character of the result is from `s` or is a replacement target. */
  lemma {:induction false} ReplaceAllChars(s: string, table: seq<(char, char)>)
    ensures forall c :: c in ReplaceAll(s, table) ==> c in s || IsReplacementTarget(c, table)
    decreases |table|
  {
    if table != [] {
      var t := ReplaceChar(s, table[0].0, table[0].1);
      ReplaceCharChars(s, table[0].0, table[0].1);
      ReplaceAllChars(t, table[1..]);
      forall c | IsReplacementTarget(c, table[1..])
        ensures IsReplacementTarget(c, table)
      {
        var k :| 0 <= k < |table[1..]| && table[1..][k].1 == c;
        assert table[k + 1].1 == c;
      }
      assert IsReplacementTarget(table[0].1, table) by {
        assert table[0].1 == table[0].1;
      }
    }
  }

  /** A character that no pair mentions keeps every position it had. */
  lemma {:induction false} ReplaceAllKeepsNoDouble(s: string, table: seq<(char, char)>, c: char)
    requires Untouched(c, table) && NoDouble(s, c)
    ensures NoDouble(ReplaceAll(s, table), c)
    decreases |table|
  {
    if table != [] {
      var t := ReplaceChar(s, table[0].0, table[0].1);
      forall k | 0 <= k < |t| - 1
        ensures !(t[k] == c && t[k + 1] == c)
      {
        assert t[k] == c ==> s[k] == c;
        assert t[k + 1] == c ==> s[k + 1] == c;
      }
      ReplaceAllKeepsNoDouble(t, table[1..], c);
    }
  }

  lemma {:induction false} ReplaceAllLength(s: string, table: seq<(char, char)>)
    ensures |ReplaceAll(s, table)| == |s|
    decreases |table|
  {
    if table != [] {
      ReplaceAllLength(ReplaceChar(s, table[0].0, table[0].1), table[1..]);
    }
  }

  /** `_normalize_line(line, drop_diacritics, aggressive)`. */
  function NormalizeLine(line: string, dropDiacritics: bool, aggressive: bool): (r: string)
    ensures r == [] || (!IsSpace(r[0]) && !IsSpace(r[|r| - 1]))
  {
    Strip(Unstripped(line, dropDiacritics, aggressive), IsSpace)
  }

  /** Every step of `_normalize_line` before the final `strip()`. */
  function Unstripped(line: string, dropDiacritics: bool, aggressive: bool): string {
    var unmarked := Strip(line, IsDirMark);
    var spaced := CollapseRuns(unmarked, IsHSpace, 1, " ");
    var dotted := CollapseRuns(spaced, IsDot, 2, [Ellipsis]);
    var folded := if aggressive then ReplaceAll(dotted, ArabicFormReplacements) else dotted;
    if dropDiacritics then FilterChars(folded, IsNotTashkeel) else folded
  }

  /** The targets of the `aggressive` table: yeh, alef and waw. */
  predicate IsFoldTarget(c: char) {
    c == '\U{064A}' || c == '\U{0627}' || c == '\U{0648}'
  }

  /** Normalisation introduces no character other than a space, the
      ellipsis and the letters the `aggressive` table maps to. */
  lemma NormalizeLineChars(line: string, dropDiacritics: bool, aggressive: bool)
    ensures forall c :: c in NormalizeLine(line, dropDiacritics, aggressive) ==>
      c in line || c == ' ' || c == Ellipsis || IsFoldTarget(c)
  {
    var unmarked := Strip(line, IsDirMark);
    var spaced := CollapseRuns(unmarked, IsHSpace, 1, " ");
    var dotted := CollapseRuns(spaced, IsDot, 2, [Ellipsis]);
    ReplaceAllChars(dotted, ArabicFormReplacements);
    forall c | IsReplacementTarget(c, ArabicFormReplacements)
      ensures IsFoldTarget(c)
    {
    }
  }

  /** The four facts the default normalisation makes true inside the line. */
  predicate SpacingIsClean(s: string) {
    '\t' !in s && '\U{A0}' !in s && NoDouble(s, ' ') && NoDouble(s, '.')
  }

  lemma CollapseStagesClean(unmarked: string)
    ensures var spaced := CollapseRuns(unmarked, IsHSpace, 1, " ");
      SpacingIsClean(CollapseRuns(spaced, IsDot, 2, [Ellipsis]))
      && |CollapseRuns(spaced, IsDot, 2, [Ellipsis])| <= |unmarked|
  {
    var spaced := CollapseRuns(unmarked, IsHSpace, 1, " ");
    CollapseRunsReplacesAll(unmarked, IsHSpace, 1, " ");
    CollapseRunsNoDouble(unmarked, IsHSpace, 1, " ", ' ');
    CollapseRunsLength(unmarked, IsHSpace, 1, " ");
    assert '\t' !in spaced && '\U{A0}' !in spaced;
    var dotted := CollapseRuns(spaced, IsDot, 2, [Ellipsis]);
    CollapseRunsKeepsNoDouble(spaced, IsDot, 2, [Ellipsis], ' ');
    CollapseRunsNoDouble(spaced, IsDot, 2, [Ellipsis], '.');
    CollapseRunsLength(spaced, IsDot, 2, [Ellipsis]);
  }

  lemma FoldKeepsClean(dotted: string)
    requires SpacingIsClean(dotted)
    ensures SpacingIsClean(ReplaceAll(dotted, ArabicFormReplacements))
    ensures |ReplaceAll(dotted, ArabicFormReplacements)| == |dotted|
  {
    ReplaceAllChars(dotted, ArabicFormReplacements);
    ReplaceAllKeepsNoDouble(dotted, ArabicFormReplacements, ' ');
    ReplaceAllKeepsNoDouble(dotted, ArabicFormReplacements, '.');
    ReplaceAllLength(dotted, ArabicFormReplacements);
  }

  lemma StripKeepsClean(s: string)
    requires SpacingIsClean(s)
    ensures var r := Strip(s, IsSpace); SpacingIsClean(r) && !Contains(r, "  ") && !Contains(r, "..")
  {
    var r := Strip(s, IsSpace);
    var lo, hi := StripIsSlice(s, IsSpace);
    NoDoubleSlice(s, lo, hi, ' ');
    NoDoubleSlice(s, lo, hi, '.');
    NoDoubleIsNotContains(r, ' ');
    NoDoubleIsNotContains(r, '.');
  }

  /** With the default flags (the calls at pdf_ocr_service.py:249 and :510),
      and whatever `aggressive` is, the line has no whitespace at either
      end, no tab, no no-break space, no two spaces in a row, no two dots in
      a row, and is no longer than the input. */
  lemma NormalizeLineClean(line: string, aggressive: bool)
    ensures var r := NormalizeLine(line, false, aggressive);
      && (r == [] || (!IsSpace(r[0]) && !IsSpace(r[|r| - 1])))
      && '\t' !in r && '\U{A0}' !in r
      && !Contains(r, "  ") && !Contains(r, "..")
      && |r| <= |line|
  {
    UnstrippedClean(line, aggressive);
    StripKeepsClean(Unstripped(line, false, aggressive));
  }

  /** Before the final strip the line is already clean inside. */
  lemma UnstrippedClean(line: string, aggressive: bool)
    ensures SpacingIsClean(Unstripped(line, false, aggressive))
    ensures |Unstripped(line, false, aggressive)| <= |line|
  {
    var unmarked := Strip(line, IsDirMark);
    var spaced := CollapseRuns(unmarked, IsHSpace, 1, " ");
    var dotted := CollapseRuns(spaced, IsDot, 2, [Ellipsis]);
    CollapseStagesClean(unmarked);
    if aggressive {
      FoldKeepsClean(dotted);
    }
  }
}
