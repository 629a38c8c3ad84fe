/** The string core of the ID-card reader in extractor_service.py: the
    clean-up of machine-readable-zone (MRZ) lines, the digit-run search that
    yields the card and chip numbers, the choice of the MRZ lines among the
    recognised lines, and the fields read from MRZ lines 2 and 3. The OCR
    texts are inputs, and `parse_mrz_date` is a parameter. */
module CardReader {

  import opened Wrappers
  import opened Text

  // ---------------------------------------------------------------------
  // clean_mrz_line
  // ---------------------------------------------------------------------

  /** `[A-Z0-9<]`, the characters an MRZ line keeps. */
  predicate IsMrzChar(c: char) { IsAsciiUpper(c) || IsAsciiDigit(c) || c == '<' }

  /** The three OCR confusions corrected first, one character at a time:
      K read for the filler `<`, O for zero and I for one. */
  function MrzSwap(c: char): char {
    if c == 'K' then '<' else if c == 'O' then '0' else if c == 'I' then '1' else c
  }

  /** `.replace("K", "<").replace("O", "0").replace("I", "1")`. */
  function Swapped(line: string): (r: string)
    ensures |r| == |line|
    ensures forall k :: 0 <= k < |r| ==> r[k] == MrzSwap(line[k])
  {
    ReplaceChar(ReplaceChar(ReplaceChar(line, 'K', '<'), 'O', '0'), 'I', '1')
  }

  /** `clean_mrz_line`: the swaps, then every character outside `[A-Z0-9<]`
      dropped. */
  function CleanMrzLine(line: string): (r: string)
    ensures |r| <= |line|
    ensures AllChars(r, IsMrzChar)
    ensures 'K' !in r && 'O' !in r && 'I' !in r
  {
    var s := Swapped(line);
    assert forall c :: c in s ==> c != 'K' && c != 'O' && c != 'I' by {
      forall c | c in s
        ensures c != 'K' && c != 'O' && c != 'I'
      {
        var k :| 0 <= k < |s| && s[k] == c;
      }
    }
    var r := FilterChars(s, IsMrzChar);
    assert forall k :: 0 <= k < |r| ==> r[k] in r;
    r
  }

  /** A line is left as it is exactly when it is already clean. */
  lemma CleanMrzLineFixed(line: string)
    ensures CleanMrzLine(line) == line
        <==> AllChars(line, IsMrzChar) && 'K' !in line && 'O' !in line && 'I' !in line
  {
    if AllChars(line, IsMrzChar) && 'K' !in line && 'O' !in line && 'I' !in line {
      ReplaceCharAbsent(line, 'K', '<');
      ReplaceCharAbsent(line, 'O', '0');
      ReplaceCharAbsent(line, 'I', '1');
      assert forall c :: c in line ==> IsMrzChar(c) by {
        forall c | c in line
          ensures IsMrzChar(c)
        {
          var k :| 0 <= k < |line| && line[k] == c;
        }
      }
      FilterCharsKeepsAll(line, IsMrzChar);
    }
  }

  /** Cleaning twice changes nothing more. */
  lemma CleanMrzLineIdempotent(line: string)
    ensures CleanMrzLine(CleanMrzLine(line)) == CleanMrzLine(line)
  {
    CleanMrzLineFixed(CleanMrzLine(line));
  }

  /** Cleaning works character by character: a line cleans to its pieces'
      cleanings, and one character becomes its swap, kept only when it is
      an MRZ character. */
  lemma CleanMrzLineConcat(a: string, b: string)
    ensures CleanMrzLine(a + b) == CleanMrzLine(a) + CleanMrzLine(b)
  {
    var x, y := Swapped(a), Swapped(b);
    assert forall k :: 0 <= k < |a| ==> (a + b)[k] == a[k];
    assert forall k :: |a| <= k < |a + b| ==> (a + b)[k] == b[k - |a|];
    assert Swapped(a + b) == x + y;
    FilterCharsConcat(Swapped(a), Swapped(b), IsMrzChar);
  }

  lemma CleanMrzChar(c: char)
    ensures CleanMrzLine([c]) == if IsMrzChar(MrzSwap(c)) then [MrzSwap(c)] else []
  {
    assert Swapped([c]) == [MrzSwap(c)];
  }

  // ---------------------------------------------------------------------
  // Card and chip numbers
  // ---------------------------------------------------------------------

  /** Where `\d{8,12}` can start: eight decimal digits in a row. */
  predicate StartsDigitRun(t: string) { LeadRun(t, IsDecimalDigit) >= 8 }

  /** Eight decimal digits at position `j` of `s`. */
  predicate EightDigitsAt(s: string, j: int) {
    0 <= j && j + 8 <= |s| && AllChars(s[j..j + 8], IsDecimalDigit)
  }

  /** `match.group(0)` of `re.search(r"\d{8,12}", s)`, or "" without a
      match: the leftmost eight digits, extended greedily up to twelve. */
  function DigitRunMatch(s: string): (r: string)
    ensures r == "" || (8 <= |r| <= 12 && AllChars(r, IsDecimalDigit))
  {
    match FirstMatchFrom(s, 0, StartsDigitRun)
    case None => ""
    case Some(i) => GreedyRun(s[i..])
  }

  /** The digits that `\d{8,12}` takes at the start of `t`. */
  function GreedyRun(t: string): (r: string)
    requires StartsDigitRun(t)
    ensures 8 <= |r| <= 12 && AllChars(r, IsDecimalDigit)
  {
    var n := LeadRun(t, IsDecimalDigit);
    LeadRunPrefix(t, IsDecimalDigit);
    var m := if n < 12 then n else 12;
    assert t[..m] == t[..n][..m];
    t[..m]
  }

  /** The regular-expression reading of the match, stated without the
      search: `m` digits at `i`, as many as follow up to twelve, and no
      eight digits in a row anywhere left of `i`. */
  predicate IsDigitRunMatch(s: string, i: nat, m: nat) {
    && i + m <= |s| && 8 <= m <= 12
    && AllChars(s[i..i + m], IsDecimalDigit)
    && (m == 12 || i + m == |s| || !IsDecimalDigit(s[i + m]))
    && forall j :: 0 <= j < i ==> !EightDigitsAt(s, j)
  }

  /** The search's test at `j` is the regular expression's. */
  lemma StartsDigitRunAt(s: string, j: nat)
    requires j <= |s|
    ensures StartsDigitRun(s[j..]) <==> EightDigitsAt(s, j)
  {
    var t := s[j..];
    if StartsDigitRun(t) {
      LeadRunSlice(s, j, j + LeadRun(t, IsDecimalDigit), IsDecimalDigit);
      assert s[j..j + 8] == s[j..j + LeadRun(t, IsDecimalDigit)][..8];
    }
    if EightDigitsAt(s, j) {
      assert t == s[j..j + 8] + s[j + 8..];
      LeadRunConcat(s[j..j + 8], s[j + 8..], IsDecimalDigit);
    }
  }

  /** The search finds nothing exactly when no eight digits stand in a row. */
  lemma DigitRunMatchNone(s: string)
    ensures DigitRunMatch(s) == "" <==> forall j :: 0 <= j <= |s| ==> !EightDigitsAt(s, j)
  {
    forall j | 0 <= j <= |s|
      ensures StartsDigitRun(s[j..]) <==> EightDigitsAt(s, j)
    {
      StartsDigitRunAt(s, j);
    }
  }

  /** The regular-expression match is the one the search returns. */
  lemma DigitRunMatchIs(s: string, i: nat, m: nat)
    requires IsDigitRunMatch(s, i, m)
    ensures DigitRunMatch(s) == s[i..i + m]
  {
    forall j | 0 <= j < i
      ensures !StartsDigitRun(s[j..])
    {
      StartsDigitRunAt(s, j);
    }
    assert EightDigitsAt(s, i) by {
      assert s[i..i + 8] == s[i..i + m][..8];
    }
    StartsDigitRunAt(s, i);
    FirstMatchFromAt(s, 0, StartsDigitRun, i);
    GreedyRunLength(s, i, m);
  }

  /** The greedy run at a match position has the match's length. */
  lemma GreedyRunLength(s: string, i: nat, m: nat)
    requires i + m <= |s| && 8 <= m <= 12 && AllChars(s[i..i + m], IsDecimalDigit)
    requires m == 12 || i + m == |s| || !IsDecimalDigit(s[i + m])
    ensures StartsDigitRun(s[i..]) && GreedyRun(s[i..]) == s[i..i + m]
  {
    var t := s[i..];
    assert t[..m] == s[i..i + m];
    assert t == t[..m] + t[m..];
    LeadRunConcat(t[..m], t[m..], IsDecimalDigit);
    if m < 12 {
      if m < |t| {
        assert t[m] == s[i + m];
      }
      LeadRunExact(t, m, IsDecimalDigit);
    }
  }

  /** Every match the search returns is the regular expression's. */
  lemma DigitRunMatchFound(s: string) returns (i: nat, m: nat)
    requires DigitRunMatch(s) != ""
    ensures IsDigitRunMatch(s, i, m) && DigitRunMatch(s) == s[i..i + m]
  {
    i := FirstMatchFrom(s, 0, StartsDigitRun).value;
    assert DigitRunMatch(s) == GreedyRun(s[i..]);
    m := |GreedyRun(s[i..])|;
    NoEightBefore(s, i);
    GreedyRunMatches(s, i, m);
  }

  lemma GreedyRunMatches(s: string, i: nat, m: nat)
    requires i <= |s| && StartsDigitRun(s[i..]) && m == |GreedyRun(s[i..])|
    requires forall j :: 0 <= j < i ==> !EightDigitsAt(s, j)
    ensures IsDigitRunMatch(s, i, m) && GreedyRun(s[i..]) == s[i..i + m]
  {
    GreedyRunAt(s, i);
  }

  /** No eight digits stand in a row left of where the search stops. */
  lemma NoEightBefore(s: string, i: nat)
    requires i <= |s| && forall j :: 0 <= j < i ==> !StartsDigitRun(s[j..])
    ensures forall j :: 0 <= j < i ==> !EightDigitsAt(s, j)
  {
    forall j | 0 <= j < i
      ensures !EightDigitsAt(s, j)
    {
      StartsDigitRunAt(s, j);
    }
  }

  /** The greedy run at `i`, as a slice of `s`: it is followed by a
      non-digit unless it reaches twelve or the end. */
  lemma GreedyRunAt(s: string, i: nat)
    requires i <= |s| && StartsDigitRun(s[i..])
    ensures var m := |GreedyRun(s[i..])|;
      && i + m <= |s| && GreedyRun(s[i..]) == s[i..i + m]
      && AllChars(s[i..i + m], IsDecimalDigit)
      && (m == 12 || i + m == |s| || !IsDecimalDigit(s[i + m]))
  {
    var t := s[i..];
    var m := |GreedyRun(t)|;
    assert t[..m] == s[i..i + m];
    if m < 12 && i + m < |s| {
      assert t[m] == s[i + m];
    }
  }

  /** Not a blank: what `.replace(" ", "")` keeps. */
  predicate IsNotBlank(c: char) { c != ' ' }

  /** `.strip().replace("O", "0").replace(" ", "")` on the OCR text of a
      number field. */
  function NumberText(ocr: string): (r: string)
    ensures ' ' !in r && 'O' !in r
    ensures forall c :: c in r ==> c in ocr || c == '0'
  {
    var s := Strip(ocr, IsSpace);
    ReplaceCharChars(s, 'O', '0');
    FilterChars(ReplaceChar(s, 'O', '0'), IsNotBlank)
  }

  /** `extract_card_number` after the OCR call: "" or 8 to 12 digits. */
  function CardNumber(ocr: string): (r: string)
    ensures r == "" || (8 <= |r| <= 12 && AllChars(r, IsDecimalDigit))
  {
    DigitRunMatch(NumberText(ocr))
  }

  /** With only ASCII digits in the OCR text (what the whitelist of the
      OCR call yields), the number is ASCII. */
  lemma CardNumberAscii(ocr: string)
    requires forall c :: c in ocr && IsDecimalDigit(c) ==> IsAsciiDigit(c)
    ensures AllChars(CardNumber(ocr), IsAsciiDigit)
  {
    var s := NumberText(ocr);
    var r := DigitRunMatch(s);
    if r != "" {
      var i, m := DigitRunMatchFound(s);
      var t := s[i..i + m];
      assert r == t;
      forall k | 0 <= k < |r|
        ensures IsAsciiDigit(r[k])
      {
        assert t[k] == s[i + k] && s[i + k] in s;
      }
    }
  }

  /** `extract_chip_number` after the OCR call: the same search on the chip
      field's text, given up when it repeats the card number. */
  function ChipNumber(ocr: string, cardNumber: string): (r: string)
    ensures r == "" || (8 <= |r| <= 12 && AllChars(r, IsDecimalDigit) && r != cardNumber)
    ensures r == "" <==> CardNumber(ocr) == "" || CardNumber(ocr) == cardNumber
    ensures r != "" ==> r == CardNumber(ocr)
  {
    var m := DigitRunMatch(NumberText(ocr));
    if m != "" && m != cardNumber then m else ""
  }

  // ---------------------------------------------------------------------
  // Lines and MRZ lines
  // ---------------------------------------------------------------------

  /** A recognised line as `extract_card_data` keeps it: not empty, and
      stripped of white space at both ends. */
  predicate IsStrippedLine(line: string) {
    line != "" && !IsSpace(line[0]) && !IsSpace(line[|line| - 1])
  }

  /** `[line.strip() for line in parts if line.strip()]`: the parts
      stripped, the empty ones dropped. */
  function StrippedParts(parts: seq<string>): (r: seq<string>)
    ensures |r| <= |parts|
    ensures forall k :: 0 <= k < |r| ==> IsStrippedLine(r[k])
  {
    KeepNonEmpty(StripAll(parts))
  }

  /** Every part that is not blank is kept, stripped, in order and as often
      as it occurs: stripping and dropping work part by part. */
  lemma StrippedPartsConcat(a: seq<string>, b: seq<string>)
    ensures StrippedParts(a + b) == StrippedParts(a) + StrippedParts(b)
  {
    StripAllConcat(a, b);
    KeepNonEmptyConcat(StripAll(a), StripAll(b));
  }

  lemma StrippedPart(part: string)
    ensures StrippedParts([part]) == if Strip(part, IsSpace) == "" then [] else [Strip(part, IsSpace)]
  {
    assert StripAll([part]) == [Strip(part, IsSpace)];
    assert [Strip(part, IsSpace)][1..] == [];
  }

  /** A character in no part is in no stripped line. */
  lemma StrippedPartsLack(parts: seq<string>, c: char)
    requires forall k :: 0 <= k < |parts| ==> c !in parts[k]
    ensures forall k :: 0 <= k < |StrippedParts(parts)| ==> c !in StrippedParts(parts)[k]
  {
    var r := StrippedParts(parts);
    forall k | 0 <= k < |r|
      ensures c !in r[k]
    {
      var j :| 0 <= j < |parts| && StripAll(parts)[j] == r[k];
    }
  }

  /** The lines `extract_card_data` reads from the OCR text, split at "\n". */
  function OcrLines(text: string): (r: seq<string>)
    ensures forall k :: 0 <= k < |r| ==> IsStrippedLine(r[k]) && '\n' !in r[k]
  {
    StrippedPartsLack(SplitOn(text, '\n'), '\n');
    StrippedParts(SplitOn(text, '\n'))
  }

  /** The OCR text is read line by line, for any text: its first line,
      stripped, comes first when it is not blank, then the lines of the
      rest. */
  lemma OcrLinesCons(line: string, rest: string)
    requires '\n' !in line
    ensures OcrLines(line + "\n" + rest)
        == (if Strip(line, IsSpace) == "" then [] else [Strip(line, IsSpace)]) + OcrLines(rest)
  {
    SplitOnCons(line, rest, '\n');
    StrippedPartsConcat([line], SplitOn(rest, '\n'));
    StrippedPart(line);
  }

  /** A text without a newline is one line. */
  lemma OcrLinesSingle(line: string)
    requires '\n' !in line
    ensures OcrLines(line) == if Strip(line, IsSpace) == "" then [] else [Strip(line, IsSpace)]
  {
    SplitOnJoin([line], '\n');
    assert Join([line], "\n") == line;
    StrippedPart(line);
  }

  lemma StrippedPartsOfLines(lines: seq<string>)
    requires forall k :: 0 <= k < |lines| ==> IsStrippedLine(lines[k])
    ensures StrippedParts(lines) == lines
  {
    forall k | 0 <= k < |lines|
      ensures StripAll(lines)[k] == lines[k]
    {
      StripUnchanged(lines[k], IsSpace);
    }
    assert StripAll(lines) == lines;
    KeepNonEmptyAll(lines);
  }

  /** Lines already in that form, joined by newlines, are read back. */
  lemma OcrLinesOfJoin(lines: seq<string>)
    requires lines != []
    requires forall k :: 0 <= k < |lines| ==> IsStrippedLine(lines[k]) && '\n' !in lines[k]
    ensures OcrLines(Join(lines, "\n")) == lines
  {
    SplitOnJoin(lines, '\n');
    StrippedPartsOfLines(lines);
  }

  /** `[A-Z0-9]`. */
  predicate IsMrzRunChar(c: char) { IsAsciiUpper(c) || IsAsciiDigit(c) }

  /** `re.search(r"[<]{2,}|[A-Z0-9]{15,}", line)` finds something: two
      fillers in a row, or fifteen upper-case letters and digits. */
  predicate IsMrzCandidate(line: string) {
    Contains(line, "<<") || exists i :: 0 <= i <= |line| && LeadRun(line[i..], IsMrzRunChar) >= 15
  }

  /** `mrz_lines`: the candidates, in order. */
  function MrzLines(lines: seq<string>): (r: seq<string>)
    ensures |r| <= |lines|
    ensures forall k :: 0 <= k < |r| ==> IsMrzCandidate(r[k]) && r[k] in lines
  {
    if lines == [] then []
    else
      var rest := MrzLines(lines[1..]);
      assert forall k :: 0 <= k < |rest| ==> rest[k] in lines by {
        assert forall k :: 0 <= k < |rest| ==> rest[k] in lines[1..];
      }
      (if IsMrzCandidate(lines[0]) then [lines[0]] else []) + rest
  }

  /** The selection keeps the order of the lines: the candidates of two
      stretches are those of the first, then those of the second. */
  lemma {:induction false} MrzLinesConcat(a: seq<string>, b: seq<string>)
    ensures MrzLines(a + b) == MrzLines(a) + MrzLines(b)
  {
    if a != [] {
      assert (a + b)[1..] == a[1..] + b;
      MrzLinesConcat(a[1..], b);
    } else {
      assert a + b == b;
    }
  }

  /** No candidate is missed. */
  lemma {:induction false} MrzLinesComplete(lines: seq<string>, k: nat)
    requires k < |lines| && IsMrzCandidate(lines[k])
    ensures lines[k] in MrzLines(lines)
  {
    if k > 0 {
      MrzLinesComplete(lines[1..], k - 1);
    }
  }

  /** `data["MRZ"][f"Line{k+1}"]` after the copying loop: the k-th MRZ line
      when there is one, else "". */
  function MrzSlot(mrz: seq<string>, k: nat): string {
    if k < |mrz| then mrz[k] else ""
  }

  // ---------------------------------------------------------------------
  // Names from MRZ line 3
  // ---------------------------------------------------------------------

  /** Not the filler: what `.replace("<", "")` keeps. */
  predicate IsNotFiller(c: char) { c != '<' }

  /** `parts[0].replace("<", "").strip()` with `parts = line3.split("<")`. */
  function Surname(line3: string): (r: string)
    ensures '<' !in r
  {
    Strip(FilterChars(SplitOn(line3, '<')[0], IsNotFiller), IsSpace)
  }

  /** `" ".join([p for p in parts[1:] if p]).replace("<", " ").strip()`. */
  function GivenNames(line3: string): (r: string)
    ensures '<' !in r
  {
    var j := Join(KeepNonEmpty(SplitOn(line3, '<')[1..]), " ");
    ReplaceCharChars(j, '<', ' ');
    Strip(ReplaceChar(j, '<', ' '), IsSpace)
  }

  /** The parts of line 3 after its first filler that hold a name. */
  function NameParts(line3: string): seq<string> {
    KeepNonEmpty(SplitOn(line3, '<')[1..])
  }

  /** The surname is what stands before the first filler, stripped. */
  lemma SurnameBeforeFiller(line3: string)
    ensures Surname(line3) == Strip(line3[..IndexOf(line3, '<')], IsSpace)
  {
    var p := SplitOn(line3, '<')[0];
    assert forall c :: c in p ==> IsNotFiller(c);
    FilterCharsKeepsAll(p, IsNotFiller);
  }

  /** For every line 3, the given names are the name parts joined by single
      blanks and stripped: no part holds a filler, so the replacement of
      fillers by blanks changes nothing. */
  lemma GivenNamesStripped(line3: string)
    ensures GivenNames(line3) == Strip(Join(NameParts(line3), " "), IsSpace)
  {
    var ps := NameParts(line3);
    forall k | 0 <= k < |ps|
      ensures '<' !in ps[k]
    {
      assert ps[k] in SplitOn(line3, '<')[1..];
    }
    JoinLacks(ps, " ", '<');
    ReplaceCharAbsent(Join(ps, " "), '<', ' ');
  }

  /** When no name part holds white space, the strip removes nothing: the
      given names are exactly the parts joined by single blanks, and
      splitting at the blanks gives them back. */
  lemma GivenNamesJoined(line3: string)
    requires forall k, c :: 0 <= k < |NameParts(line3)| && c in NameParts(line3)[k] ==> !IsSpace(c)
    ensures GivenNames(line3) == Join(NameParts(line3), " ")
    ensures NameParts(line3) != [] ==> SplitOn(GivenNames(line3), ' ') == NameParts(line3)
    ensures NameParts(line3) == [] ==> GivenNames(line3) == ""
  {
    var ps := NameParts(line3);
    var j := Join(ps, " ");
    GivenNamesStripped(line3);
    if ps != [] {
      JoinEnds(ps, " ");
      assert j[0] in ps[0];
      var last := ps[|ps| - 1];
      assert j[|j| - 1] in last;
      StripUnchanged(j, IsSpace);
      forall k | 0 <= k < |ps|
        ensures ' ' !in ps[k]
      {
        assert IsSpace(' ');
      }
      SplitOnJoin(ps, ' ');
    }
  }

  /** An empty line 3 leaves both names empty, as the guard around them in
      `extract_card_data` does. */
  lemma NamesOfEmptyLine()
    ensures Surname("") == "" && GivenNames("") == ""
  {
    assert SplitOn("", '<') == [""];
  }

  // ---------------------------------------------------------------------
  // Fields from MRZ line 2
  // ---------------------------------------------------------------------

  /** `\d{6}` at the start. */
  predicate StartsSixDigits(t: string) { |t| >= 6 && AllChars(t[..6], IsDecimalDigit) }

  /** `\d{6}[MF]` at the start. */
  predicate StartsSexField(t: string) { |t| >= 7 && StartsSixDigits(t) && (t[6] == 'M' || t[6] == 'F') }

  /** `\d{6}[MF]\d{6}` at the start. */
  predicate StartsExpiryField(t: string) {
    |t| >= 13 && StartsSexField(t) && AllChars(t[7..13], IsDecimalDigit)
  }

  /** `[A-Z]{3}<{2,}` at the start. */
  predicate StartsNationality(t: string) {
    |t| >= 5 && AllChars(t[..3], IsAsciiUpper) && t[3] == '<' && t[4] == '<'
  }

  /** Group 1 of `re.search(r"(\d{6})", line2)`. */
  function BirthDigits(line2: string): (r: Option<string>)
    ensures r.Some? ==> |r.value| == 6 && AllChars(r.value, IsDecimalDigit)
  {
    match FirstMatchFrom(line2, 0, StartsSixDigits)
    case None => None
    case Some(i) => Some(line2[i..][..6])
  }

  /** Group 1 of `re.search(r"\d{6}([MF])", line2)`. */
  function SexLetter(line2: string): (r: Option<char>)
    ensures r.Some? ==> r.value == 'M' || r.value == 'F'
  {
    match FirstMatchFrom(line2, 0, StartsSexField)
    case None => None
    case Some(i) => Some(line2[i..][6])
  }

  /** Group 1 of `re.search(r"\d{6}[MF](\d{6})", line2)`. */
  function ExpiryDigits(line2: string): (r: Option<string>)
    ensures r.Some? ==> |r.value| == 6 && AllChars(r.value, IsDecimalDigit)
  {
    match FirstMatchFrom(line2, 0, StartsExpiryField)
    case None => None
    case Some(i) => Some(line2[i..][7..13])
  }

  /** Group 1 of `re.search(r"([A-Z]{3})<{2,}", line2)`. */
  function NationalityCode(line2: string): (r: Option<string>)
    ensures r.Some? ==> |r.value| == 3 && AllChars(r.value, IsAsciiUpper)
  {
    match FirstMatchFrom(line2, 0, StartsNationality)
    case None => None
    case Some(i) => Some(line2[i..][..3])
  }

  /** `Date_of_Birth`: the birth digits through `parse_mrz_date`, or "". */
  function BirthDate(line2: string, parseDate: string -> string): string {
    match BirthDigits(line2)
    case None => ""
    case Some(d) => parseDate(d)
  }

  /** `Gender`: "Male" for M, "Female" for F, "" without a match. */
  function Gender(line2: string): (r: string)
    ensures r == "" || r == "Male" || r == "Female"
    ensures r == "" <==> SexLetter(line2).None?
  {
    match SexLetter(line2)
    case None => ""
    case Some(c) => if c == 'M' then "Male" else "Female"
  }

  /** `Expiry_Date`: the expiry digits through `parse_mrz_date`, or "". */
  function ExpiryDate(line2: string, parseDate: string -> string): string {
    match ExpiryDigits(line2)
    case None => ""
    case Some(d) => parseDate(d)
  }

  /** `Nationality`: the three letters, or "". */
  function Nationality(line2: string): (r: string)
    ensures r == "" || (|r| == 3 && AllChars(r, IsAsciiUpper))
  {
    match NationalityCode(line2)
    case None => ""
    case Some(code) => code
  }

  /** The gender is read at the first place where six digits are followed
      by M or F, and is "" when there is no such place. */
  lemma GenderAt(line2: string, i: nat)
    requires i + 7 <= |line2| && AllChars(line2[i..i + 6], IsDecimalDigit)
    requires line2[i + 6] == 'M' || line2[i + 6] == 'F'
    requires forall j :: 0 <= j < i ==> !StartsSexField(line2[j..])
    ensures Gender(line2) == if line2[i + 6] == 'M' then "Male" else "Female"
  {
    assert line2[i..][..6] == line2[i..i + 6];
    FirstMatchFromAt(line2, 0, StartsSexField, i);
  }

  lemma GenderNone(line2: string)
    ensures Gender(line2) == "" <==> forall j :: 0 <= j <= |line2| ==> !StartsSexField(line2[j..])
  {
  }

  /** A match for the expiry pattern is one for the sex pattern, and that
      one for the birth pattern: the later fields are found only with the
      earlier ones. */
  lemma FieldsNest(line2: string)
    ensures ExpiryDigits(line2).Some? ==> SexLetter(line2).Some?
    ensures SexLetter(line2).Some? ==> BirthDigits(line2).Some?
  {
    var e := FirstMatchFrom(line2, 0, StartsExpiryField);
    if e.Some? {
      assert StartsSexField(line2[e.value..]);
    }
    var g := FirstMatchFrom(line2, 0, StartsSexField);
    if g.Some? {
      assert StartsSixDigits(line2[g.value..]);
    }
  }

  /** An empty line 2 yields no field, as the guard around them in
      `extract_card_data` does. */
  lemma FieldsOfEmptyLine(parseDate: string -> string)
    ensures BirthDate("", parseDate) == "" && Gender("") == ""
    ensures ExpiryDate("", parseDate) == "" && Nationality("") == ""
  {
  }

  // ---------------------------------------------------------------------
  // extract_card_data
  // ---------------------------------------------------------------------

  /** The fields of the `data` dict that the model covers; `mrz` holds
      Line1, Line2 and Line3. */
  datatype CardData = CardData(
    cardNumber: string,
    chipNumber: string,
    mrz: seq<string>,
    surname: string,
    givenNames: string,
    nationality: string,
    dateOfBirth: string,
    gender: string,
    expiryDate: string)

  /** The copying loop of `extract_card_data`: the first three MRZ lines
      into the slots Line1 to Line3, the slots without a line left "". */
  method FillMrzSlots(mrzLines: seq<string>) returns (mrz: seq<string>)
    ensures |mrz| == 3
    ensures forall k :: 0 <= k < 3 ==> mrz[k] == MrzSlot(mrzLines, k)
  {
    mrz := ["", "", ""];
    var n := if |mrzLines| < 3 then |mrzLines| else 3;
    for i := 0 to n
      invariant |mrz| == 3
      invariant forall k :: 0 <= k < 3 ==> mrz[k] == if k < i then mrzLines[k] else ""
    {
      mrz := mrz[i := mrzLines[i]];
    }
  }

  /** The names, set only when line 3 is not empty. */
  method ReadNames(line3: string) returns (surname: string, givenNames: string)
    ensures surname == Surname(line3) && givenNames == GivenNames(line3)
  {
    surname, givenNames := "", "";
    NamesOfEmptyLine();
    if line3 != "" {
      surname, givenNames := Surname(line3), GivenNames(line3);
    }
  }

  /** The fields read from line 2, each set only when its pattern matches
      in the cleaned line, and none when line 2 is empty. */
  method ReadLine2Fields(rawLine2: string, parseDate: string -> string)
    returns (dateOfBirth: string, gender: string, expiryDate: string, nationality: string)
    ensures var line2 := CleanMrzLine(rawLine2);
      && dateOfBirth == BirthDate(line2, parseDate)
      && gender == Gender(line2)
      && expiryDate == ExpiryDate(line2, parseDate)
      && nationality == Nationality(line2)
  {
    dateOfBirth, gender, expiryDate, nationality := "", "", "", "";
    FieldsOfEmptyLine(parseDate);
    if rawLine2 != "" {
      var line2 := CleanMrzLine(rawLine2);
      var birth := BirthDigits(line2);
      if birth.Some? {
        dateOfBirth := parseDate(birth.value);
      }
      var sex := SexLetter(line2);
      if sex.Some? {
        gender := if sex.value == 'M' then "Male" else "Female";
      }
      var expiry := ExpiryDigits(line2);
      if expiry.Some? {
        expiryDate := parseDate(expiry.value);
      }
      var code := NationalityCode(line2);
      if code.Some? {
        nationality := code.value;
      }
    }
  }

  /** `extract_card_data` after its OCR calls: `ocrText` is the text of the
      whole card, `cardText` and `chipText` those of the two number fields. */
  method ExtractCardData(ocrText: string, cardText: string, chipText: string, parseDate: string -> string)
    returns (data: CardData)
    ensures data.cardNumber == CardNumber(cardText)
    ensures data.chipNumber == ChipNumber(chipText, data.cardNumber)
    ensures |data.mrz| == 3
    ensures forall k :: 0 <= k < 3 ==> data.mrz[k] == MrzSlot(MrzLines(OcrLines(ocrText)), k)
    ensures data.surname == Surname(data.mrz[2]) && data.givenNames == GivenNames(data.mrz[2])
    ensures var line2 := CleanMrzLine(data.mrz[1]);
      && data.dateOfBirth == BirthDate(line2, parseDate)
      && data.gender == Gender(line2)
      && data.expiryDate == ExpiryDate(line2, parseDate)
      && data.nationality == Nationality(line2)
  {
    var lines := OcrLines(ocrText);
    var cardNumber := CardNumber(cardText);
    var chipNumber := ChipNumber(chipText, cardNumber);
    var mrz := FillMrzSlots(MrzLines(lines));
    var surname, givenNames := ReadNames(mrz[2]);
    var dateOfBirth, gender, expiryDate, nationality := ReadLine2Fields(mrz[1], parseDate);
    data := CardData(cardNumber, chipNumber, mrz, surname, givenNames, nationality,
                     dateOfBirth, gender, expiryDate);
  }
}
