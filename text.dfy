/** The parts of Python's `str` and `re` that the pipeline relies on, over
    strings taken as sequences of Unicode code points: character classes,
    `strip`, run replacement (`re.sub` with a `+` or `{2,}` class),
    character filters, `splitlines`, `split`, `join`, the strip and
    non-empty filters of list comprehensions, `str(n)` and `int(s)`. */
module Text {

  import opened Wrappers

  // ---------------------------------------------------------------------
  // Character classes
  // ---------------------------------------------------------------------

  /** `str.isspace()`; `\s` in a `re` pattern over `str` matches the same
      29 code points. */
  predicate IsSpace(c: char) {
    ('\t' <= c <= '\r') || ('\U{1C}' <= c <= ' ') || c == '\U{85}' || c == '\U{A0}'
    || c == '\U{1680}' || ('\U{2000}' <= c <= '\U{200A}')
    || c == '\U{2028}' || c == '\U{2029}' || c == '\U{202F}' || c == '\U{205F}' || c == '\U{3000}'
  }

  /** The code points at which `str.splitlines()` ends a line. */
  predicate IsLineBreak(c: char) {
    ('\n' <= c <= '\r') || ('\U{1C}' <= c <= '\U{1E}') || c == '\U{85}' || c == '\U{2028}' || c == '\U{2029}'
  }

  predicate IsLineChar(c: char) { !IsLineBreak(c) }

  /** The range `ء-ي` that every Arabic-letter class of the source uses. */
  predicate IsArabicLetter(c: char) { '\U{0621}' <= c <= '\U{064A}' }

  predicate IsAsciiUpper(c: char) { 'A' <= c <= 'Z' }

  predicate IsAsciiLower(c: char) { 'a' <= c <= 'z' }

  predicate IsAsciiLetter(c: char) { IsAsciiUpper(c) || IsAsciiLower(c) }

  predicate IsAsciiDigit(c: char) { '0' <= c <= '9' }

  /** ARABIC-INDIC DIGIT ZERO .. NINE, U+0660 .. U+0669. */
  predicate IsArabicIndicDigit(c: char) { '\U{0660}' <= c <= '\U{0669}' }

  /** EXTENDED ARABIC-INDIC DIGIT ZERO .. NINE, U+06F0 .. U+06F9. */
  predicate IsExtendedArabicIndicDigit(c: char) { '\U{06F0}' <= c <= '\U{06F9}' }

  /** `\d`: the decimal digits of the three scripts this model covers. */
  predicate IsDecimalDigit(c: char) {
    IsAsciiDigit(c) || IsArabicIndicDigit(c) || IsExtendedArabicIndicDigit(c)
  }

  /** The value `int()` gives a decimal digit. */
  function DigitValue(c: char): (d: nat)
    requires IsDecimalDigit(c)
    ensures d < 10
  {
    if IsAsciiDigit(c) then c as int - '0' as int
    else if IsArabicIndicDigit(c) then c as int - 0x0660
    else c as int - 0x06F0
  }

  function DigitChar(d: nat): (c: char)
    requires d < 10
    ensures IsAsciiDigit(c) && DigitValue(c) == d
  {
    ('0' as int + d) as char
  }

  // ---------------------------------------------------------------------
  // Predicates on strings
  // ---------------------------------------------------------------------

  predicate AllChars(s: string, p: char -> bool) {
    forall k :: 0 <= k < |s| ==> p(s[k])
  }

  predicate HasPrefix(s: string, prefix: string) {
    |prefix| <= |s| && s[..|prefix|] == prefix
  }

  /** Python's `part in s` for strings. */
  predicate Contains(s: string, part: string) {
    exists i :: 0 <= i <= |s| && HasPrefix(s[i..], part)
  }

  /** No two neighbouring occurrences of `c`. */
  predicate NoDouble(s: string, c: char) {
    forall k :: 0 <= k < |s| - 1 ==> !(s[k] == c && s[k + 1] == c)
  }

  lemma NoDoubleIsNotContains(s: string, c: char)
    ensures NoDouble(s, c) <==> !Contains(s, [c, c])
  {
    if !NoDouble(s, c) {
      var k :| 0 <= k < |s| - 1 && s[k] == c && s[k + 1] == c;
      assert s[k..][..2] == [c, c];
    }
    if Contains(s, [c, c]) {
      var i :| 0 <= i <= |s| && HasPrefix(s[i..], [c, c]);
      assert s[i] == s[i..][..2][0] && s[i + 1] == s[i..][..2][1];
    }
  }

  lemma NoDoubleConcat(a: string, b: string, c: char)
    requires NoDouble(a, c) && NoDouble(b, c)
    requires a == [] || b == [] || a[|a| - 1] != c || b[0] != c
    ensures NoDouble(a + b, c)
  {
    var s := a + b;
    forall k | 0 <= k < |s| - 1
      ensures !(s[k] == c && s[k + 1] == c)
    {
      if k + 1 < |a| {
        assert s[k] == a[k] && s[k + 1] == a[k + 1];
      } else if k >= |a| {
        assert s[k] == b[k - |a|] && s[k + 1] == b[k + 1 - |a|];
      }
    }
  }

  lemma NoDoubleSlice(s: string, lo: nat, hi: nat, c: char)
    requires lo <= hi <= |s| && NoDouble(s, c)
    ensures NoDouble(s[lo..hi], c)
  {
    var t := s[lo..hi];
    forall k | 0 <= k < |t| - 1
      ensures !(t[k] == c && t[k + 1] == c)
    {
      assert t[k] == s[lo + k] && t[k + 1] == s[lo + k + 1];
    }
  }

  // ---------------------------------------------------------------------
  // Runs and strip
  // ---------------------------------------------------------------------

  /** The length of the longest prefix of `s` whose characters satisfy `p`
      (what a greedy `[class]*` consumes). */
  function LeadRun(s: string, p: char -> bool): (n: nat)
    ensures n <= |s|
    ensures forall k :: 0 <= k < n ==> p(s[k])
    ensures n < |s| ==> !p(s[n])
  {
    if s == [] || !p(s[0]) then 0 else 1 + LeadRun(s[1..], p)
  }

  /** The length of the longest suffix of `s` whose characters satisfy `p`. */
  function TrailRun(s: string, p: char -> bool): (n: nat)
    ensures n <= |s|
    ensures forall k :: |s| - n <= k < |s| ==> p(s[k])
    ensures n < |s| ==> !p(s[|s| - 1 - n])
  {
    if s == [] || !p(s[|s| - 1]) then 0 else 1 + TrailRun(s[..|s| - 1], p)
  }

  /** The leading run, as a slice. */
  lemma LeadRunPrefix(s: string, p: char -> bool)
    ensures AllChars(s[..LeadRun(s, p)], p)
  {
    var n := LeadRun(s, p);
    assert forall k :: 0 <= k < n ==> s[..n][k] == s[k];
  }

  /** The leading run of a suffix, as a slice of the whole. */
  lemma LeadRunSlice(s: string, i: nat, j: nat, p: char -> bool)
    requires i <= |s| && j == i + LeadRun(s[i..], p)
    ensures j <= |s| && AllChars(s[i..j], p)
  {
    LeadRunPrefix(s[i..], p);
    assert s[i..][..j - i] == s[i..j];
  }

  lemma {:induction false} LeadRunConcat(a: string, b: string, p: char -> bool)
    requires AllChars(a, p)
    ensures LeadRun(a + b, p) == |a| + LeadRun(b, p)
  {
    if a != [] {
      assert (a + b)[1..] == a[1..] + b;
      LeadRunConcat(a[1..], b, p);
    } else {
      assert a + b == b;
    }
  }

  /** A run of exactly `m` characters that stops at `m` is the leading run. */
  lemma LeadRunExact(s: string, m: nat, p: char -> bool)
    requires m <= |s| && AllChars(s[..m], p) && (m < |s| ==> !p(s[m]))
    ensures LeadRun(s, p) == m
  {
    assert s == s[..m] + s[m..];
    LeadRunConcat(s[..m], s[m..], p);
    if m < |s| {
      assert s[m..][0] == s[m];
    }
  }

  lemma {:induction false} TrailRunConcat(a: string, b: string, p: char -> bool)
    requires AllChars(b, p)
    ensures TrailRun(a + b, p) == TrailRun(a, p) + |b|
  {
    if b != [] {
      assert (a + b)[..|a + b| - 1] == a + b[..|b| - 1];
      TrailRunConcat(a, b[..|b| - 1], p);
    } else {
      assert a + b == a;
    }
  }

  /** A trailing run that stops inside `b` is the trailing run of `a + b`. */
  lemma {:induction false} TrailRunShort(a: string, b: string, p: char -> bool)
    requires TrailRun(b, p) < |b|
    ensures TrailRun(a + b, p) == TrailRun(b, p)
    decreases |b|
  {
    var ab := a + b;
    assert ab[|ab| - 1] == b[|b| - 1];
    if p(b[|b| - 1]) {
      assert ab[..|ab| - 1] == a + b[..|b| - 1];
      TrailRunShort(a, b[..|b| - 1], p);
    }
  }

  /** The trailing run, as a slice. */
  lemma TrailRunSuffix(s: string, p: char -> bool)
    ensures AllChars(s[|s| - TrailRun(s, p)..], p)
  {
    var n := TrailRun(s, p);
    var t := s[|s| - n..];
    assert forall k :: 0 <= k < |t| ==> t[k] == s[|s| - n + k];
  }

  /** A character outside the class followed only by class members: the
      trailing run of that suffix is everything after the character. */
  lemma TrailRunAfter(s: string, i: nat, p: char -> bool)
    requires i < |s| && !p(s[i]) && AllChars(s[i + 1..], p)
    ensures TrailRun(s[i..], p) == |s| - i - 1
  {
    assert s[i..] == [s[i]] + s[i + 1..];
    TrailRunConcat([s[i]], s[i + 1..], p);
    assert TrailRun([s[i]], p) == 0;
  }

  /** A suffix that is longer than its trailing run has the same trailing run. */
  lemma TrailRunOfSuffix(s: string, i: nat, p: char -> bool)
    requires i <= |s| && TrailRun(s[i..], p) < |s| - i
    ensures TrailRun(s, p) == TrailRun(s[i..], p)
  {
    assert s == s[..i] + s[i..];
    TrailRunShort(s[..i], s[i..], p);
  }

  /** `s.lstrip(chars)`, `s.rstrip(chars)` and `s.strip(chars)`, with `p`
      the set of characters to strip. */
  function LStrip(s: string, p: char -> bool): string {
    s[LeadRun(s, p)..]
  }

  function RStrip(s: string, p: char -> bool): string {
    s[..|s| - TrailRun(s, p)]
  }

  function Strip(s: string, p: char -> bool): (r: string)
    ensures |r| <= |s|
    ensures r == [] || (!p(r[0]) && !p(r[|r| - 1]))
    ensures forall c :: c in r ==> c in s
  {
    var t := LStrip(s, p);
    assert forall c :: c in RStrip(t, p) ==> c in t;
    RStrip(t, p)
  }

  /** `strip` is a slice of its argument. */
  lemma StripIsSlice(s: string, p: char -> bool) returns (lo: nat, hi: nat)
    ensures lo <= hi <= |s| && Strip(s, p) == s[lo..hi]
  {
    lo := LeadRun(s, p);
    var t := s[lo..];
    hi := lo + |t| - TrailRun(t, p);
    assert t[..|t| - TrailRun(t, p)] == s[lo..hi];
  }

  /** A string whose ends are not stripped is left as it is. */
  lemma StripUnchanged(s: string, p: char -> bool)
    requires s == [] || (!p(s[0]) && !p(s[|s| - 1]))
    ensures Strip(s, p) == s
  {
  }

  // ---------------------------------------------------------------------
  // Substitution
  // ---------------------------------------------------------------------

  /** `re.sub("[class]+", repl, s)` for `minLen == 1` and
      `re.sub("[class]{2,}", repl, s)` for `minLen == 2`: every maximal run of
      characters satisfying `inRun` that is at least `minLen` long becomes
      `repl`; shorter runs and all other characters stay. */
  function CollapseRuns(s: string, inRun: char -> bool, minLen: nat, repl: string): (r: string)
    ensures forall c :: c in r ==> c in s || c in repl
    decreases |s|
  {
    if s == [] then []
    else
      var n := LeadRun(s, inRun);
      if n == 0 then
        var rest := CollapseRuns(s[1..], inRun, minLen, repl);
        assert forall c :: c in rest ==> c in s || c in repl by {
          assert forall c :: c in s[1..] ==> c in s;
        }
        [s[0]] + rest
      else
        var rest := CollapseRuns(s[n..], inRun, minLen, repl);
        assert forall c :: c in rest ==> c in s || c in repl by {
          assert forall c :: c in s[n..] ==> c in s;
        }
        assert forall c :: c in s[..n] ==> c in s;
        (if n >= minLen then repl else s[..n]) + rest
  }

  /** With `minLen <= 1` every character of the class is replaced. */
  lemma {:induction false} CollapseRunsReplacesAll(s: string, inRun: char -> bool, minLen: nat, repl: string)
    requires minLen <= 1
    ensures forall c :: c in CollapseRuns(s, inRun, minLen, repl) ==> (c in s && !inRun(c)) || c in repl
    decreases |s|
  {
    if s != [] {
      var n := LeadRun(s, inRun);
      if n == 0 {
        CollapseRunsReplacesAll(s[1..], inRun, minLen, repl);
        assert forall c :: c in s[1..] ==> c in s;
      } else {
        CollapseRunsReplacesAll(s[n..], inRun, minLen, repl);
        assert forall c :: c in s[n..] ==> c in s;
      }
    }
  }

  /** The first character of the result comes from the input or from `repl`. */
  lemma CollapseRunsHead(s: string, inRun: char -> bool, minLen: nat, repl: string)
    requires repl != []
    ensures var r := CollapseRuns(s, inRun, minLen, repl);
      (r == [] <==> s == []) && (r != [] ==> r[0] == s[0] || (inRun(s[0]) && r[0] == repl[0]))
  {
  }

  /** A run character `c` never appears twice in a row after the collapse,
      provided `repl` itself has no such pair and runs of one are kept. */
  lemma {:induction false} CollapseRunsNoDouble(s: string, inRun: char -> bool, minLen: nat, repl: string, c: char)
    requires inRun(c) && minLen <= 2 && repl != [] && NoDouble(repl, c)
    ensures NoDouble(CollapseRuns(s, inRun, minLen, repl), c)
    decreases |s|
  {
    if s != [] {
      var n := LeadRun(s, inRun);
      if n == 0 {
        var rest := CollapseRuns(s[1..], inRun, minLen, repl);
        CollapseRunsNoDouble(s[1..], inRun, minLen, repl, c);
        NoDoubleConcat([s[0]], rest, c);
      } else {
        var rest := CollapseRuns(s[n..], inRun, minLen, repl);
        CollapseRunsNoDouble(s[n..], inRun, minLen, repl, c);
        CollapseRunsHead(s[n..], inRun, minLen, repl);
        var head := if n >= minLen then repl else s[..n];
        NoDoubleConcat(head, rest, c);
      }
    }
  }

  /** A character outside the class that was never doubled stays undoubled. */
  lemma {:induction false} CollapseRunsKeepsNoDouble(s: string, inRun: char -> bool, minLen: nat, repl: string, d: char)
    requires !inRun(d) && d !in repl && repl != [] && NoDouble(s, d)
    ensures NoDouble(CollapseRuns(s, inRun, minLen, repl), d)
    decreases |s|
  {
    if s != [] {
      var n := LeadRun(s, inRun);
      NoDoubleSlice(s, 1, |s|, d);
      if n == 0 {
        var rest := CollapseRuns(s[1..], inRun, minLen, repl);
        CollapseRunsKeepsNoDouble(s[1..], inRun, minLen, repl, d);
        CollapseRunsHead(s[1..], inRun, minLen, repl);
        if |s| > 1 {
          assert !(s[0] == d && s[1] == d);
        }
        NoDoubleConcat([s[0]], rest, d);
      } else {
        var rest := CollapseRuns(s[n..], inRun, minLen, repl);
        NoDoubleSlice(s, n, |s|, d);
        CollapseRunsKeepsNoDouble(s[n..], inRun, minLen, repl, d);
        var head := if n >= minLen then repl else s[..n];
        assert d !in head;
        NoDoubleConcat(head, rest, d);
      }
    }
  }

  /** When every replaced run is at least as long as `repl`, the result is
      no longer than the input. */
  lemma {:induction false} CollapseRunsLength(s: string, inRun: char -> bool, minLen: nat, repl: string)
    requires |repl| <= minLen || |repl| <= 1
    ensures |CollapseRuns(s, inRun, minLen, repl)| <= |s|
    decreases |s|
  {
    if s != [] {
      var n := LeadRun(s, inRun);
      if n == 0 {
        CollapseRunsLength(s[1..], inRun, minLen, repl);
      } else {
        CollapseRunsLength(s[n..], inRun, minLen, repl);
      }
    }
  }

  /** `re.sub("[^class]+", "", s)`: keep only the characters satisfying `keep`. */
  function FilterChars(s: string, keep: char -> bool): (r: string)
    ensures |r| <= |s|
    ensures forall c :: c in r ==> c in s && keep(c)
  {
    if s == [] then []
    else
      var rest := FilterChars(s[1..], keep);
      assert forall c :: c in rest ==> c in s by {
        assert forall c :: c in s[1..] ==> c in s;
      }
      (if keep(s[0]) then [s[0]] else []) + rest
  }

  lemma {:induction false} FilterCharsKeepsAll(s: string, keep: char -> bool)
    requires forall c :: c in s ==> keep(c)
    ensures FilterChars(s, keep) == s
  {
    if s != [] {
      assert forall c :: c in s[1..] ==> c in s;
      FilterCharsKeepsAll(s[1..], keep);
    }
  }

  /** Filtering works character by character. */
  lemma {:induction false} FilterCharsConcat(a: string, b: string, keep: char -> bool)
    ensures FilterChars(a + b, keep) == FilterChars(a, keep) + FilterChars(b, keep)
  {
    if a != [] {
      assert (a + b)[1..] == a[1..] + b;
      FilterCharsConcat(a[1..], b, keep);
    } else {
      assert a + b == b;
    }
  }

  /** `s.replace(a, b)` for one-character strings `a` and `b`. */
  function ReplaceChar(s: string, a: char, b: char): (r: string)
    ensures |r| == |s|
  {
    seq(|s|, k requires 0 <= k < |s| => if s[k] == a then b else s[k])
  }

  lemma ReplaceCharChars(s: string, a: char, b: char)
    ensures forall c :: c in ReplaceChar(s, a, b) ==> (c in s && c != a) || c == b
  {
    var r := ReplaceChar(s, a, b);
    forall c | c in r
      ensures (c in s && c != a) || c == b
    {
      var k :| 0 <= k < |r| && r[k] == c;
    }
  }

  lemma ReplaceCharAbsent(s: string, a: char, b: char)
    requires a !in s
    ensures ReplaceChar(s, a, b) == s
  {
  }

  // ---------------------------------------------------------------------
  // Lines and parts
  // ---------------------------------------------------------------------

  /** `[part.strip() for part in parts]`. */
  function StripAll(parts: seq<string>): (r: seq<string>)
    ensures |r| == |parts|
    ensures forall k :: 0 <= k < |r| ==> r[k] == Strip(parts[k], IsSpace)
  {
    seq(|parts|, k requires 0 <= k < |parts| => Strip(parts[k], IsSpace))
  }

  /** Stripping works part by part. */
  lemma StripAllConcat(a: seq<string>, b: seq<string>)
    ensures StripAll(a + b) == StripAll(a) + StripAll(b)
  {
    var l, x, y := StripAll(a + b), StripAll(a), StripAll(b);
    assert |l| == |x + y|;
    forall k | 0 <= k < |l|
      ensures l[k] == (x + y)[k]
    {
      if k < |a| {
        assert (a + b)[k] == a[k] && (x + y)[k] == x[k];
      } else {
        assert (a + b)[k] == b[k - |a|] && (x + y)[k] == y[k - |a|];
      }
    }
  }

  /** `[p for p in parts if p]`: the non-empty parts, in order. */
  function KeepNonEmpty(parts: seq<string>): (r: seq<string>)
    ensures |r| <= |parts|
    ensures forall k :: 0 <= k < |r| ==> r[k] != "" && r[k] in parts
    ensures forall p :: p in parts && p != "" ==> p in r
    decreases |parts|
  {
    if parts == [] then []
    else if parts[0] == "" then KeepNonEmpty(parts[1..])
    else [parts[0]] + KeepNonEmpty(parts[1..])
  }

  /** The filter works part by part: the kept parts keep their order. */
  lemma {:induction false} KeepNonEmptyConcat(a: seq<string>, b: seq<string>)
    ensures KeepNonEmpty(a + b) == KeepNonEmpty(a) + KeepNonEmpty(b)
    decreases |a|
  {
    if a != [] {
      assert (a + b)[1..] == a[1..] + b;
      KeepNonEmptyConcat(a[1..], b);
    } else {
      assert a + b == b;
    }
  }

  /** Each non-empty part is kept as often as it occurs, and "" never. */
  lemma {:induction false} KeepNonEmptyCount(parts: seq<string>, p: string)
    ensures multiset(KeepNonEmpty(parts))[p] == if p == "" then 0 else multiset(parts)[p]
    decreases |parts|
  {
    if parts != [] {
      assert parts == [parts[0]] + parts[1..];
      KeepNonEmptyCount(parts[1..], p);
    }
  }

  /** Parts that are all non-empty are kept as they are. */
  lemma {:induction false} KeepNonEmptyAll(parts: seq<string>)
    requires forall k :: 0 <= k < |parts| ==> parts[k] != ""
    ensures KeepNonEmpty(parts) == parts
    decreases |parts|
  {
    if parts != [] {
      KeepNonEmptyAll(parts[1..]);
    }
  }

  /** `s.splitlines()`: lines end at any line-break character, `"\r\n"` is
      one break, and a final break does not start an empty line. */
  function SplitLines(s: string): (lines: seq<string>)
    ensures forall k :: 0 <= k < |lines| ==> AllChars(lines[k], IsLineChar)
    decreases |s|
  {
    if s == [] then []
    else
      var i := LeadRun(s, IsLineChar);
      var next := if i == |s| then |s|
        else if s[i] == '\r' && i + 1 < |s| && s[i + 1] == '\n' then i + 2
        else i + 1;
      [s[..i]] + SplitLines(s[next..])
  }

  /** `sep.join(parts)`. */
  function Join(parts: seq<string>, sep: string): string {
    if parts == [] then ""
    else if |parts| == 1 then parts[0]
    else parts[0] + sep + Join(parts[1..], sep)
  }

  /** A line without breaks, then a newline: the first line is split off. */
  lemma SplitLinesCons(first: string, rest: string)
    requires AllChars(first, IsLineChar)
    ensures SplitLines(first + "\n" + rest) == [first] + SplitLines(rest)
  {
    var s := first + "\n" + rest;
    assert s == first + ("\n" + rest);
    LeadRunConcat(first, "\n" + rest, IsLineChar);
    assert s[|first|] == '\n';
    assert s[..|first|] == first;
    assert s[|first| + 1..] == rest;
  }

  /** A non-empty line without breaks is one line. */
  lemma SplitLinesOne(line: string)
    requires AllChars(line, IsLineChar) && line != ""
    ensures SplitLines(line) == [line]
  {
    LeadRunConcat(line, "", IsLineChar);
    assert line + "" == line;
    assert line[|line|..] == [];
    assert line[..|line|] == line;
  }

  /** `"\n".join` of lines that hold no line break, the last of them not
      empty, is split back into the same lines. */
  lemma {:induction false} SplitJoinedLines(lines: seq<string>)
    requires forall k :: 0 <= k < |lines| ==> AllChars(lines[k], IsLineChar)
    requires lines != [] ==> lines[|lines| - 1] != ""
    ensures SplitLines(Join(lines, "\n")) == lines
    decreases |lines|
  {
    if |lines| == 1 {
      SplitLinesOne(lines[0]);
    } else if |lines| > 1 {
      SplitJoinedLines(lines[1..]);
      SplitLinesCons(lines[0], Join(lines[1..], "\n"));
      assert lines == [lines[0]] + lines[1..];
    }
  }

  /** The first index of `c` in `s`, or `|s|`. */
  function IndexOf(s: string, c: char): (i: nat)
    ensures i <= |s|
    ensures c !in s[..i]
    ensures i < |s| ==> s[i] == c
  {
    if s == [] || s[0] == c then 0
    else
      var j := IndexOf(s[1..], c);
      assert s[..1 + j] == [s[0]] + s[1..][..j];
      1 + j
  }

  /** `s.split(sep)` for a one-character separator: never empty, and no
      part holds the separator. */
  function SplitOn(s: string, sep: char): (parts: seq<string>)
    ensures |parts| >= 1
    ensures forall k :: 0 <= k < |parts| ==> sep !in parts[k]
    ensures parts[0] == s[..IndexOf(s, sep)]
    decreases |s|
  {
    var i := IndexOf(s, sep);
    if i == |s| then [s] else [s[..i]] + SplitOn(s[i + 1..], sep)
  }

  /** Joining the parts with the separator gives back the string. */
  lemma {:induction false} JoinSplitOn(s: string, sep: char)
    ensures Join(SplitOn(s, sep), [sep]) == s
    decreases |s|
  {
    var i := IndexOf(s, sep);
    if i < |s| {
      var tail := SplitOn(s[i + 1..], sep);
      assert SplitOn(s, sep) == [s[..i]] + tail;
      JoinCons(s[..i], tail, [sep]);
      JoinSplitOn(s[i + 1..], sep);
      SliceAround(s, i);
    }
  }

  /** A string is what stands before position `i`, the character there,
      and what follows. */
  lemma SliceAround(s: string, i: nat)
    requires i < |s|
    ensures s == s[..i] + [s[i]] + s[i + 1..]
  {
  }

  lemma JoinCons(first: string, parts: seq<string>, sep: string)
    requires parts != []
    ensures Join([first] + parts, sep) == first + sep + Join(parts, sep)
  {
    assert ([first] + parts)[1..] == parts;
  }

  /** Splitting parts joined by the separator gives back the parts, when
      no part holds the separator. */
  lemma {:induction false} SplitOnJoin(parts: seq<string>, sep: char)
    requires parts != []
    requires forall k :: 0 <= k < |parts| ==> sep !in parts[k]
    ensures SplitOn(Join(parts, [sep]), sep) == parts
  {
    var s := Join(parts, [sep]);
    var p := parts[0];
    if |parts| == 1 {
      assert s == p;
      IndexOfAbsent(p, sep);
    } else {
      var rest := Join(parts[1..], [sep]);
      assert s == p + [sep] + rest;
      SplitOnCons(p, rest, sep);
      SplitOnJoin(parts[1..], sep);
      assert parts == [p] + parts[1..];
    }
  }

  /** The first part ends at the first separator. */
  lemma SplitOnCons(p: string, rest: string, sep: char)
    requires sep !in p
    ensures SplitOn(p + [sep] + rest, sep) == [p] + SplitOn(rest, sep)
  {
    var s := p + [sep] + rest;
    assert s[..|p|] == p && s[|p|] == sep && s[|p| + 1..] == rest;
    IndexOfFirst(s, p, sep);
  }

  lemma {:induction false} IndexOfAbsent(s: string, c: char)
    requires c !in s
    ensures IndexOf(s, c) == |s|
  {
    if s != [] {
      assert s[0] in s && forall d :: d in s[1..] ==> d in s;
      IndexOfAbsent(s[1..], c);
    }
  }

  /** The first `c` comes right after a prefix that has none. */
  lemma {:induction false} IndexOfFirst(s: string, p: string, c: char)
    requires |p| < |s| && s[..|p|] == p && c !in p && s[|p|] == c
    ensures IndexOf(s, c) == |p|
  {
    if p != [] {
      assert s[0] == p[0] && p[0] in p;
      assert s[1..][..|p| - 1] == p[1..];
      assert forall d :: d in p[1..] ==> d in p;
      IndexOfFirst(s[1..], p[1..], c);
    }
  }

  /** A character that is in no part and not in the separator is not in
      the joined string. */
  lemma {:induction false} JoinLacks(parts: seq<string>, sep: string, c: char)
    requires c !in sep
    requires forall k :: 0 <= k < |parts| ==> c !in parts[k]
    ensures c !in Join(parts, sep)
  {
    if |parts| > 1 {
      JoinLacks(parts[1..], sep, c);
      assert c !in parts[0];
    } else if |parts| == 1 {
      assert c !in parts[0];
    }
  }

  /** The joined string starts with the first part and ends with the last. */
  lemma JoinEnds(parts: seq<string>, sep: string)
    requires parts != [] && parts[0] != [] && parts[|parts| - 1] != []
    ensures var j := Join(parts, sep);
      j != [] && j[0] == parts[0][0] && j[|j| - 1] == parts[|parts| - 1][|parts[|parts| - 1]| - 1]
  {
    JoinLast(parts, sep);
  }

  lemma {:induction false} JoinLast(parts: seq<string>, sep: string)
    requires parts != [] && parts[|parts| - 1] != []
    ensures var j := Join(parts, sep);
      |j| >= |parts[|parts| - 1]| && j[|j| - 1] == parts[|parts| - 1][|parts[|parts| - 1]| - 1]
  {
    if |parts| > 1 {
      JoinLast(parts[1..], sep);
    }
  }

  // ---------------------------------------------------------------------
  // Decimal numerals
  // ---------------------------------------------------------------------

  function Pow10(m: nat): (r: nat)
    ensures r >= 1
  {
    if m == 0 then 1 else 10 * Pow10(m - 1)
  }

  /** `str(n)`. */
  function NatToString(n: nat): (s: string)
    ensures |s| >= 1 && AllChars(s, IsAsciiDigit)
  {
    if n < 10 then [DigitChar(n)]
    else
      var s := NatToString(n / 10) + [DigitChar(n % 10)];
      s
  }

  /** The value of a numeral, most significant digit first. */
  function DigitsValue(s: string): nat
    requires AllChars(s, IsDecimalDigit)
  {
    if s == [] then 0 else DigitsValue(s[..|s| - 1]) * 10 + DigitValue(s[|s| - 1])
  }

  lemma {:induction false} DigitsValueOfNatToString(n: nat)
    ensures DigitsValue(NatToString(n)) == n
  {
    if n >= 10 {
      var s := NatToString(n);
      assert s[..|s| - 1] == NatToString(n / 10);
      DigitsValueOfNatToString(n / 10);
    }
  }

  lemma NatToStringInjective(a: nat, b: nat)
    requires NatToString(a) == NatToString(b)
    ensures a == b
  {
    DigitsValueOfNatToString(a);
    DigitsValueOfNatToString(b);
  }

  /** A number at least `10^m` has more than `m` digits. */
  lemma {:induction false} NatToStringLong(n: nat, m: nat)
    requires n >= Pow10(m)
    ensures |NatToString(n)| > m
  {
    if m > 0 {
      NatToStringLong(n / 10, m - 1);
    }
  }

  // ---------------------------------------------------------------------
  // Case and search
  // ---------------------------------------------------------------------

  function LowerChar(c: char): char {
    if IsAsciiUpper(c) then (c as int + 32) as char else c
  }

  /** `s.lower()` on strings without non-ASCII cased letters. */
  function Lower(s: string): (r: string)
    ensures |r| == |s|
  {
    seq(|s|, k requires 0 <= k < |s| => LowerChar(s[k]))
  }

  lemma LowerConcat(a: string, b: string)
    ensures Lower(a + b) == Lower(a) + Lower(b)
  {
  }

  lemma LowerOfDigits(s: string)
    requires forall c :: c in s ==> IsAsciiDigit(c) || c == '_'
    ensures Lower(s) == s
  {
    forall k | 0 <= k < |s|
      ensures Lower(s)[k] == s[k]
    {
      assert s[k] in s;
    }
  }

  /** The leftmost position `j >= start` at which `p` holds of the rest of
      `s` (what `re.search` reports for a pattern tested at each position). */
  function FirstMatchFrom(s: string, start: nat, p: string -> bool): (r: Option<nat>)
    requires start <= |s|
    ensures r.Some? ==> start <= r.value <= |s| && p(s[r.value..])
    ensures forall j :: start <= j <= |s| && (r.None? || j < r.value) ==> !p(s[j..])
    decreases |s| - start
  {
    if p(s[start..]) then Some(start)
    else if start == |s| then None
    else FirstMatchFrom(s, start + 1, p)
  }

  /** A position where `p` holds, with none before it, is the one found. */
  lemma FirstMatchFromAt(s: string, start: nat, p: string -> bool, i: nat)
    requires start <= i <= |s| && p(s[i..])
    requires forall j :: start <= j < i ==> !p(s[j..])
    ensures FirstMatchFrom(s, start, p) == Some(i)
  {
  }
}
