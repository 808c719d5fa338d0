/**
 Seven of the eight line checks (the key-order check, which keeps state, is in
 `KeyOrder`). Each is a pure function of the line (and, where the check uses
 them, the line number, the context and the foreign routines) returning
 `None` when the line passes.
 */
module Checks {
  import opened Wrappers
  import opened Text
  import opened Indicators
  import opened Results
  import opened Foreign

  // ---------------------------------------------------------------- EmptyLineCheck

  /** A line that is empty once stripped is reported over `[0, 1)` and ends
      the line. */
  function EmptyLineCheck(line: string): (r: Option<Result>)
    ensures r.Some? <==> AllSpace(line)
    ensures r.Some? ==> && r.value.exitRule == EXIT_CURRENT_LINE
                        && r.value.indicators == [Indicator(0, 1)]
                        && r.value.suggestion == Some("#")
  {
    if |Strip(line)| == 0 then
      Some(Sir(0, 1, "empty lines are not allowed. use comments for separation", Some("#"))
           .WithExitRule(EXIT_CURRENT_LINE))
    else None
  }

  // ---------------------------------------------------------------- WhiteSpaceCommentCheck

  /** A `#` that is the first non-whitespace character but not the first
      character: the whitespace before it is reported, the stripped line is
      suggested, and the line ends. */
  function WhiteSpaceCommentCheck(line: string): (r: Option<Result>)
    ensures var k := Leading(line, Whitespace);
            r.Some? <==> 0 < k < |line| && line[k] == '#'
    ensures r.Some? ==> && r.value.exitRule == EXIT_CURRENT_LINE
                        && r.value.indicators == [Indicator(0, Leading(line, Whitespace))]
                        && r.value.suggestion == Some(Strip(line))
  {
    var stripped := Strip(line);
    CommentAfterSpace(line);
    if StartsWith(stripped, "#") && !StartsWith(line, "#") then
      Some(Sirt(IndexOf(line, '#'), "white space before comment not allowed", Some(stripped))
           .WithExitRule(EXIT_CURRENT_LINE))
    else None
  }

  /** The stripped line starts a comment exactly when the first character
      after the leading whitespace is `#`, which is then the first `#`. */
  lemma CommentAfterSpace(line: string)
    ensures var k := Leading(line, Whitespace);
            && (StartsWith(Strip(line), "#") <==> k < |line| && line[k] == '#')
            && (StartsWith(line, "#") <==> 0 < |line| && line[0] == '#')
            && (k < |line| && line[k] == '#' ==> IndexOf(line, '#') == k)
  {
    var k := Leading(line, Whitespace);
    var r := Strip(line);
    StartsWithHash(r);
    StartsWithHash(line);
    if |r| > 0 {
      assert r[0] == line[k];
    }
    if k < |line| && line[k] == '#' {
      IndexOfAt(line, '#', k);
    }
  }

  lemma StartsWithHash(s: string)
    ensures StartsWith(s, "#") <==> 0 < |s| && s[0] == '#'
  {
    if 0 < |s| {
      assert s[..1] == [s[0]];
    }
  }

  // ---------------------------------------------------------------- WhiteSpaceCheck

  /** End of the whitespace run that starts at `from`: how far the greedy
      `\s` repetition reaches. */
  function RunEnd(s: string, from: nat): (e: nat)
    requires from <= |s|
    ensures from <= e <= |s|
    ensures forall p :: from <= p < e ==> IsSpace(s[p])
    ensures e < |s| ==> !IsSpace(s[e])
    ensures from < |s| && IsSpace(s[from]) ==> from < e
    decreases |s| - from
  {
    if from == |s| || !IsSpace(s[from]) then from else RunEnd(s, from + 1)
  }

  /** The spans `finditer(r"\s{2,}", s)` yields from position `from` on:
      each whitespace run, reported when it has at least two characters.
      `DoubleSpaceRunsShape`, `DoubleSpaceRunsSorted` and
      `DoubleSpaceRunsCover` state what they are. */
  function DoubleSpaceRuns(s: string, from: nat): seq<Indicator>
    requires from <= |s|
    decreases |s| - from
  {
    if from == |s| then []
    else if !IsSpace(s[from]) then DoubleSpaceRuns(s, from + 1)
    else
      var e := RunEnd(s, from);
      (if e - from >= 2 then [Indicator(from, e)] else []) + DoubleSpaceRuns(s, e)
  }

  /** `[a, b)` is a maximal run of at least two whitespace characters of `s`
      that starts at or after `from`. */
  predicate MaximalRun(s: string, from: nat, a: int, b: int) {
    && from <= a && a + 2 <= b <= |s|
    && (forall p :: a <= p < b ==> IsSpace(s[p]))
    && (b == |s| || !IsSpace(s[b]))
    && (a == from || !IsSpace(s[a - 1]))
  }

  /** Every reported span is a maximal run of two or more whitespace characters. */
  lemma {:induction false} DoubleSpaceRunsShape(s: string, from: nat)
    requires from <= |s|
    ensures forall k :: 0 <= k < |DoubleSpaceRuns(s, from)| ==>
              MaximalRun(s, from, DoubleSpaceRuns(s, from)[k].start, DoubleSpaceRuns(s, from)[k].end)
    decreases |s| - from
  {
    if from < |s| {
      if !IsSpace(s[from]) {
        DoubleSpaceRunsShape(s, from + 1);
      } else {
        var e := RunEnd(s, from);
        DoubleSpaceRunsShape(s, e);
        var head: seq<Indicator> := if e - from >= 2 then [Indicator(from, e)] else [];
        var rest := DoubleSpaceRuns(s, e);
        assert DoubleSpaceRuns(s, from) == head + rest;
        forall k | 0 <= k < |head + rest|
          ensures MaximalRun(s, from, (head + rest)[k].start, (head + rest)[k].end)
        {
          if k >= |head| {
            var r := rest[k - |head|];
            assert MaximalRun(s, e, r.start, r.end);
            assert IsSpace(s[r.start]);
          }
        }
      }
    }
  }

  /** The reported spans are disjoint, separated, and in increasing order. */
  lemma {:induction false} DoubleSpaceRunsSorted(s: string, from: nat)
    requires from <= |s|
    ensures forall k, l :: 0 <= k < l < |DoubleSpaceRuns(s, from)| ==>
              DoubleSpaceRuns(s, from)[k].end < DoubleSpaceRuns(s, from)[l].start
    decreases |s| - from
  {
    if from < |s| {
      if !IsSpace(s[from]) {
        DoubleSpaceRunsSorted(s, from + 1);
      } else {
        var e := RunEnd(s, from);
        DoubleSpaceRunsSorted(s, e);
        DoubleSpaceRunsShape(s, e);
        var head: seq<Indicator> := if e - from >= 2 then [Indicator(from, e)] else [];
        assert DoubleSpaceRuns(s, from) == head + DoubleSpaceRuns(s, e);
        RunsSortedPrepend(s, e, head, DoubleSpaceRuns(s, e));
      }
    }
  }

  /** A span that ends where a whitespace run ends, put before the runs
      found after it, keeps them in increasing order. */
  lemma RunsSortedPrepend(s: string, e: nat, head: seq<Indicator>, rest: seq<Indicator>)
    requires e <= |s| && (e < |s| ==> !IsSpace(s[e]))
    requires |head| <= 1 && (|head| == 1 ==> head[0].end == e)
    requires forall k :: 0 <= k < |rest| ==> MaximalRun(s, e, rest[k].start, rest[k].end)
    requires forall k, l :: 0 <= k < l < |rest| ==> rest[k].end < rest[l].start
    ensures forall k, l :: 0 <= k < l < |head + rest| ==> (head + rest)[k].end < (head + rest)[l].start
  {
    forall k, l | 0 <= k < l < |head + rest|
      ensures (head + rest)[k].end < (head + rest)[l].start
    {
      if k < |head| {
        var r := rest[l - 1];
        assert MaximalRun(s, e, r.start, r.end);
        assert IsSpace(s[r.start]);
      } else {
        assert (head + rest)[k] == rest[k - |head|];
        assert (head + rest)[l] == rest[l - |head|];
      }
    }
  }

  /** `p` belongs to a run of at least two whitespace characters that starts
      at or after `from`. */
  predicate InLongRun(s: string, from: nat, p: int) {
    && from <= p < |s| && IsSpace(s[p])
    && ((p + 1 < |s| && IsSpace(s[p + 1])) || (from < p && IsSpace(s[p - 1])))
  }

  /** Every whitespace character with a whitespace neighbour is reported. */
  lemma {:induction false} DoubleSpaceRunsCover(s: string, from: nat, p: int)
    requires from <= |s|
    requires InLongRun(s, from, p)
    ensures Covered(DoubleSpaceRuns(s, from), p)
    decreases |s| - from
  {
    if !IsSpace(s[from]) {
      assert InLongRun(s, from + 1, p);
      DoubleSpaceRunsCover(s, from + 1, p);
    } else {
      var e := RunEnd(s, from);
      var head: seq<Indicator> := if e - from >= 2 then [Indicator(from, e)] else [];
      var rest := DoubleSpaceRuns(s, e);
      assert DoubleSpaceRuns(s, from) == head + rest;
      if p < e {
        assert e - from >= 2;
        assert (head + rest)[0] == Indicator(from, e);
      } else {
        assert InLongRun(s, e, p);
        DoubleSpaceRunsCover(s, e, p);
        var k :| 0 <= k < |rest| && rest[k].start <= p < rest[k].end;
        assert (head + rest)[|head| + k] == rest[k];
      }
    }
  }

  /** `WhiteSpaceCheck.check`: leading whitespace, then trailing whitespace,
      then a strip mismatch, then runs of two or more whitespace characters;
      the first that applies is reported, and checking goes on. Which test
      fires when is stated by `WhiteSpaceCheckLeading`,
      `WhiteSpaceCheckTrailing` and `WhiteSpaceCheckRuns`. */
  function WhiteSpaceCheck(line: string): (r: Option<Result>)
    ensures r.Some? ==> r.value.exitRule == EXIT_DEFAULT
  {
    var lead := Leading(line, Whitespace);
    if lead > 0 then
      Some(Sirt(lead, "lines cannot start with spaces", Some(LStripBlanks(line))))
    else
      var trail := Trailing(line, Whitespace);
      if trail > 0 then
        Some(Sirf(|line| - trail, "lines cannot end with spaces", Some(RStripBlanks(line))))
      else if Strip(line) != line then
        Some(Sirf(0, "lines cannot start or end with whitespace", Some(Strip(line))))
      else
        var runs := DoubleSpaceRuns(line, 0);
        if |runs| > 0 then
          Some(Mir(runs, "lines cannot contain double spaces", Some(SquashDoubleSpaces(line))))
        else None
  }

  /** A line with neither leading nor trailing whitespace is its own strip,
      so the third test of `WhiteSpaceCheck` never fires. */
  lemma StripMismatchUnreachable(line: string)
    requires Leading(line, Whitespace) == 0 && Trailing(line, Whitespace) == 0
    ensures Strip(line) == line
  {
  }

  /** Two adjacent whitespace characters somewhere in the line. */
  predicate HasWhitespacePair(s: string) {
    exists i :: 0 <= i < |s| - 1 && IsSpace(s[i]) && IsSpace(s[i + 1])
  }

  /** The double-whitespace test fires exactly on lines with two adjacent
      whitespace characters. */
  lemma DoubleSpaceRunsNonEmpty(line: string)
    ensures |DoubleSpaceRuns(line, 0)| > 0 <==> HasWhitespacePair(line)
  {
    var runs := DoubleSpaceRuns(line, 0);
    if HasWhitespacePair(line) {
      var i :| 0 <= i < |line| - 1 && IsSpace(line[i]) && IsSpace(line[i + 1]);
      DoubleSpaceRunsCover(line, 0, i);
    }
    if |runs| > 0 {
      DoubleSpaceRunsShape(line, 0);
      assert MaximalRun(line, 0, runs[0].start, runs[0].end);
      assert IsSpace(line[runs[0].start]) && IsSpace(line[runs[0].start + 1]);
    }
  }

  /** Leading whitespace wins: it is reported as `[0, k)`, with the
      line's leading blanks removed as the suggestion. */
  lemma WhiteSpaceCheckLeading(line: string)
    requires Leading(line, Whitespace) > 0
    ensures WhiteSpaceCheck(line) == Some(Result(EXIT_DEFAULT, [Indicator(0, Leading(line, Whitespace))],
              "lines cannot start with spaces", Some(LStripBlanks(line))))
  {
  }

  /** Without leading whitespace, trailing whitespace is reported as
      `[|line| - k, |line|)` once resolved, with the trailing blanks removed
      as the suggestion. */
  lemma WhiteSpaceCheckTrailing(line: string)
    requires Leading(line, Whitespace) == 0 && Trailing(line, Whitespace) > 0
    ensures WhiteSpaceCheck(line).Some?
    ensures WhiteSpaceCheck(line).value.exitRule == EXIT_DEFAULT
    ensures WhiteSpaceCheck(line).value.Update(line).indicators
              == [Indicator(|line| - Trailing(line, Whitespace), |line|)]
    ensures WhiteSpaceCheck(line).value.suggestion == Some(RStripBlanks(line))
  {
    var trail := Trailing(line, Whitespace);
    var r := Sirf(|line| - trail, "lines cannot end with spaces", Some(RStripBlanks(line)));
    assert WhiteSpaceCheck(line) == Some(r);
    assert r.indicators == [Indicator(|line| - trail, TO_END)];
    assert Fix(r.indicators[0], line) == Indicator(|line| - trail, |line|);
  }

  /** On a line with whitespace at neither end, the check fires exactly when
      two whitespace characters are adjacent, with one indicator per maximal
      run and a suggestion free of double blanks. */
  lemma WhiteSpaceCheckRuns(line: string)
    requires Leading(line, Whitespace) == 0 && Trailing(line, Whitespace) == 0
    ensures WhiteSpaceCheck(line).Some? <==> HasWhitespacePair(line)
    ensures WhiteSpaceCheck(line).Some? ==>
              && WhiteSpaceCheck(line).value.indicators == DoubleSpaceRuns(line, 0)
              && WhiteSpaceCheck(line).value.exitRule == EXIT_DEFAULT
              && WhiteSpaceCheck(line).value.suggestion == Some(SquashDoubleSpaces(line))
              && !HasDoubleSpace(SquashDoubleSpaces(line))
  {
    StripMismatchUnreachable(line);
    DoubleSpaceRunsNonEmpty(line);
  }

  /** Applying the double-blank suggestion fixes the line: when the only
      whitespace in a line is blanks, none of them at either end, the
      suggested line passes `WhiteSpaceCheck`. */
  lemma {:induction false} SquashSuggestionPasses(line: string)
    requires forall i :: 0 <= i < |line| && IsSpace(line[i]) ==> line[i] == ' '
    requires Leading(line, Whitespace) == 0 && Trailing(line, Whitespace) == 0
    ensures WhiteSpaceCheck(SquashDoubleSpaces(line)) == None
  {
    var s := SquashDoubleSpaces(line);
    SquashKeepsEnds(line);
    forall i | 0 <= i < |s| && IsSpace(s[i])
      ensures s[i] == ' '
    {
      assert s[i] in s;
    }
    if |s| > 0 {
      assert Leading(s, Whitespace) == 0;
      assert Trailing(s, Whitespace) == 0;
    }
    assert !HasWhitespacePair(s);
    WhiteSpaceCheckRuns(s);
  }

  /** Collapsing double blanks keeps a non-blank first and last character. */
  lemma {:induction false} SquashKeepsEnds(s: string)
    ensures |SquashDoubleSpaces(s)| > 0 <==> |s| > 0
    ensures |s| > 0 && s[0] != ' ' ==> SquashDoubleSpaces(s)[0] == s[0]
    ensures |s| > 0 && s[|s| - 1] != ' ' ==>
              SquashDoubleSpaces(s)[|SquashDoubleSpaces(s)| - 1] == s[|s| - 1]
    decreases |s|
  {
    if HasDoubleSpace(s) {
      var r := ReplaceDoubleSpace(s);
      ReplaceKeepsEnds(s);
      SquashKeepsEnds(r);
      SquashUnfold(s);
    } else {
      assert SquashDoubleSpaces(s) == s;
    }
  }

  /** A string with a double blank is squashed by squashing its replacement. */
  lemma SquashUnfold(s: string)
    requires HasDoubleSpace(s)
    ensures SquashDoubleSpaces(s) == SquashDoubleSpaces(ReplaceDoubleSpace(s))
  {
  }

  lemma ReplaceKeepsEnds(s: string)
    ensures |ReplaceDoubleSpace(s)| > 0 <==> |s| > 0
    ensures |s| > 0 && s[0] != ' ' ==> ReplaceDoubleSpace(s)[0] == s[0]
    ensures |s| > 0 && s[|s| - 1] != ' ' ==>
              ReplaceDoubleSpace(s)[|ReplaceDoubleSpace(s)| - 1] == s[|s| - 1]
  {
    ReplaceKeepsFirst(s);
    ReplaceKeepsLast(s);
  }

  lemma ReplaceKeepsFirst(s: string)
    ensures |ReplaceDoubleSpace(s)| > 0 <==> |s| > 0
    ensures |s| > 0 && s[0] != ' ' ==> ReplaceDoubleSpace(s)[0] == s[0]
  {
    if |s| >= 2 && s[0] == ' ' && s[1] == ' ' {
      assert ReplaceDoubleSpace(s) == " " + ReplaceDoubleSpace(s[2..]);
    } else if |s| > 0 {
      assert ReplaceDoubleSpace(s) == [s[0]] + ReplaceDoubleSpace(s[1..]);
    }
  }

  lemma {:induction false} ReplaceKeepsLast(s: string)
    ensures |s| > 0 && s[|s| - 1] != ' ' ==>
              |ReplaceDoubleSpace(s)| > 0 && ReplaceDoubleSpace(s)[|ReplaceDoubleSpace(s)| - 1] == s[|s| - 1]
    decreases |s|
  {
    if |s| >= 2 && s[0] == ' ' && s[1] == ' ' {
      var t := s[2..];
      ReplaceKeepsLast(t);
      assert ReplaceDoubleSpace(s) == " " + ReplaceDoubleSpace(t);
      if |t| > 0 {
        assert s[|s| - 1] == t[|t| - 1];
      }
    } else if |s| > 0 {
      var t := s[1..];
      ReplaceKeepsLast(t);
      assert ReplaceDoubleSpace(s) == [s[0]] + ReplaceDoubleSpace(t);
      if |t| > 0 {
        assert s[|s| - 1] == t[|t| - 1];
      }
    }
  }

  // ---------------------------------------------------------------- DescriptorCheck

  const HEADER_SIGNALS: string := "Filetype: IR signals file"
  const HEADER_LIBRARY: string := "Filetype: IR library file"

  /** `t` is one or more characters satisfying `digit`-ness, optionally
      followed by one final newline: how `\d+$` ends a match. */
  predicate DigitsToEnd(t: string) {
    || (|t| >= 1 && forall i :: 0 <= i < |t| ==> IsDigit(t[i]))
    || (|t| >= 2 && t[|t| - 1] == '\n' && forall i :: 0 <= i < |t| - 1 ==> IsDigit(t[i]))
  }

  /** `re.match(r"^Version:\s\d+$", line)` */
  predicate VersionLine(line: string) {
    |line| >= 9 && line[..8] == "Version:" && IsSpace(line[8]) && DigitsToEnd(line[9..])
  }

  /** Line 1 must be one of the two header literals and line 2 must read
      `Version: <digits>`; a violation is reported over the whole line with a
      replacement line as suggestion, and checking goes on. */
  function DescriptorCheck(lnr: int, line: string): (r: Option<Result>)
    ensures r.Some? <==> || (lnr == 1 && line != HEADER_SIGNALS && line != HEADER_LIBRARY)
                         || (lnr == 2 && !VersionLine(line))
    ensures r.Some? ==> && r.value.exitRule == EXIT_DEFAULT
                        && r.value.Update(line).indicators == [Indicator(0, |line|)]
                        && r.value.suggestion == Some(if lnr == 1 then HEADER_SIGNALS else "Version: 1")
  {
    if lnr == 1 && line != HEADER_SIGNALS && line != HEADER_LIBRARY then
      Some(Sirf(0, "first line must contain 'Filetype: IR signals file'", Some(HEADER_SIGNALS)))
    else if lnr == 2 && !VersionLine(line) then
      Some(Sirf(0, "second line must contain 'Version: \\d'", Some("Version: 1")))
    else None
  }

  /** A few lines the version pattern accepts and rejects. */
  lemma VersionLineExamples()
    ensures VersionLine("Version: 1") && VersionLine("Version:\t42")
    ensures !VersionLine("Version:1") && !VersionLine("Version: 1a") && !VersionLine("Version: ")
  {
    assert "Version:1"[8] == '1';
    assert "Version: 1a"[9..] == "1a";
    assert "Version: 1a"[9..][1] == 'a';
    assert "Version: "[9..] == "";
  }

  // ---------------------------------------------------------------- per-character reports

  /** The three per-character rules: digits in a `data` value, hexadecimal
      digits in an `address`/`command` value, and printable ASCII in any line. */
  datatype CharRule = DataValue | HexValue | PrintableAscii

  /** The character at `p` of `s` breaks `rule`. */
  predicate Flagged(rule: CharRule, s: string, p: int) {
    && 0 <= p < |s|
    && match rule
       case DataValue => !DataCharAllowed(s, p)
       case HexValue => !HexCharAllowed(s, p)
       case PrintableAscii => !AsciiAllowed(s[p])
  }

  /** `marks` are width-one indicators, one at each `p >= lo` at which `s`
      breaks `rule` and at no other position, in increasing order: the shape
      of every per-character report. */
  ghost predicate FlagsExactly(marks: seq<Indicator>, lo: int, rule: CharRule, s: string) {
    && (forall k :: 0 <= k < |marks| ==>
          && marks[k].end == marks[k].start + 1
          && lo <= marks[k].start
          && Flagged(rule, s, marks[k].start))
    && (forall k, l :: 0 <= k < l < |marks| ==> marks[k].start < marks[l].start)
    && (forall p :: lo <= p && Flagged(rule, s, p) ==>
          exists k :: 0 <= k < |marks| && marks[k].start == p)
  }

  /** The indicators moved `offset` columns to the left: positions in the
      value rather than in the line. */
  function Unshift(marks: seq<Indicator>, offset: int): (r: seq<Indicator>)
    ensures |r| == |marks|
    ensures forall k :: 0 <= k < |marks| ==>
              r[k] == Indicator(marks[k].start - offset, marks[k].end - offset)
  {
    if |marks| == 0 then []
    else [Indicator(marks[0].start - offset, marks[0].end - offset)] + Unshift(marks[1..], offset)
  }

  /** Nothing is flagged past the end. */
  lemma FlagsEnd(rule: CharRule, s: string)
    ensures FlagsExactly([], |s|, rule, s)
  {
  }

  /** Position `lo` is not flagged: the marks from `lo + 1` on are the marks
      from `lo` on. */
  lemma FlagsSkip(marks: seq<Indicator>, lo: int, rule: CharRule, s: string)
    requires FlagsExactly(marks, lo + 1, rule, s)
    requires !Flagged(rule, s, lo)
    ensures FlagsExactly(marks, lo, rule, s)
  {
  }

  /** Position `lo` is flagged: its mark goes in front. */
  lemma FlagsCons(marks: seq<Indicator>, lo: int, rule: CharRule, s: string)
    requires FlagsExactly(marks, lo + 1, rule, s)
    requires Flagged(rule, s, lo)
    ensures FlagsExactly([Indicator(lo, lo + 1)] + marks, lo, rule, s)
  {
    var all := [Indicator(lo, lo + 1)] + marks;
    forall p | lo <= p && Flagged(rule, s, p)
      ensures exists k :: 0 <= k < |all| && all[k].start == p
    {
      if p == lo {
        assert all[0].start == p;
      } else {
        var k :| 0 <= k < |marks| && marks[k].start == p;
        assert all[k + 1] == marks[k];
      }
    }
  }

  /** `FlagsCons` for indicators placed `offset` columns into the line. */
  lemma FlagsConsAt(marks: seq<Indicator>, offset: int, lo: int, rule: CharRule, s: string)
    requires FlagsExactly(Unshift(marks, offset), lo + 1, rule, s)
    requires Flagged(rule, s, lo)
    ensures FlagsExactly(Unshift([Indicator(offset + lo, offset + lo + 1)] + marks, offset), lo, rule, s)
  {
    FlagsCons(Unshift(marks, offset), lo, rule, s);
    var all := [Indicator(offset + lo, offset + lo + 1)] + marks;
    var u := Unshift(all, offset);
    var v := [Indicator(lo, lo + 1)] + Unshift(marks, offset);
    forall k | 0 <= k < |u|
      ensures u[k] == v[k]
    {
      if k > 0 {
        assert all[k] == marks[k - 1];
      }
    }
    assert u == v;
  }

  /** There are marks exactly when something from `lo` on is flagged. */
  lemma FlagsNonEmpty(marks: seq<Indicator>, lo: int, rule: CharRule, s: string)
    requires FlagsExactly(marks, lo, rule, s)
    ensures |marks| > 0 <==> exists p :: lo <= p && Flagged(rule, s, p)
  {
    if |marks| > 0 {
      assert Flagged(rule, s, marks[0].start);
    }
  }

  // ---------------------------------------------------------------- NonASCIICheck

  /** The characters `[\x20-\x7E\xB0\x09]` lets through. */
  predicate AsciiAllowed(c: char) {
    (0x20 <= c as int <= 0x7E) || c as int == 0xB0 || c as int == 0x09
  }

  /** `finditer` over the disallowed characters from `i` on. */
  function NonAsciiMarks(line: string, i: nat): (marks: seq<Indicator>)
    requires i <= |line|
    ensures FlagsExactly(marks, i, PrintableAscii, line)
    decreases |line| - i
  {
    if i == |line| then
      FlagsEnd(PrintableAscii, line);
      []
    else
      var rest := NonAsciiMarks(line, i + 1);
      if AsciiAllowed(line[i]) then
        FlagsSkip(rest, i, PrintableAscii, line);
        rest
      else
        FlagsCons(rest, i, PrintableAscii, line);
        [Indicator(i, i + 1)] + rest
  }

  /** `''.join(pattern.split(line))`: the line with every disallowed
      character removed, the allowed ones kept in order. */
  function KeepAllowed(line: string): (r: string)
    ensures |r| <= |line|
    ensures forall c :: c in r ==> c in line && AsciiAllowed(c)
    ensures forall c :: c in line && AsciiAllowed(c) ==> c in r
    ensures (forall i :: 0 <= i < |line| ==> AsciiAllowed(line[i])) ==> r == line
  {
    if |line| == 0 then ""
    else
      var tail := KeepAllowed(line[1..]);
      assert forall c :: c in line ==> c == line[0] || c in line[1..];
      (if AsciiAllowed(line[0]) then [line[0]] else []) + tail
  }

  /** Filtering a concatenation filters each part in turn. With
      `KeepAllowedChar` this fixes the result completely, order and
      repeated characters included. */
  lemma {:induction false} KeepAllowedAppend(a: string, b: string)
    ensures KeepAllowed(a + b) == KeepAllowed(a) + KeepAllowed(b)
    decreases |a|
  {
    if |a| == 0 {
      assert a + b == b;
    } else {
      assert (a + b)[0] == a[0] && (a + b)[1..] == a[1..] + b;
      KeepAllowedAppend(a[1..], b);
    }
  }

  /** One character is kept exactly when it is allowed. */
  lemma KeepAllowedChar(c: char)
    ensures KeepAllowed([c]) == if AsciiAllowed(c) then [c] else []
  {
    assert [c][1..] == [];
  }

  /** Every character outside printable ASCII, the degree sign and tab is
      flagged; the suggestion drops them all and collapses each run of
      blanks to one; the line ends. */
  function NonAsciiCheck(line: string): (r: Option<Result>)
    ensures r.Some? <==> exists p :: 0 <= p < |line| && !AsciiAllowed(line[p])
    ensures r.Some? ==>
              && r.value.exitRule == EXIT_CURRENT_LINE
              && FlagsExactly(r.value.indicators, 0, PrintableAscii, line)
              && r.value.suggestion == Some(CollapseBlanks(KeepAllowed(line)))
              && (forall c :: c in r.value.suggestion.value ==> AsciiAllowed(c))
              && !HasDoubleSpace(r.value.suggestion.value)
              && Blankless(r.value.suggestion.value) == Blankless(KeepAllowed(line))
  {
    var marks := NonAsciiMarks(line, 0);
    FlagsNonEmpty(marks, 0, PrintableAscii, line);
    assert (exists p :: 0 <= p < |line| && !AsciiAllowed(line[p])) ==> |marks| > 0 by {
      if exists p :: 0 <= p < |line| && !AsciiAllowed(line[p]) {
        var p :| 0 <= p < |line| && !AsciiAllowed(line[p]);
        assert Flagged(PrintableAscii, line, p);
      }
    }
    if |marks| > 0 then
      Some(Mir(marks, "non-ASCII character/s found", Some(SquashDoubleSpaces(KeepAllowed(line))))
           .WithExitRule(EXIT_CURRENT_LINE))
    else
      None
  }

  /** The suggested line contains nothing the check objects to. */
  lemma NonAsciiSuggestionPasses(line: string)
    requires NonAsciiCheck(line).Some?
    ensures NonAsciiCheck(NonAsciiCheck(line).value.suggestion.value) == None
  {
    var s := NonAsciiCheck(line).value.suggestion.value;
    forall p | 0 <= p < |s|
      ensures AsciiAllowed(s[p])
    {
      assert s[p] in s;
    }
  }

  // ---------------------------------------------------------------- KeyValueValidityCheck

  /** Every key the key-value check accepts: the header keys and the keys of
      parsed and raw signals. */
  const VALID_KEYS: seq<string> :=
    ["Filetype", "Version", "name", "type", "protocol", "address", "command",
     "frequency", "duty_cycle", "data"]

  /** A character of the class `[A-Za-z-_]`. */
  predicate IsKeyChar(c: char) {
    'A' <= c <= 'Z' || 'a' <= c <= 'z' || c == '-' || c == '_'
  }

  /** `t` is one or more characters other than a newline, optionally followed
      by one final newline: how `.+$` ends a match. */
  predicate RestToEnd(t: string) {
    || (|t| >= 1 && '\n' !in t)
    || (|t| >= 2 && t[|t| - 1] == '\n' && '\n' !in t[..|t| - 1])
  }

  /** `re.match(r"^([A-Za-z-_]+):\s.+$", line)`. The key class excludes `:`,
      so the key ends at the first colon. */
  predicate KeyValueShape(line: string) {
    var c := IndexOf(line, ':');
    && 1 <= c && c + 1 < |line|
    && (forall i :: 0 <= i < c ==> IsKeyChar(line[i]))
    && IsSpace(line[c + 1])
    && RestToEnd(line[c + 2..])
  }

  /** Every test of the key-value check passes. */
  predicate ValidKeyValue(line: string) {
    var c := IndexOf(line, ':');
    c + 1 < |line| && line[c + 1] == ' ' && KeyValueShape(line) && line[..c] in VALID_KEYS
  }

  /** The report for a colon not followed by a blank: the colon is flagged,
      and the suggestion is the line with a blank inserted after its first
      colon, so that deleting that blank gives the line back. */
  function MissingBlankResult(line: string, colon: nat): (r: Result)
    requires colon < |line| && colon == IndexOf(line, ':')
    ensures r.exitRule == EXIT_DEFAULT && r.indicators == [Indicator(colon, colon + 1)]
    ensures r.suggestion.Some?
    ensures var t := r.suggestion.value;
            && |t| == |line| + 1 && IndexOf(t, ':') == colon && t[colon + 1] == ' '
            && t[..colon + 1] + t[colon + 2..] == line
  {
    var t := line[..colon + 1] + " " + line[colon + 1..];
    BlankInserted(line, colon);
    Sir(colon, colon + 1, "space missing after ':'", Some(t))
  }

  /** A blank put after the first colon leaves that colon the first one,
      and taking it out again gives the line back. */
  lemma BlankInserted(line: string, colon: nat)
    requires colon < |line| && colon == IndexOf(line, ':')
    ensures var t := line[..colon + 1] + " " + line[colon + 1..];
            && |t| == |line| + 1 && IndexOf(t, ':') == colon && t[colon + 1] == ' '
            && t[..colon + 1] + t[colon + 2..] == line
  {
    var t := line[..colon + 1] + " " + line[colon + 1..];
    assert forall j :: 0 <= j <= colon ==> t[j] == line[j];
    IndexOfAt(t, ':', colon);
    assert t[..colon + 1] == line[..colon + 1];
    assert t[colon + 2..] == line[colon + 1..];
  }

  /** The tests after the blank: the overall pattern, then the key. */
  function KeyResult(env: Env, ctx: Context, line: string, colon: nat): (out: (Context, Option<Result>))
    requires colon < |line|
    ensures out.0.results == ctx.results
    ensures out.1.Some? ==> out.0 == ctx && out.1.value.exitRule != EXIT_CURRENT_CHECK_FOR_ALL_LINES
    ensures out.1.Some? ==> out.1.value.exitRule != EXIT_ALL_LINES
  {
    var valueStart := colon + 1;
    if !KeyValueShape(line) then
      (ctx, Some(Sirf(0, "key-value pattern does not match expression '^([A-Za-z-_]+):\\s.+$'", None)))
    else
      var key := line[..colon];
      if key !in VALID_KEYS then
        var similar := env.closeMatch(key, VALID_KEYS);
        var suggestion := if similar.Some? then Some(similar.value + ":" + line[valueStart..]) else None;
        (ctx, Some(Sirt(|key|, "key '" + key + "' unknown", suggestion).WithExitRule(EXIT_NONE)))
      else
        (ctx.SetLastKey(key), None)
  }

  /** The check's verdict reads only the line: the context merely records
      the key. */
  lemma KeyValueVerdictOwnLine(env: Env, c1: Context, c2: Context, line: string)
    ensures KeyValueValidityCheck(env, c1, line).1 == KeyValueValidityCheck(env, c2, line).1
  {
  }

  /** `KeyValueValidityCheck.check`. On success the key is recorded as the
      context's last key; otherwise the context is unchanged. */
  function KeyValueValidityCheck(env: Env, ctx: Context, line: string): (out: (Context, Option<Result>))
    ensures out.0.results == ctx.results
    ensures out.1.Some? ==> out.0 == ctx
    ensures out.1.Some? ==> out.1.value.exitRule != EXIT_CURRENT_CHECK_FOR_ALL_LINES
    ensures out.1.Some? ==> out.1.value.exitRule != EXIT_ALL_LINES
  {
    var colon := IndexOf(line, ':');
    if colon == |line| then
      (ctx, Some(Sirf(0, "line is no key-value pair. 'key: value' expected", None)
                 .WithExitRule(EXIT_CURRENT_LINE)))
    else if !(colon + 1 < |line| && line[colon + 1] == ' ') then
      // `line[value_start_index:].startswith(' ')` failed
      (ctx, Some(MissingBlankResult(line, colon)))
    else
      KeyResult(env, ctx, line, colon)
  }

  /** The key-value check passes exactly when every test passes. */
  lemma KeyValueOutcome(env: Env, ctx: Context, line: string)
    ensures KeyValueValidityCheck(env, ctx, line).1.None? <==> ValidKeyValue(line)
  {
  }

  /** The context's last key changes only on success, to the line's key. */
  lemma KeyValueRecordsKey(env: Env, ctx: Context, line: string)
    ensures KeyValueValidityCheck(env, ctx, line).0 ==
              if KeyValueValidityCheck(env, ctx, line).1.None?
              then ctx.SetLastKey(line[..IndexOf(line, ':')]) else ctx
  {
  }

  /** The key-value check ends the line exactly when there is no colon, and
      then the whole line is reported. */
  lemma KeyValueNoColon(env: Env, ctx: Context, line: string)
    ensures var r := KeyValueValidityCheck(env, ctx, line).1;
            r.Some? && r.value.exitRule == EXIT_CURRENT_LINE <==> ':' !in line
    ensures ':' !in line ==>
              KeyValueValidityCheck(env, ctx, line).1.value.Update(line).indicators == [Indicator(0, |line|)]
  {
  }

  /** A colon not followed by a blank gets the `MissingBlankResult` report. */
  lemma KeyValueMissingBlank(env: Env, ctx: Context, line: string)
    requires ':' in line
    requires var i := IndexOf(line, ':'); i + 1 == |line| || line[i + 1] != ' '
    ensures KeyValueValidityCheck(env, ctx, line).1 == Some(MissingBlankResult(line, IndexOf(line, ':')))
  {
    var colon := IndexOf(line, ':');
    assert colon < |line|;
    assert !(colon + 1 < |line| && line[colon + 1] == ' ');
  }

  /** A well-formed pair with an unknown key is flagged over the key, does
      not end the line, and any suggestion swaps in a recognised key. */
  lemma KeyValueUnknownKey(env: Env, ctx: Context, line: string)
    requires KeyValueShape(line)
    requires var i := IndexOf(line, ':'); line[i + 1] == ' ' && line[..i] !in VALID_KEYS
    ensures var i := IndexOf(line, ':');
            var r := KeyValueValidityCheck(env, ctx, line).1;
            && r.Some? && r.value.exitRule == EXIT_NONE
            && r.value.indicators == [Indicator(0, i)]
            && (r.value.suggestion.Some? ==>
                  exists k :: k in VALID_KEYS && r.value.suggestion.value == k + ":" + line[i + 1..])
  {
    var i := IndexOf(line, ':');
    var similar := env.closeMatch(line[..i], VALID_KEYS);
    if similar.Some? {
      assert similar.value in VALID_KEYS;
    }
  }

  // ---------------------------------------------------------------- DataValidityCheck

  const PROTOCOLS: seq<string> :=
    ["RC6", "RC5", "RC5X", "NEC", "NECext", "NEC42", "NEC42ext", "SIRC", "SIRC15", "SIRC20",
     "Samsung32"]

  /** In a `data` value, the character at `p` is allowed: a blank, a digit,
      or a `-` that starts a token. */
  predicate DataCharAllowed(value: string, p: int)
    requires 0 <= p < |value|
  {
    value[p] == ' ' || IsDigit(value[p]) || (value[p] == '-' && (p == 0 || value[p - 1] == ' '))
  }

  /** In an `address`/`command` value, the character at `p` is a blank or a
      hexadecimal digit. */
  predicate HexCharAllowed(value: string, p: int)
    requires 0 <= p < |value|
  {
    value[p] == ' ' || IsHexDigit(value[p])
  }

  /** `DataValidityCheck.check_data` from index `idx` on; `begin` is the
      loop's "at the start of a token" flag, which holds exactly after a
      blank or at the start. */
  function CheckData(offset: nat, value: string, idx: nat, begin: bool): (marks: seq<Indicator>)
    requires idx <= |value|
    requires begin == (idx == 0 || value[idx - 1] == ' ')
    ensures FlagsExactly(Unshift(marks, offset), idx, DataValue, value)
    decreases |value| - idx
  {
    if idx == |value| then
      FlagsEnd(DataValue, value);
      []
    else
      var c := value[idx];
      if c == ' ' then
        var rest := CheckData(offset, value, idx + 1, true);
        FlagsSkip(Unshift(rest, offset), idx, DataValue, value);
        rest
      else if c == '-' && begin then
        var rest := CheckData(offset, value, idx + 1, false);
        FlagsSkip(Unshift(rest, offset), idx, DataValue, value);
        rest
      else
        var rest := CheckData(offset, value, idx + 1, false);
        if IsDigit(c) then
          FlagsSkip(Unshift(rest, offset), idx, DataValue, value);
          rest
        else
          FlagsConsAt(rest, offset, idx, DataValue, value);
          [Indicator(offset + idx, offset + idx + 1)] + rest
  }

  /** `DataValidityCheck.check_hex` from index `idx` on. */
  function CheckHex(offset: nat, value: string, idx: nat): (marks: seq<Indicator>)
    requires idx <= |value|
    ensures FlagsExactly(Unshift(marks, offset), idx, HexValue, value)
    decreases |value| - idx
  {
    if idx == |value| then
      FlagsEnd(HexValue, value);
      []
    else
      var rest := CheckHex(offset, value, idx + 1);
      if HexCharAllowed(value, idx) then
        FlagsSkip(Unshift(rest, offset), idx, HexValue, value);
        rest
      else
        FlagsConsAt(rest, offset, idx, HexValue, value);
        [Indicator(offset + idx, offset + idx + 1)] + rest
  }

  /** The value after the first colon, stripped. */
  function StrippedValue(line: string, colon: nat): string
    requires colon < |line|
  {
    Strip(line[colon + 1..])
  }

  /** `line.index(value.strip(), len(key))` for the value after the first
      colon: the first position at or after the colon where the stripped value
      occurs. */
  function ValueStart(line: string, colon: nat): (j: nat)
    requires colon < |line|
    ensures colon <= j <= |line|
    ensures OccursAt(line, StrippedValue(line, colon), j)
    ensures forall i :: colon <= i < j ==> !OccursAt(line, StrippedValue(line, colon), i)
  {
    StrippedValueOccurs(line, colon);
    FindFrom(line, StrippedValue(line, colon), colon, colon + 1 + Leading(line[colon + 1..], Whitespace))
  }

  /** The stripped value sits in the line right after the whitespace that
      follows the colon. */
  lemma StrippedValueOccurs(line: string, colon: nat)
    requires colon < |line|
    ensures OccursAt(line, StrippedValue(line, colon), colon + 1 + Leading(line[colon + 1..], Whitespace))
  {
    var value := line[colon + 1..];
    var lead := Leading(value, Whitespace);
    var stripped := Strip(value);
    assert line[colon + 1 + lead..colon + 1 + lead + |stripped|] == value[lead..lead + |stripped|];
  }

  /** The `data` branch: every character of the value that is not allowed is
      flagged as a width-one indicator at `len(key) + 1 + idx`, in increasing
      order, and the driver goes on. */
  function DataResult(key: string, value: string): (r: Option<Result>)
    ensures r.Some? <==> exists p :: 0 <= p < |value| && !DataCharAllowed(value, p)
    ensures r.Some? ==> && r.value.exitRule == EXIT_DEFAULT
                        && FlagsExactly(Unshift(r.value.indicators, |key| + 1), 0, DataValue, value)
  {
    var marks := CheckData(|key| + 1, value, 0, true);
    FlagsNonEmpty(Unshift(marks, |key| + 1), 0, DataValue, value);
    assert (exists p :: 0 <= p < |value| && !DataCharAllowed(value, p)) ==> |marks| > 0 by {
      if exists p :: 0 <= p < |value| && !DataCharAllowed(value, p) {
        var p :| 0 <= p < |value| && !DataCharAllowed(value, p);
        assert Flagged(DataValue, value, p);
      }
    }
    if |marks| > 0 then Some(Mir(marks, "character not allowed here (non-Digit)", None)) else None
  }

  /** The `address`/`command` branch: every character of the value that is
      neither a blank nor a hexadecimal digit is flagged. */
  function HexResult(key: string, value: string): (r: Option<Result>)
    ensures r.Some? <==> exists p :: 0 <= p < |value| && !HexCharAllowed(value, p)
    ensures r.Some? ==> && r.value.exitRule == EXIT_DEFAULT
                        && FlagsExactly(Unshift(r.value.indicators, |key| + 1), 0, HexValue, value)
  {
    var marks := CheckHex(|key| + 1, value, 0);
    FlagsNonEmpty(Unshift(marks, |key| + 1), 0, HexValue, value);
    assert (exists p :: 0 <= p < |value| && !HexCharAllowed(value, p)) ==> |marks| > 0 by {
      if exists p :: 0 <= p < |value| && !HexCharAllowed(value, p) {
        var p :| 0 <= p < |value| && !HexCharAllowed(value, p);
        assert Flagged(HexValue, value, p);
      }
    }
    if |marks| > 0 then Some(Mir(marks, "character not allowed here (non-HEX)", None)) else None
  }

  /** The `protocol` branch: the stripped value must be a known protocol. */
  function ProtocolResult(env: Env, value: string, valueStart: int): (r: Option<Result>)
    ensures r.None? <==> Strip(value) in PROTOCOLS
    ensures r.Some? ==>
              && r.value.exitRule == EXIT_DEFAULT
              && r.value.indicators == [Indicator(valueStart, TO_END)]
              && (r.value.suggestion.Some? ==>
                    exists p :: p in PROTOCOLS && r.value.suggestion.value == "protocol: " + p)
  {
    if Strip(value) !in PROTOCOLS then
      var similar := env.closeMatch(value, PROTOCOLS);
      var suggestion := if similar.Some? then Some("protocol: " + similar.value) else None;
      Some(Sirf(valueStart, "Protocol '" + Strip(value) + "' unknown", suggestion))
    else None
  }

  /** The `duty_cycle` branch: the value must parse as a float, and the float
      must not compare below 0 or above 1 (so NaN passes and the
      infinities fail). */
  function DutyCycleResult(env: Env, value: string, valueStart: int): (r: Option<Result>)
    ensures var parsed := env.parseFloat(Strip(value));
            r.None? <==> parsed.NaN? || (parsed.Finite? && 0.0 <= parsed.value <= 1.0)
    ensures r.Some? ==>
              && r.value.exitRule == EXIT_DEFAULT
              && r.value.indicators == [Indicator(valueStart, TO_END)]
              && (r.value.error == "duty_cycle must be a float" <==> env.parseFloat(Strip(value)).NotAFloat?)
  {
    match env.parseFloat(Strip(value))
    case NotAFloat => Some(Sirf(valueStart, "duty_cycle must be a float", None))
    case Finite(x) =>
      if x < 0.0 || x > 1.0 then Some(Sirf(valueStart, "duty_cycle must be between 0.0 and 1.0", None))
      else None
    case NaN => None
    case PosInf => Some(Sirf(valueStart, "duty_cycle must be between 0.0 and 1.0", None))
    case NegInf => Some(Sirf(valueStart, "duty_cycle must be between 0.0 and 1.0", None))
  }

  /** The four kinds of value `DataValidityCheck` validates, by key. */
  datatype ValueKind = DataKind | HexKind | ProtocolKind | DutyCycleKind | OtherKind

  function KindOf(key: string): ValueKind {
    if key == "data" then DataKind
    else if key == "address" || key == "command" then HexKind
    else if key == "protocol" then ProtocolKind
    else if key == "duty_cycle" then DutyCycleKind
    else OtherKind
  }

  /** The per-key validation of `value` (the text after the first colon, not
      stripped) for the unstripped `key`. */
  function ValueResult(env: Env, key: string, value: string, valueStart: int): (r: Option<Result>)
    ensures r.Some? ==> r.value.exitRule == EXIT_DEFAULT
  {
    match KindOf(key)
    case DataKind => DataResult(key, value)
    case HexKind => HexResult(key, value)
    case ProtocolKind => ProtocolResult(env, value, valueStart)
    case DutyCycleKind => DutyCycleResult(env, value, valueStart)
    case OtherKind => None
  }

  /** `DataValidityCheck.check`: split at the first colon and validate the
      value by key. What each key's branch reports is stated by
      `ValueResultDispatch` and `DataResult`, `HexResult`, `ProtocolResult`,
      `DutyCycleResult`. */
  function DataValidityCheck(env: Env, line: string): (r: Option<Result>)
    ensures ':' !in line ==> r.Some? && r.value.Update(line).indicators == [Indicator(0, |line|)]
                             && r.value.exitRule == EXIT_DEFAULT
    ensures var c := IndexOf(line, ':');
            ':' in line ==> r == ValueResult(env, line[..c], line[c + 1..], ValueStart(line, c))
  {
    if ':' !in line then Some(NoPairResult(line))
    else
      var colon := IndexOf(line, ':');
      ValueResult(env, line[..colon], line[colon + 1..], ValueStart(line, colon))
  }

  /** The report for a line without a colon: the whole line is flagged. */
  function NoPairResult(line: string): (r: Result)
    ensures r.Update(line).indicators == [Indicator(0, |line|)] && r.exitRule == EXIT_DEFAULT
  {
    BuildersResolved(line, 0, 0, "cannot unpack key-value", None);
    Sirf(0, "cannot unpack key-value", None)
  }

  /** Which branch validates which key: `data`, then `address` and
      `command`, then `protocol`, then `duty_cycle`; every other key passes. */
  lemma ValueResultDispatch(env: Env, key: string, value: string, valueStart: int)
    ensures key == "data" ==> ValueResult(env, key, value, valueStart) == DataResult(key, value)
    ensures key in ["address", "command"] ==> ValueResult(env, key, value, valueStart) == HexResult(key, value)
    ensures key == "protocol" ==> ValueResult(env, key, value, valueStart) == ProtocolResult(env, value, valueStart)
    ensures key == "duty_cycle" ==>
              ValueResult(env, key, value, valueStart) == DutyCycleResult(env, value, valueStart)
    ensures key !in ["data", "address", "command", "protocol", "duty_cycle"] ==>
              ValueResult(env, key, value, valueStart) == None
  {
  }
}
