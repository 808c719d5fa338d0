/**
 The handful of Python `str` operations the linter relies on, written out over
 `seq<char>`: the whitespace class shared by `str.strip()`/`str.isspace()` and
 the regular-expression class `\s`, stripping, searching, `split`, ASCII
 `lower()`, and the `while '  ' in s: s = s.replace('  ', ' ')` loop.
 */
module Text {

  /** Python's whitespace: the characters for which `str.isspace()` holds,
      which is also the set matched by `\s` in a `str` pattern. */
  predicate IsSpace(c: char) {
    var n := c as int;
    || (0x09 <= n <= 0x0D) || (0x1C <= n <= 0x20) || n == 0x85 || n == 0xA0
    || n == 0x1680 || (0x2000 <= n <= 0x200A) || n == 0x2028 || n == 0x2029
    || n == 0x202F || n == 0x205F || n == 0x3000
  }

  /** The ASCII decimal digits (the model's reading of `str.isdigit()` and `\d`). */
  predicate IsDigit(c: char) {
    '0' <= c <= '9'
  }

  /** A member of the literal set "0123456789ABCDEFabcdef". */
  predicate IsHexDigit(c: char) {
    IsDigit(c) || 'A' <= c <= 'F' || 'a' <= c <= 'f'
  }

  /** The two character classes that the source strips: `strip()` removes
      whitespace, `lstrip(' ')`/`rstrip(' ')` remove only the blank. */
  datatype CharClass = Whitespace | Blank

  predicate InClass(cls: CharClass, c: char) {
    match cls
    case Whitespace => IsSpace(c)
    case Blank => c == ' '
  }

  predicate AllSpace(s: string) {
    forall i :: 0 <= i < |s| ==> IsSpace(s[i])
  }

  predicate StartsWith(s: string, prefix: string) {
    |prefix| <= |s| && s[..|prefix|] == prefix
  }

  /** Length of the longest prefix of `s` made of `cls` characters. */
  function Leading(s: string, cls: CharClass): (k: nat)
    ensures k <= |s|
    ensures forall i :: 0 <= i < k ==> InClass(cls, s[i])
    ensures k < |s| ==> !InClass(cls, s[k])
  {
    if |s| == 0 || !InClass(cls, s[0]) then 0 else 1 + Leading(s[1..], cls)
  }

  /** Length of the longest suffix of `s` made of `cls` characters. */
  function Trailing(s: string, cls: CharClass): (k: nat)
    ensures k <= |s|
    ensures forall i :: |s| - k <= i < |s| ==> InClass(cls, s[i])
    ensures k < |s| ==> !InClass(cls, s[|s| - k - 1])
  {
    if |s| == 0 || !InClass(cls, s[|s| - 1]) then 0
    else 1 + Trailing(s[..|s| - 1], cls)
  }

  /** Python's `s.strip()`: the maximal leading and trailing whitespace removed. */
  function Strip(s: string): (r: string)
    ensures |r| <= |s|
    ensures Leading(s, Whitespace) + |r| <= |s|
    ensures r == s[Leading(s, Whitespace)..Leading(s, Whitespace) + |r|]
    ensures |r| > 0 ==> !IsSpace(r[0]) && !IsSpace(r[|r| - 1])
    ensures AllSpace(s[Leading(s, Whitespace) + |r|..])
  {
    var t := s[Leading(s, Whitespace)..];
    StripTail(s, Leading(s, Whitespace));
    t[..|t| - Trailing(t, Whitespace)]
  }

  /** What follows the kept part of the string is whitespace, and the kept
      part ends in a character that is not. */
  lemma StripTail(s: string, k: nat)
    requires k <= |s|
    ensures var t := s[k..];
            var m := |t| - Trailing(t, Whitespace);
            && AllSpace(s[k + m..])
            && (m > 0 ==> !IsSpace(s[k + m - 1]))
  {
    var t := s[k..];
    var m := |t| - Trailing(t, Whitespace);
    var rest := s[k + m..];
    forall i | 0 <= i < |rest|
      ensures IsSpace(rest[i])
    {
      assert rest[i] == t[m + i];
    }
    if m > 0 {
      assert s[k + m - 1] == t[m - 1];
    }
  }

  /** Python's `s.lstrip(' ')`. */
  function LStripBlanks(s: string): (r: string)
    ensures r == s[Leading(s, Blank)..]
    ensures |r| > 0 ==> r[0] != ' '
  {
    s[Leading(s, Blank)..]
  }

  /** Python's `s.rstrip(' ')`. */
  function RStripBlanks(s: string): (r: string)
    ensures r == s[..|s| - Trailing(s, Blank)]
    ensures |r| > 0 ==> r[|r| - 1] != ' '
  {
    s[..|s| - Trailing(s, Blank)]
  }

  /** Position of the first `c` in `s`, or `|s|` when there is none
      (`s.index(c)` when `c in s`). */
  function IndexOf(s: string, c: char): (k: nat)
    ensures k <= |s|
    ensures forall i :: 0 <= i < k ==> s[i] != c
    ensures k < |s| ==> s[k] == c
    ensures k == |s| <==> c !in s
  {
    if |s| == 0 then 0
    else if s[0] == c then 0
    else 1 + IndexOf(s[1..], c)
  }

  /** The first `c` is at `k` when `s[k]` is `c` and nothing before it is. */
  lemma IndexOfAt(s: string, c: char, k: nat)
    requires k < |s| && s[k] == c
    requires forall j :: 0 <= j < k ==> s[j] != c
    ensures IndexOf(s, c) == k
  {
  }

  /** A string is what comes before position `k`, the character at `k`,
      and what comes after. */
  lemma CutAt(s: string, k: nat)
    requires k < |s|
    ensures s == s[..k] + [s[k]] + s[k + 1..]
  {
  }

  lemma AppendAssoc(a: string, b: string, c: string)
    ensures (a + b) + c == a + (b + c)
  {
  }

  /** `t` occurs in `s` starting at position `j`. */
  predicate OccursAt(s: string, t: string, j: int) {
    0 <= j && j + |t| <= |s| && s[j..j + |t|] == t
  }

  /** The first position in `[from, limit)` at which `t` occurs in `s`, or
      `limit` when there is none. Called with an occurrence known at `limit`,
      it is Python's `s.index(t, from)`. */
  function FindFrom(s: string, t: string, from: nat, limit: nat): (j: nat)
    ensures from <= limit ==> from <= j <= limit
    ensures from > limit ==> j == limit
    ensures j < limit ==> OccursAt(s, t, j)
    ensures forall i :: from <= i < j && i < limit ==> !OccursAt(s, t, i)
    decreases limit - from
  {
    if from >= limit then limit
    else if OccursAt(s, t, from) then from
    else FindFrom(s, t, from + 1, limit)
  }

  /** Python's `s.split(sep)` for a one-character separator. */
  function Split(s: string, sep: char): (parts: seq<string>)
    ensures |parts| >= 1
    ensures forall i :: 0 <= i < |parts| ==> sep !in parts[i]
    decreases |s|
  {
    var k := IndexOf(s, sep);
    if k == |s| then [s] else [s[..k]] + Split(s[k + 1..], sep)
  }

  /** Python's `sep.join(parts)`. */
  function Join(parts: seq<string>, sep: string): string {
    if |parts| == 0 then ""
    else if |parts| == 1 then parts[0]
    else parts[0] + sep + Join(parts[1..], sep)
  }

  /** Splitting and joining with the same separator give back the string. */
  lemma {:induction false} SplitJoin(s: string, sep: char)
    ensures Join(Split(s, sep), [sep]) == s
    decreases |s|
  {
    var k := IndexOf(s, sep);
    if k < |s| {
      var rest := s[k + 1..];
      var parts := [s[..k]] + Split(rest, sep);
      SplitJoin(rest, sep);
      assert Split(s, sep) == parts;
      assert parts[1..] == Split(rest, sep);
      assert Join(parts, [sep]) == s[..k] + [sep] + Join(Split(rest, sep), [sep]);
      assert s == s[..k] + [sep] + rest;
    }
  }

  /** ASCII lower-casing of one character. */
  function LowerChar(c: char): char {
    if 'A' <= c <= 'Z' then (c as int + 32) as char else c
  }

  /** `s.lower()` (ASCII letters only). */
  function Lower(s: string): (r: string)
    ensures |r| == |s|
    ensures forall i :: 0 <= i < |s| ==> r[i] == LowerChar(s[i])
  {
    if |s| == 0 then "" else [LowerChar(s[0])] + Lower(s[1..])
  }

  /** `'  ' in s` */
  predicate HasDoubleSpace(s: string) {
    exists i :: 0 <= i < |s| - 1 && s[i] == ' ' && s[i + 1] == ' '
  }

  /** `s` with every blank removed: what collapsing blanks must preserve. */
  function Blankless(s: string): string {
    if |s| == 0 then "" else (if s[0] == ' ' then "" else [s[0]]) + Blankless(s[1..])
  }

  /** `s` with every maximal run of blanks shortened to a single blank, in
      one pass from the left: a blank is dropped exactly when the character
      before it is a blank. `afterBlank` says whether the text before `s`
      ended in a blank. */
  function CollapseFrom(s: string, afterBlank: bool): string
    decreases |s|
  {
    if |s| == 0 then ""
    else if s[0] == ' ' && afterBlank then CollapseFrom(s[1..], true)
    else [s[0]] + CollapseFrom(s[1..], s[0] == ' ')
  }

  /** Every run of blanks in `s` shortened to one blank. */
  function CollapseBlanks(s: string): string {
    CollapseFrom(s, false)
  }

  /** One call of `s.replace('  ', ' ')`: non-overlapping occurrences,
      scanned from the left. */
  function ReplaceDoubleSpace(s: string): (r: string)
    ensures |r| <= |s|
    ensures HasDoubleSpace(s) ==> |r| < |s|
    ensures forall c :: c in r ==> c in s
    ensures Blankless(r) == Blankless(s)
    decreases |s|
  {
    if |s| >= 2 && s[0] == ' ' && s[1] == ' ' then
      var r := ReplaceDoubleSpace(s[2..]);
      BlanklessCons(' ', r);
      BlanklessCons(s[0], s[1..]);
      BlanklessCons(s[1], s[2..]);
      " " + r
    else if |s| == 0 then ""
    else
      var r := ReplaceDoubleSpace(s[1..]);
      DoubleSpaceTail(s);
      BlanklessCons(s[0], r);
      BlanklessCons(s[0], s[1..]);
      [s[0]] + r
  }

  lemma BlanklessCons(c: char, s: string)
    ensures Blankless([c] + s) == (if c == ' ' then "" else [c]) + Blankless(s)
  {
    assert ([c] + s)[1..] == s;
  }

  /** A double blank that is not at the very start is in the tail. */
  lemma DoubleSpaceTail(s: string)
    requires |s| > 0 && !(|s| >= 2 && s[0] == ' ' && s[1] == ' ')
    ensures HasDoubleSpace(s) ==> HasDoubleSpace(s[1..])
  {
    if HasDoubleSpace(s) {
      var i :| 0 <= i < |s| - 1 && s[i] == ' ' && s[i + 1] == ' ';
      assert s[1..][i - 1] == ' ' && s[1..][i] == ' ';
    }
  }

  /** One `replace` shortens blank runs without ever removing one: after
      collapsing, the result and the input are the same. */
  lemma ReplaceKeepsCollapse(s: string)
    ensures CollapseBlanks(ReplaceDoubleSpace(s)) == CollapseBlanks(s)
  {
    ReplaceCollapses(s, false);
  }

  lemma {:induction false} ReplaceCollapses(s: string, afterBlank: bool)
    ensures CollapseFrom(ReplaceDoubleSpace(s), afterBlank) == CollapseFrom(s, afterBlank)
    decreases |s|
  {
    if |s| >= 2 && s[0] == ' ' && s[1] == ' ' {
      var r := ReplaceDoubleSpace(s[2..]);
      ReplaceCollapses(s[2..], true);
      assert (" " + r)[1..] == r;
      assert s[1..][1..] == s[2..];
    } else if |s| > 0 {
      var r := ReplaceDoubleSpace(s[1..]);
      ReplaceCollapses(s[1..], s[0] == ' ');
      assert ([s[0]] + r)[1..] == r;
    }
  }

  /** Collapsing leaves a string without double blanks as it is, when no
      blank before it joins its first character. */
  lemma {:induction false} CollapseSingles(s: string, afterBlank: bool)
    requires !HasDoubleSpace(s) && (afterBlank ==> |s| == 0 || s[0] != ' ')
    ensures CollapseFrom(s, afterBlank) == s
    decreases |s|
  {
    if |s| > 0 {
      assert forall i :: 0 <= i < |s[1..]| ==> s[1..][i] == s[i + 1];
      assert !HasDoubleSpace(s[1..]);
      assert s[0] == ' ' && |s| > 1 ==> s[1] != ' ';
      CollapseSingles(s[1..], s[0] == ' ');
      assert s == [s[0]] + s[1..];
    }
  }

  /** `while '  ' in s: s = s.replace('  ', ' ')`: every run of blanks
      becomes one blank. */
  function SquashDoubleSpaces(s: string): (r: string)
    ensures r == CollapseBlanks(s)
    ensures !HasDoubleSpace(r)
    ensures forall c :: c in r ==> c in s
    ensures Blankless(r) == Blankless(s)
    ensures !HasDoubleSpace(s) ==> r == s
    decreases |s|
  {
    if HasDoubleSpace(s) then
      ReplaceKeepsCollapse(s);
      SquashDoubleSpaces(ReplaceDoubleSpace(s))
    else
      CollapseSingles(s, false);
      s
  }

  /** Each run of blanks keeps exactly one blank: `"a   b  c"` becomes
      `"a b c"`, not `"abc"`. */
  lemma SquashExample()
    ensures SquashDoubleSpaces("a   b  c") == "a b c"
  {
    var s := "a   b  c";
    assert CollapseFrom(s[7..], true) == "c";
    assert CollapseFrom(s[6..], true) == "c";
    assert CollapseFrom(s[5..], false) == " c";
    assert CollapseFrom(s[4..], true) == "b c";
    assert CollapseFrom(s[3..], true) == "b c";
    assert CollapseFrom(s[2..], true) == "b c";
    assert CollapseFrom(s[1..], false) == " b c";
    assert CollapseBlanks(s) == "a b c";
  }
}
