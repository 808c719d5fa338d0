/**
 The name-rewrite configuration: patterns (`str_get_pattern`,
 `str_match_pattern`), the lookup `get_name_rewrite`, and
 `load_name_check_config`, which folds the JSON object into
 `prefix -> (new name -> patterns)`.

 Loading builds Python objects that share structure: every comma-separated
 prefix of one key gets the same dict, and a signal name added by a merge
 shares its pattern list. To reproduce what a later merge does to the
 sharing prefixes, loading works on an explicit heap of dicts and lists
 addressed by number; the finished config is read back from it.
 */
module NameConfig {
  import opened Wrappers
  import opened Text

  /** A pattern as `str_get_pattern` returns it: the string itself, or a
      compiled regular expression given by its source. */
  datatype Pattern = Literal(text: string) | Regex(source: string)

  /** The two matchers whose insides are not modelled:
      `fnmatch.fnmatch(name, glob)`, and whether
      `re.compile(source).match(s)` finds a match. */
  datatype Matchers = Matchers(fnmatch: (string, string) -> bool, reMatch: (string, string) -> bool)

  predicate EndsWith(s: string, suffix: string) {
    |suffix| <= |s| && s[|s| - |suffix|..] == suffix
  }

  /** `str_get_pattern`: `/.../` is a regular expression, anything else a
      plain string. A lone "/" both starts and ends with "/", and
      `"/"[1:-1]` is the empty pattern. */
  function StrGetPattern(p: string): (r: Pattern)
    ensures r.Regex? <==> StartsWith(p, "/") && EndsWith(p, "/")
    ensures r.Literal? ==> r.text == p
  {
    if StartsWith(p, "/") && EndsWith(p, "/") then
      Regex(if |p| >= 2 then p[1..|p| - 1] else "")
    else Literal(p)
  }

  /** `str_get_pattern(p)` returns rather than raises: `p` is a plain
      string, or the body of `/.../` compiles. `re.compile` raises
      `re.error` on a body it cannot compile; which bodies compile is the
      parameter `compiles`. */
  predicate PatternCompiles(compiles: string -> bool, p: string) {
    var q := StrGetPattern(p);
    q.Regex? ==> compiles(q.source)
  }

  /** How a pattern is written in the configuration file. */
  function PatternText(q: Pattern): string {
    match q
    case Literal(t) => t
    case Regex(src) => "/" + src + "/"
  }

  /** Reading a pattern gives back its text (except the lone "/", which
      reads as the empty regular expression), and every regular expression
      reads back from its written form. */
  lemma StrGetPatternRoundTrip(p: string, src: string)
    ensures p != "/" ==> PatternText(StrGetPattern(p)) == p
    ensures StrGetPattern(PatternText(Regex(src))) == Regex(src)
  {
    var w := "/" + src + "/";
    assert w[..1] == "/" && w[|w| - 1..] == "/";
    assert w[1..|w| - 1] == src;
    if p != "/" && StartsWith(p, "/") && EndsWith(p, "/") {
      assert |p| >= 2;
      assert p == [p[0]] + p[1..|p| - 1] + [p[|p| - 1]];
    }
  }

  /** `str_match_pattern`: a plain string matches the haystack ignoring
      case; a regular expression must match at the start of the lower-cased
      haystack. */
  predicate StrMatchPattern(m: Matchers, haystack: string, q: Pattern) {
    match q
    case Literal(t) => Lower(t) == Lower(haystack)
    case Regex(src) => m.reMatch(src, Lower(haystack))
  }

  lemma LowerCharIdempotent(c: char)
    ensures LowerChar(LowerChar(c)) == LowerChar(c)
  {
  }

  lemma LowerIdempotent(s: string)
    ensures Lower(Lower(s)) == Lower(s)
  {
    forall i | 0 <= i < |s|
      ensures Lower(Lower(s))[i] == Lower(s)[i]
    {
      LowerCharIdempotent(s[i]);
    }
  }

  /** A plain-string pattern is case-insensitive equality: symmetric in
      pattern and haystack, character by character; and no pattern sees
      the case of the haystack. */
  lemma StrMatchPatternCaseless(m: Matchers, haystack: string, t: string, q: Pattern)
    ensures StrMatchPattern(m, haystack, Literal(t)) <==>
              |t| == |haystack| && forall i :: 0 <= i < |t| ==> LowerChar(t[i]) == LowerChar(haystack[i])
    ensures StrMatchPattern(m, haystack, Literal(t)) == StrMatchPattern(m, t, Literal(haystack))
    ensures StrMatchPattern(m, Lower(haystack), q) == StrMatchPattern(m, haystack, q)
  {
    LowerIdempotent(haystack);
    if |t| == |haystack| && forall i :: 0 <= i < |t| ==> LowerChar(t[i]) == LowerChar(haystack[i]) {
      assert Lower(t) == Lower(haystack);
    }
  }

  // ---------------------------------------------------------------------
  // Ordered dicts: Python dicts keep insertion order, which the lookups
  // depend on.

  function Keys<V>(t: seq<(string, V)>): (ks: seq<string>)
    ensures |ks| == |t|
    ensures forall i :: 0 <= i < |t| ==> ks[i] == t[i].0
  {
    seq(|t|, i requires 0 <= i < |t| => t[i].0)
  }

  /** Position of `k` in the dict, or `|t|` when it is not a key. */
  function KeyIndex<V>(t: seq<(string, V)>, k: string): (i: nat)
    ensures i <= |t|
    ensures i < |t| ==> t[i].0 == k
    ensures forall j :: 0 <= j < i ==> t[j].0 != k
    ensures i == |t| <==> k !in Keys(t)
  {
    if |t| == 0 then 0 else if t[0].0 == k then 0 else 1 + KeyIndex(t[1..], k)
  }

  /** `t.get(k)` */
  function Find<V>(t: seq<(string, V)>, k: string): (r: Option<V>)
    ensures r.None? <==> k !in Keys(t)
    ensures r.Some? ==> exists i :: 0 <= i < |t| && t[i] == (k, r.value)
  {
    var i := KeyIndex(t, k);
    if i < |t| then Some(t[i].1) else None
  }

  /** `t[k] = v`: an existing key keeps its place. */
  function Put<V>(t: seq<(string, V)>, k: string, v: V): (r: seq<(string, V)>)
    ensures Keys(r) == if k in Keys(t) then Keys(t) else Keys(t) + [k]
    ensures Find(r, k) == Some(v)
    ensures forall k' :: k' != k ==> Find(r, k') == Find(t, k')
    ensures forall e :: 0 <= e < |r| ==> r[e] == (k, v) || r[e] in t
  {
    var i := KeyIndex(t, k);
    if i < |t| then
      var r := t[i := (k, v)];
      assert Keys(r) == Keys(t);
      forall k' | k' != k
        ensures Find(r, k') == Find(t, k')
      {
        assert forall j :: 0 <= j < |t| ==> (r[j].0 == k' <==> t[j].0 == k');
        FindSame(r, t, k');
      }
      r
    else
      var r := t + [(k, v)];
      assert Keys(r) == Keys(t) + [k];
      forall k' | k' != k
        ensures Find(r, k') == Find(t, k')
      {
        FindPrefix(t, r, k');
      }
      r
  }

  /** Two dicts with the same keys that agree wherever `k` sits agree on
      `k`. */
  lemma FindSame<V>(a: seq<(string, V)>, b: seq<(string, V)>, k: string)
    requires |a| == |b|
    requires forall j :: 0 <= j < |a| ==> (a[j].0 == k <==> b[j].0 == k)
    requires forall j :: 0 <= j < |a| && a[j].0 == k ==> a[j] == b[j]
    ensures Find(a, k) == Find(b, k)
  {
  }

  /** Appending entries does not change the lookup of an existing key, nor
      of a key the new entries do not have. */
  lemma FindPrefix<V>(a: seq<(string, V)>, b: seq<(string, V)>, k: string)
    requires |a| <= |b| && b[..|a|] == a
    requires k in Keys(a) || forall j :: |a| <= j < |b| ==> b[j].0 != k
    ensures Find(b, k) == Find(a, k)
  {
    assert forall j :: 0 <= j < |a| ==> b[j] == a[j];
  }

  // ---------------------------------------------------------------------
  // The loaded configuration and its lookup.

  /** New signal name -> the patterns that select it. */
  type SignalTable = seq<(string, seq<Pattern>)>

  /** Path glob -> its signal table: `NameCheckConfig.prefixes`. */
  type Prefixes = seq<(string, SignalTable)>

  /** Some pattern of the list matches `value`. */
  predicate AnyMatch(m: Matchers, patterns: seq<Pattern>, value: string) {
    exists j :: 0 <= j < |patterns| && StrMatchPattern(m, value, patterns[j])
  }

  /** Entry `k` is the first entry from `from` on whose patterns match. */
  predicate FirstHit(m: Matchers, table: SignalTable, value: string, from: nat, k: int) {
    && from <= k < |table|
    && AnyMatch(m, table[k].1, value)
    && forall k' :: from <= k' < k ==> !AnyMatch(m, table[k'].1, value)
  }

  /** The first pattern of the list, from `j` on, that matches. */
  function MatchFrom(m: Matchers, patterns: seq<Pattern>, value: string, j: nat): (r: bool)
    ensures r <==> exists j' :: j <= j' < |patterns| && StrMatchPattern(m, value, patterns[j'])
    decreases |patterns| - j
  {
    if j >= |patterns| then false
    else StrMatchPattern(m, value, patterns[j]) || MatchFrom(m, patterns, value, j + 1)
  }

  /** The loops of `_get_name_rewrite_for_prefix` from entry `from` on:
      new names in order, each with its patterns in order. */
  function RewriteFrom(m: Matchers, table: SignalTable, value: string, from: nat): (r: Option<string>)
    ensures r.None? <==> forall k :: from <= k < |table| ==> !AnyMatch(m, table[k].1, value)
    ensures r.Some? ==> exists k :: FirstHit(m, table, value, from, k) && table[k].0 == r.value
    decreases |table| - from
  {
    if from >= |table| then None
    else if MatchFrom(m, table[from].1, value, 0) then Some(table[from].0)
    else
      var r := RewriteFrom(m, table, value, from + 1);
      assert r.Some? ==> exists k :: FirstHit(m, table, value, from, k) && table[k].0 == r.value by {
        if r.Some? {
          var k :| FirstHit(m, table, value, from + 1, k) && table[k].0 == r.value;
          assert FirstHit(m, table, value, from, k);
        }
      }
      r
  }

  /** `_get_name_rewrite_for_prefix`: the first new name one of whose
      patterns matches `value`, or None when no pattern of the prefix does. */
  function RewriteForPrefix(m: Matchers, table: SignalTable, value: string): (r: Option<string>)
    ensures r.None? <==> forall k :: 0 <= k < |table| ==> !AnyMatch(m, table[k].1, value)
    ensures r.Some? ==> exists k :: FirstHit(m, table, value, 0, k) && table[k].0 == r.value
  {
    RewriteFrom(m, table, value, 0)
  }

  /** Prefix `k` answers: its glob matches the file name (both
      lower-cased) and its table gives a non-empty new name. */
  predicate Accepts(m: Matchers, config: Prefixes, fileName: string, value: string, k: int) {
    && 0 <= k < |config|
    && m.fnmatch(Lower(fileName), Lower(config[k].0))
    && var w := RewriteForPrefix(m, config[k].1, value);
       w.Some? && w.value != ""
  }

  /** Prefix `k` is the first from `from` on that answers. */
  predicate FirstAccept(m: Matchers, config: Prefixes, fileName: string, value: string, from: nat, k: int) {
    && from <= k
    && Accepts(m, config, fileName, value, k)
    && forall k' :: from <= k' < k ==> !Accepts(m, config, fileName, value, k')
  }

  /** A prefix that does not answer does not change which one is first. */
  lemma FirstAcceptBack(m: Matchers, config: Prefixes, fileName: string, value: string, from: nat, k: int)
    requires !Accepts(m, config, fileName, value, from)
    requires FirstAccept(m, config, fileName, value, from + 1, k)
    ensures FirstAccept(m, config, fileName, value, from, k)
  {
  }

  /** The loop of `get_name_rewrite` from prefix `from` on. */
  function GetFrom(m: Matchers, config: Prefixes, fileName: string, value: string, from: nat): (r: Option<string>)
    ensures r.Some? ==> r.value != ""
    ensures r.None? <==> forall k :: from <= k < |config| ==> !Accepts(m, config, fileName, value, k)
    ensures r.Some? ==> exists k :: FirstAccept(m, config, fileName, value, from, k)
                                    && r == RewriteForPrefix(m, config[k].1, value)
    decreases |config| - from
  {
    if from >= |config| then None
    else
      var rest := GetFrom(m, config, fileName, value, from + 1);
      var r :=
        if m.fnmatch(Lower(fileName), Lower(config[from].0)) then
          var res := RewriteForPrefix(m, config[from].1, value);
          if res.Some? && res.value != "" then res else rest
        else rest;
      assert r.Some? ==> exists k :: FirstAccept(m, config, fileName, value, from, k)
                                     && r == RewriteForPrefix(m, config[k].1, value) by {
        if r.Some? {
          if Accepts(m, config, fileName, value, from) {
            assert FirstAccept(m, config, fileName, value, from, from);
          } else {
            var k :| FirstAccept(m, config, fileName, value, from + 1, k)
                     && rest == RewriteForPrefix(m, config[k].1, value);
            FirstAcceptBack(m, config, fileName, value, from, k);
          }
        }
      }
      r
  }

  /** `get_name_rewrite`: the answer of the first prefix, in order, whose
      glob matches the file name and whose table gives a non-empty new name;
      a prefix whose table gives None or "" passes to the next one. */
  function GetNameRewrite(m: Matchers, config: Prefixes, fileName: string, value: string): (r: Option<string>)
    ensures r.Some? ==> r.value != ""
    ensures r.None? <==> forall k :: 0 <= k < |config| ==> !Accepts(m, config, fileName, value, k)
    ensures r.Some? ==> exists k :: FirstAccept(m, config, fileName, value, 0, k)
                                    && r == RewriteForPrefix(m, config[k].1, value)
  {
    GetFrom(m, config, fileName, value, 0)
  }

  // ---------------------------------------------------------------------
  // Groups.

  /** `str_get_pattern` over a list. */
  function ReadAll(ps: seq<string>): (qs: seq<Pattern>)
    ensures |qs| == |ps|
    ensures forall i :: 0 <= i < |ps| ==> qs[i] == StrGetPattern(ps[i])
  {
    seq(|ps|, i requires 0 <= i < |ps| => StrGetPattern(ps[i]))
  }

  /** Group name -> its patterns: `group_list`. */
  type Groups = seq<(string, seq<Pattern>)>

  /** The loop that fills `group_list` from the `$groups` object. */
  function GroupList(rows: seq<(string, seq<string>)>): Groups
    decreases |rows|
  {
    if |rows| == 0 then []
    else
      var last := rows[|rows| - 1];
      Put(GroupList(rows[..|rows| - 1]), last.0, ReadAll(last.1))
  }

  /** A group holds the patterns of the last row that defines it; a name
      no row defines is not a group. */
  lemma GroupListFind(rows: seq<(string, seq<string>)>, name: string, i: int)
    ensures (forall j :: 0 <= j < |rows| ==> rows[j].0 != name) ==> Find(GroupList(rows), name) == None
    ensures 0 <= i < |rows| && rows[i].0 == name && (forall j :: i < j < |rows| ==> rows[j].0 != name) ==>
              Find(GroupList(rows), name) == Some(ReadAll(rows[i].1))
  {
    if forall j :: 0 <= j < |rows| ==> rows[j].0 != name {
      GroupListMissing(rows, name);
    }
    if 0 <= i < |rows| && rows[i].0 == name && (forall j :: i < j < |rows| ==> rows[j].0 != name) {
      GroupListLast(rows, name, i);
    }
  }

  lemma {:induction false} GroupListMissing(rows: seq<(string, seq<string>)>, name: string)
    requires forall j :: 0 <= j < |rows| ==> rows[j].0 != name
    ensures Find(GroupList(rows), name) == None
    decreases |rows|
  {
    if |rows| > 0 {
      var init := rows[..|rows| - 1];
      assert forall j :: 0 <= j < |init| ==> init[j] == rows[j];
      GroupListMissing(init, name);
    }
  }

  lemma {:induction false} GroupListLast(rows: seq<(string, seq<string>)>, name: string, i: int)
    requires 0 <= i < |rows| && rows[i].0 == name && forall j :: i < j < |rows| ==> rows[j].0 != name
    ensures Find(GroupList(rows), name) == Some(ReadAll(rows[i].1))
    decreases |rows|
  {
    var init := rows[..|rows| - 1];
    if i < |rows| - 1 {
      assert forall j :: 0 <= j < |init| ==> init[j] == rows[j];
      GroupListLast(init, name, i);
    }
  }

  /** The token that makes a pattern entry a group reference. */
  const GROUP_TAG := "$group:"

  /** One entry of a signal's pattern list: a group reference stands for the
      group's patterns (none for an unknown group), anything else for one
      pattern. */
  function ExpandOne(groups: Groups, p: string): seq<Pattern> {
    if StartsWith(p, GROUP_TAG) then
      match Find(groups, Strip(p[|GROUP_TAG|..]))
      case Some(qs) => qs
      case None => []
    else [StrGetPattern(p)]
  }

  /** The lists of a list, one after the other. */
  function Concat<T>(xss: seq<seq<T>>): seq<T>
    decreases |xss|
  {
    if |xss| == 0 then [] else Concat(xss[..|xss| - 1]) + xss[|xss| - 1]
  }

  lemma {:induction false} ConcatAppend<T>(a: seq<seq<T>>, b: seq<seq<T>>)
    ensures Concat(a + b) == Concat(a) + Concat(b)
    decreases |b|
  {
    if |b| == 0 {
      assert a + b == a;
    } else {
      var b' := b[..|b| - 1];
      assert (a + b)[..|a + b| - 1] == a + b';
      ConcatAppend(a, b');
    }
  }

  /** Each entry expanded on its own. */
  function ExpandEach(groups: Groups, ps: seq<string>): (r: seq<seq<Pattern>>)
    ensures |r| == |ps|
    ensures forall i :: 0 <= i < |ps| ==> r[i] == ExpandOne(groups, ps[i])
  {
    seq(|ps|, i requires 0 <= i < |ps| => ExpandOne(groups, ps[i]))
  }

  /** The loop that builds `patterns` for one signal. */
  function ExpandPatterns(groups: Groups, ps: seq<string>): seq<Pattern> {
    Concat(ExpandEach(groups, ps))
  }

  /** Expansion works entry by entry, in order. */
  lemma ExpandAppend(groups: Groups, a: seq<string>, b: seq<string>)
    ensures ExpandPatterns(groups, a + b) == ExpandPatterns(groups, a) + ExpandPatterns(groups, b)
  {
    ExpandEachAppend(groups, a, b);
    ConcatAppend(ExpandEach(groups, a), ExpandEach(groups, b));
  }

  lemma ExpandEachAppend(groups: Groups, a: seq<string>, b: seq<string>)
    ensures ExpandEach(groups, a + b) == ExpandEach(groups, a) + ExpandEach(groups, b)
  {
    var l, r := ExpandEach(groups, a + b), ExpandEach(groups, a) + ExpandEach(groups, b);
    forall i | 0 <= i < |a + b|
      ensures l[i] == r[i]
    {
      if i < |a| {
        assert (a + b)[i] == a[i];
      } else {
        assert (a + b)[i] == b[i - |a|];
      }
    }
  }

  /** A `$group:NAME` entry is replaced by the group's patterns in order; an
      unknown group contributes nothing; without group references the list
      is read pattern by pattern. */
  lemma GroupExpansion(groups: Groups, a: seq<string>, p: string, b: seq<string>)
    ensures StartsWith(p, GROUP_TAG) && Find(groups, Strip(p[|GROUP_TAG|..])).Some? ==>
              ExpandPatterns(groups, a + [p] + b)
              == ExpandPatterns(groups, a) + Find(groups, Strip(p[|GROUP_TAG|..])).value + ExpandPatterns(groups, b)
    ensures StartsWith(p, GROUP_TAG) && Find(groups, Strip(p[|GROUP_TAG|..])).None? ==>
              ExpandPatterns(groups, a + [p] + b) == ExpandPatterns(groups, a) + ExpandPatterns(groups, b)
    ensures (forall i :: 0 <= i < |a| ==> !StartsWith(a[i], GROUP_TAG)) ==> ExpandPatterns(groups, a) == ReadAll(a)
  {
    ExpandAround(groups, a, p, b);
    if StartsWith(p, GROUP_TAG) && Find(groups, Strip(p[|GROUP_TAG|..])).None? {
      var e: seq<Pattern> := ExpandOne(groups, p);
      assert e == [];
      assert ExpandPatterns(groups, a) + e == ExpandPatterns(groups, a);
    }
    if forall i :: 0 <= i < |a| ==> !StartsWith(a[i], GROUP_TAG) {
      ExpandPlain(groups, a);
    }
  }

  lemma ExpandAround(groups: Groups, a: seq<string>, p: string, b: seq<string>)
    ensures ExpandPatterns(groups, a + [p] + b)
            == ExpandPatterns(groups, a) + ExpandOne(groups, p) + ExpandPatterns(groups, b)
  {
    ExpandAppend(groups, a, [p]);
    ExpandAppend(groups, a + [p], b);
    ExpandSingle(groups, p);
  }

  lemma ExpandSingle(groups: Groups, p: string)
    ensures ExpandPatterns(groups, [p]) == ExpandOne(groups, p)
  {
    var e := ExpandEach(groups, [p]);
    assert e[..0] == [];
    assert Concat(e) == Concat(e[..0]) + e[0];
  }

  lemma {:induction false} ExpandPlain(groups: Groups, ps: seq<string>)
    requires forall i :: 0 <= i < |ps| ==> !StartsWith(ps[i], GROUP_TAG)
    ensures ExpandPatterns(groups, ps) == ReadAll(ps)
    decreases |ps|
  {
    if |ps| > 0 {
      var init := ps[..|ps| - 1];
      ExpandPlain(groups, init);
      assert ps == init + [ps[|ps| - 1]];
      ExpandAppend(groups, init, [ps[|ps| - 1]]);
      ExpandSingle(groups, ps[|ps| - 1]);
      assert ReadAll(ps) == ReadAll(init) + [StrGetPattern(ps[|ps| - 1])];
    }
  }

  // ---------------------------------------------------------------------
  // The objects loading builds.

  /** Python objects by number: the signal dicts (new name -> list number)
      and the pattern lists. */
  datatype Heap = Heap(dicts: seq<seq<(string, nat)>>, lists: seq<seq<Pattern>>)

  function ListAt(h: Heap, l: nat): seq<Pattern> {
    if l < |h.lists| then h.lists[l] else []
  }

  function DictAt(h: Heap, d: nat): seq<(string, nat)> {
    if d < |h.dicts| then h.dicts[d] else []
  }

  /** Every list a dict refers to exists. */
  predicate HeapValid(h: Heap) {
    forall d, e :: 0 <= d < |h.dicts| && 0 <= e < |h.dicts[d]| ==> h.dicts[d][e].1 < |h.lists|
  }

  /** Every dict a prefix table refers to exists. */
  predicate TableValid(h: Heap, pl: seq<(string, nat)>) {
    forall k :: 0 <= k < |pl| ==> pl[k].1 < |h.dicts|
  }

  predicate IsPrefix<T(==)>(a: seq<T>, b: seq<T>) {
    |a| <= |b| && b[..|a|] == a
  }

  /** Nothing is taken away: every object stays, and dicts and lists only
      gain entries at their end. */
  predicate Grows(h: Heap, h': Heap) {
    && |h.dicts| <= |h'.dicts|
    && |h.lists| <= |h'.lists|
    && (forall d :: 0 <= d < |h.dicts| ==> IsPrefix(h.dicts[d], h'.dicts[d]))
    && (forall l :: 0 <= l < |h.lists| ==> IsPrefix(h.lists[l], h'.lists[l]))
  }

  lemma GrowsTrans(h1: Heap, h2: Heap, h3: Heap)
    requires Grows(h1, h2) && Grows(h2, h3)
    ensures Grows(h1, h3)
  {
    forall d | 0 <= d < |h1.dicts|
      ensures IsPrefix(h1.dicts[d], h3.dicts[d])
    {
      assert IsPrefix(h1.dicts[d], h2.dicts[d]) && IsPrefix(h2.dicts[d], h3.dicts[d]);
      assert h3.dicts[d][..|h2.dicts[d]|][..|h1.dicts[d]|] == h3.dicts[d][..|h1.dicts[d]|];
    }
    forall l | 0 <= l < |h1.lists|
      ensures IsPrefix(h1.lists[l], h3.lists[l])
    {
      assert IsPrefix(h1.lists[l], h2.lists[l]) && IsPrefix(h2.lists[l], h3.lists[l]);
      assert h3.lists[l][..|h2.lists[l]|][..|h1.lists[l]|] == h3.lists[l][..|h1.lists[l]|];
    }
  }

  /** `xs.append(v)` for every `v` of `vs` that is not yet in `xs`. */
  function AppendMissing(xs: seq<Pattern>, vs: seq<Pattern>): (r: seq<Pattern>)
    decreases |vs|
  {
    if |vs| == 0 then xs
    else AppendMissing(if vs[0] in xs then xs else xs + [vs[0]], vs[1..])
  }

  /** Merging patterns keeps the existing list in front, in its order, and
      adds each missing pattern once: afterwards the list holds exactly
      the old and the new patterns, and no pattern is added twice or added
      when it was already there. */
  lemma {:induction false} AppendMissingSpec(xs: seq<Pattern>, vs: seq<Pattern>)
    ensures IsPrefix(xs, AppendMissing(xs, vs))
    ensures forall q :: q in AppendMissing(xs, vs) <==> q in xs || q in vs
    ensures forall i :: |xs| <= i < |AppendMissing(xs, vs)| ==>
              AppendMissing(xs, vs)[i] !in AppendMissing(xs, vs)[..i]
    decreases |vs|
  {
    if |vs| > 0 {
      var xs' := if vs[0] in xs then xs else xs + [vs[0]];
      var r := AppendMissing(xs', vs[1..]);
      AppendMissingSpec(xs', vs[1..]);
      assert r[..|xs|] == xs by {
        assert r[..|xs'|][..|xs|] == xs'[..|xs|];
      }
      forall i | |xs| <= i < |r|
        ensures r[i] !in r[..i]
      {
        if i < |xs'| {
          assert i == |xs| && r[i] == vs[0] && r[..i] == xs;
        }
      }
      assert forall q :: q in vs <==> q == vs[0] || q in vs[1..];
    }
  }

  /** `h[d] = es` for an existing dict. */
  function SetDict(h: Heap, d: nat, es: seq<(string, nat)>): Heap {
    if d < |h.dicts| then h.(dicts := h.dicts[d := es]) else h
  }

  /** Replace list `l` by `ps`. */
  function SetList(h: Heap, l: nat, ps: seq<Pattern>): Heap {
    if l < |h.lists| then h.(lists := h.lists[l := ps]) else h
  }

  /** One signal of an incoming dict merged into dict `t`: a new name is
      added and shares the incoming list; a known name's list gains the
      patterns it lacks. */
  function MergeEntry(h: Heap, t: nat, name: string, l: nat): Heap {
    var target := DictAt(h, t);
    match Find(target, name)
    case None => SetDict(h, t, target + [(name, l)])
    case Some(tl) => SetList(h, tl, AppendMissing(ListAt(h, tl), ListAt(h, l)))
  }

  /** The loop over `signal_pattern_dict.items()` when a prefix recurs. The
      entries are read before the loop: the incoming dict changes during the
      loop only when it is the target, and then every name is already
      there, so nothing is added to it. */
  function MergeEntries(h: Heap, t: nat, src: seq<(string, nat)>): Heap
    decreases |src|
  {
    if |src| == 0 then h else MergeEntries(MergeEntry(h, t, src[0].0, src[0].1), t, src[1..])
  }

  /** The incoming signal `(name, l)` is in dict `t` of `h'`, with every
      pattern its list had in `h`. */
  predicate MergedInto(h: Heap, h': Heap, t: nat, name: string, l: nat) {
    && Find(DictAt(h', t), name).Some?
    && forall q :: q in ListAt(h, l) ==> q in ListAt(h', Find(DictAt(h', t), name).value)
  }

  /** What one merged signal does to the heap. */
  lemma MergeEntrySpec(h: Heap, t: nat, name: string, l: nat)
    requires HeapValid(h) && t < |h.dicts| && l < |h.lists|
    ensures Grows(h, MergeEntry(h, t, name, l))
    ensures HeapValid(MergeEntry(h, t, name, l))
    ensures |MergeEntry(h, t, name, l).dicts| == |h.dicts| && |MergeEntry(h, t, name, l).lists| == |h.lists|
    ensures MergedInto(h, MergeEntry(h, t, name, l), t, name, l)
    ensures forall n :: n in Keys(DictAt(MergeEntry(h, t, name, l), t)) <==> n in Keys(DictAt(h, t)) || n == name
  {
    if Find(DictAt(h, t), name).None? {
      MergeEntryNew(h, t, name, l);
    } else {
      MergeEntryKnown(h, t, name, l);
    }
  }

  /** One merged signal adds its name to dict `t` and changes no count. */
  lemma MergeEntryKeys(h: Heap, t: nat, name: string, l: nat)
    requires t < |h.dicts|
    ensures |MergeEntry(h, t, name, l).dicts| == |h.dicts|
    ensures forall n :: n in Keys(DictAt(MergeEntry(h, t, name, l), t)) <==> n in Keys(DictAt(h, t)) || n == name
  {
    var target := DictAt(h, t);
    if Find(target, name).None? {
      assert Keys(target + [(name, l)]) == Keys(target) + [name];
    }
  }

  /** A new name is appended to the target dict, sharing the list. */
  lemma MergeEntryNew(h: Heap, t: nat, name: string, l: nat)
    requires HeapValid(h) && t < |h.dicts| && l < |h.lists|
    requires Find(DictAt(h, t), name).None?
    ensures MergeEntry(h, t, name, l) == h.(dicts := h.dicts[t := DictAt(h, t) + [(name, l)]])
    ensures Grows(h, MergeEntry(h, t, name, l))
    ensures HeapValid(MergeEntry(h, t, name, l))
    ensures MergedInto(h, MergeEntry(h, t, name, l), t, name, l)
    ensures Keys(DictAt(MergeEntry(h, t, name, l), t)) == Keys(DictAt(h, t)) + [name]
  {
    var target := DictAt(h, t);
    var es := target + [(name, l)];
    var h' := h.(dicts := h.dicts[t := es]);
    assert es[..|target|] == target;
    assert Keys(es) == Keys(target) + [name];
    FindPrefix(es, es, name);
    assert Find(es, name) == Some(l) by {
      assert KeyIndex(es, name) == |target|;
    }
    assert DictAt(h', t) == es;
    forall d, e | 0 <= d < |h'.dicts| && 0 <= e < |h'.dicts[d]|
      ensures h'.dicts[d][e].1 < |h'.lists|
    {
      if d == t && e == |target| {
        assert h'.dicts[d][e] == (name, l);
      } else {
        assert h'.dicts[d][e] == h.dicts[d][e];
      }
    }
  }

  /** A known name's list gains the missing patterns; no dict changes. */
  lemma MergeEntryKnown(h: Heap, t: nat, name: string, l: nat)
    requires HeapValid(h) && t < |h.dicts| && l < |h.lists|
    requires Find(DictAt(h, t), name).Some?
    ensures Grows(h, MergeEntry(h, t, name, l))
    ensures HeapValid(MergeEntry(h, t, name, l))
    ensures MergeEntry(h, t, name, l).dicts == h.dicts && |MergeEntry(h, t, name, l).lists| == |h.lists|
    ensures MergedInto(h, MergeEntry(h, t, name, l), t, name, l)
  {
    var target := DictAt(h, t);
    var tl := Find(target, name).value;
    assert tl < |h.lists| by {
      var i :| 0 <= i < |target| && target[i] == (name, tl);
    }
    AppendMissingSpec(ListAt(h, tl), ListAt(h, l));
  }

  /** A list of a valid heap keeps its patterns as the heap grows. */
  lemma ListGrows(h: Heap, h': Heap, l: nat, q: Pattern)
    requires Grows(h, h') && q in ListAt(h, l)
    ensures q in ListAt(h', l)
  {
    assert l < |h.lists|;
    assert IsPrefix(h.lists[l], h'.lists[l]);
    assert q in h'.lists[l][..|h.lists[l]|];
  }

  /** A dict of a valid heap keeps its entries as the heap grows. */
  lemma DictGrows(h: Heap, h': Heap, d: nat, name: string)
    requires Grows(h, h') && d < |h.dicts| && name in Keys(DictAt(h, d))
    ensures Find(DictAt(h', d), name) == Find(DictAt(h, d), name)
  {
    assert IsPrefix(h.dicts[d], h'.dicts[d]);
    FindPrefix(DictAt(h, d), DictAt(h', d), name);
  }

  /** A merged signal stays merged as the heap grows. */
  lemma MergedGrows(h0: Heap, h: Heap, h': Heap, t: nat, name: string, l: nat)
    requires MergedInto(h0, h, t, name, l) && Grows(h, h') && HeapValid(h) && t < |h.dicts|
    ensures MergedInto(h0, h', t, name, l)
  {
    DictGrows(h, h', t, name);
    var li := Find(DictAt(h, t), name).value;
    forall q | q in ListAt(h0, l)
      ensures q in ListAt(h', li)
    {
      ListGrows(h, h', li, q);
    }
  }

  /** A signal merged from a later state of its list is merged from an
      earlier one. */
  lemma MergedEarlier(h0: Heap, h: Heap, h': Heap, t: nat, name: string, l: nat)
    requires Grows(h0, h) && MergedInto(h, h', t, name, l)
    ensures MergedInto(h0, h', t, name, l)
  {
    forall q | q in ListAt(h0, l)
      ensures q in ListAt(h, l)
    {
      ListGrows(h0, h, l, q);
    }
  }

  /** Every list an incoming dict refers to exists. */
  predicate EntriesValid(h: Heap, src: seq<(string, nat)>) {
    forall e :: 0 <= e < |src| ==> src[e].1 < |h.lists|
  }

  /** Merging a dict into dict `t` loses nothing and creates no object. */
  lemma {:induction false} MergeEntriesGrows(h: Heap, t: nat, src: seq<(string, nat)>)
    requires HeapValid(h) && t < |h.dicts| && EntriesValid(h, src)
    ensures Grows(h, MergeEntries(h, t, src))
    ensures HeapValid(MergeEntries(h, t, src))
    ensures |MergeEntries(h, t, src).dicts| == |h.dicts| && |MergeEntries(h, t, src).lists| == |h.lists|
    decreases |src|
  {
    if |src| > 0 {
      var h1 := MergeEntry(h, t, src[0].0, src[0].1);
      MergeEntrySpec(h, t, src[0].0, src[0].1);
      MergeEntriesGrows(h1, t, src[1..]);
      GrowsTrans(h, h1, MergeEntries(h1, t, src[1..]));
    }
  }

  /** Merging a dict into dict `t`: `t` ends up with the names of both, and
      every incoming signal has all its patterns under its name in `t`. */
  lemma MergeEntriesSpec(h: Heap, t: nat, src: seq<(string, nat)>)
    requires HeapValid(h) && t < |h.dicts| && EntriesValid(h, src)
    ensures forall e :: 0 <= e < |src| ==> MergedInto(h, MergeEntries(h, t, src), t, src[e].0, src[e].1)
    ensures forall n :: n in Keys(DictAt(MergeEntries(h, t, src), t)) <==> n in Keys(DictAt(h, t)) || n in Keys(src)
  {
    MergeEntriesMerged(h, t, src);
    forall n
      ensures n in Keys(DictAt(MergeEntries(h, t, src), t)) <==> n in Keys(DictAt(h, t)) || n in Keys(src)
    {
      MergeEntriesKeys(h, t, src, n);
    }
  }

  lemma {:induction false} MergeEntriesMerged(h: Heap, t: nat, src: seq<(string, nat)>)
    requires HeapValid(h) && t < |h.dicts| && EntriesValid(h, src)
    ensures forall e :: 0 <= e < |src| ==> MergedInto(h, MergeEntries(h, t, src), t, src[e].0, src[e].1)
    decreases |src|
  {
    if |src| > 0 {
      var h1 := MergeEntry(h, t, src[0].0, src[0].1);
      MergeEntrySpec(h, t, src[0].0, src[0].1);
      MergeEntriesMerged(h1, t, src[1..]);
      MergeEntriesGrows(h1, t, src[1..]);
      var h' := MergeEntries(h1, t, src[1..]);
      assert h' == MergeEntries(h, t, src);
      forall e | 0 <= e < |src|
        ensures MergedInto(h, h', t, src[e].0, src[e].1)
      {
        if e == 0 {
          MergedGrows(h, h1, h', t, src[0].0, src[0].1);
        } else {
          assert src[e] == src[1..][e - 1];
          MergedEarlier(h, h1, h', t, src[e].0, src[e].1);
        }
      }
    }
  }

  /** Name `n` is in dict `t` after merging exactly when it was there
      before or comes in. */
  lemma {:induction false} MergeEntriesKeys(h: Heap, t: nat, src: seq<(string, nat)>, n: string)
    requires t < |h.dicts|
    ensures n in Keys(DictAt(MergeEntries(h, t, src), t)) <==> n in Keys(DictAt(h, t)) || n in Keys(src)
    decreases |src|
  {
    if |src| > 0 {
      var h1 := MergeEntry(h, t, src[0].0, src[0].1);
      MergeEntryKeys(h, t, src[0].0, src[0].1);
      assert n in Keys(DictAt(h1, t)) <==> n in Keys(DictAt(h, t)) || n == src[0].0;
      MergeEntriesKeys(h1, t, src[1..], n);
      assert MergeEntries(h1, t, src[1..]) == MergeEntries(h, t, src);
      KeysCons(src, n);
    }
  }

  /** A name is among the keys of a non-empty table exactly when it is the
      first key or among the rest. */
  lemma KeysCons<V>(t: seq<(string, V)>, n: string)
    requires |t| > 0
    ensures n in Keys(t) <==> n == t[0].0 || n in Keys(t[1..])
  {
    assert Keys(t) == [t[0].0] + Keys(t[1..]);
  }

  // ---------------------------------------------------------------------
  // Loading.

  /** A value of the `name-check` object: a string (`$path-prefix`) or an
      object of string lists (`$groups`, and the table of every prefix
      key). */
  datatype Entry = JsonString(s: string) | JsonObject(rows: seq<(string, seq<string>)>)

  /** The `name-check` object, in its key order. */
  type Data = seq<(string, Entry)>

  /** The signal loop of one key: a fresh pattern list per signal, collected
      in `acc` under its name. */
  function BuildEntries(h: Heap, groups: Groups, rows: seq<(string, seq<string>)>, acc: seq<(string, nat)>)
    : (out: (Heap, seq<(string, nat)>))
    ensures out.0.dicts == h.dicts
    ensures IsPrefix(h.lists, out.0.lists)
    ensures EntriesValid(h, acc) ==> EntriesValid(out.0, out.1)
    decreases |rows|
  {
    if |rows| == 0 then (h, acc)
    else
      var h1 := h.(lists := h.lists + [ExpandPatterns(groups, rows[0].1)]);
      var acc1 := Put<nat>(acc, rows[0].0, |h.lists|);
      var out := BuildEntries(h1, groups, rows[1..], acc1);
      assert out.0.lists[..|h.lists|] == out.0.lists[..|h1.lists|][..|h.lists|];
      out
  }

  /** No row after `r` has the same name: row `r` is the one a dict keeps. */
  predicate LastRow<V>(rows: seq<(string, V)>, r: int) {
    0 <= r < |rows| && forall r' :: r < r' < |rows| ==> rows[r'].0 != rows[r].0
  }

  /** The rows after the first, with their names. */
  lemma RowsTail<V>(rows: seq<(string, V)>, name: string)
    requires |rows| > 0
    ensures (forall r' :: 0 <= r' < |rows| ==> rows[r'].0 != name) ==>
              forall r' :: 0 <= r' < |rows[1..]| ==> rows[1..][r'].0 != name
  {
    assert forall r' :: 0 <= r' < |rows[1..]| ==> rows[1..][r'] == rows[r' + 1];
  }

  /** After the signal loop, a name no row mentions is as before. */
  lemma {:induction false} BuildEntriesKeeps(h: Heap, groups: Groups, rows: seq<(string, seq<string>)>,
                                             acc: seq<(string, nat)>, name: string)
    requires forall r' :: 0 <= r' < |rows| ==> rows[r'].0 != name
    ensures Find(BuildEntries(h, groups, rows, acc).1, name) == Find(acc, name)
    decreases |rows|
  {
    if |rows| > 0 {
      var h1 := h.(lists := h.lists + [ExpandPatterns(groups, rows[0].1)]);
      var acc1 := Put<nat>(acc, rows[0].0, |h.lists|);
      RowsTail(rows, name);
      BuildEntriesKeeps(h1, groups, rows[1..], acc1, name);
      assert BuildEntries(h, groups, rows, acc) == BuildEntries(h1, groups, rows[1..], acc1);
      assert rows[0].0 != name;
      assert Find(acc1, name) == Find(acc, name);
    }
  }

  /** A list of an older heap reads the same in a heap that only appended
      lists. */
  lemma ListPrefixAt(h: Heap, h': Heap, l: nat)
    requires IsPrefix(h.lists, h'.lists) && l < |h.lists|
    ensures ListAt(h', l) == ListAt(h, l)
  {
    assert h'.lists[..|h.lists|][l] == h'.lists[l];
  }

  /** One step of the signal loop. */
  lemma BuildEntriesStep(h: Heap, groups: Groups, rows: seq<(string, seq<string>)>, acc: seq<(string, nat)>)
    requires |rows| > 0
    ensures BuildEntries(h, groups, rows, acc)
            == BuildEntries(h.(lists := h.lists + [ExpandPatterns(groups, rows[0].1)]), groups, rows[1..],
                            Put<nat>(acc, rows[0].0, |h.lists|))
  {
  }

  lemma LastRowTail<V>(rows: seq<(string, V)>, r: int)
    requires LastRow(rows, r) && r > 0
    ensures LastRow(rows[1..], r - 1) && rows[1..][r - 1] == rows[r]
  {
    assert forall r' :: r - 1 < r' < |rows[1..]| ==> rows[1..][r'] == rows[r' + 1];
  }

  /** The first row, when no later row repeats its name. */
  lemma BuildEntriesFindsFirst(h: Heap, groups: Groups, rows: seq<(string, seq<string>)>, acc: seq<(string, nat)>)
    requires LastRow(rows, 0)
    ensures var out := BuildEntries(h, groups, rows, acc);
            Find(out.1, rows[0].0).Some? && ListAt(out.0, Find(out.1, rows[0].0).value) == ExpandPatterns(groups, rows[0].1)
  {
    var h1 := h.(lists := h.lists + [ExpandPatterns(groups, rows[0].1)]);
    var acc1 := Put<nat>(acc, rows[0].0, |h.lists|);
    BuildEntriesStep(h, groups, rows, acc);
    var out := BuildEntries(h1, groups, rows[1..], acc1);
    RowsTail(rows, rows[0].0);
    BuildEntriesKeeps(h1, groups, rows[1..], acc1, rows[0].0);
    ListPrefixAt(h1, out.0, |h.lists|);
  }

  /** After the signal loop, the name of every row that no later row
      repeats refers to a list holding the row's expanded patterns. */
  lemma {:induction false} BuildEntriesFinds(h: Heap, groups: Groups, rows: seq<(string, seq<string>)>,
                                             acc: seq<(string, nat)>, r: int)
    requires LastRow(rows, r)
    ensures var out := BuildEntries(h, groups, rows, acc);
            Find(out.1, rows[r].0).Some? && ListAt(out.0, Find(out.1, rows[r].0).value) == ExpandPatterns(groups, rows[r].1)
    decreases |rows|
  {
    if r == 0 {
      BuildEntriesFindsFirst(h, groups, rows, acc);
    } else {
      BuildEntriesStep(h, groups, rows, acc);
      LastRowTail(rows, r);
      BuildEntriesFinds(h.(lists := h.lists + [ExpandPatterns(groups, rows[0].1)]), groups, rows[1..],
                        Put<nat>(acc, rows[0].0, |h.lists|), r - 1);
    }
  }

  /** `signal_pattern_dict` for one key, as a fresh dict. */
  function BuildDict(h: Heap, groups: Groups, rows: seq<(string, seq<string>)>): (out: (Heap, nat))
    ensures out.1 == |h.dicts| && |out.0.dicts| == |h.dicts| + 1
    ensures out.0.dicts[..|h.dicts|] == h.dicts
    ensures IsPrefix(h.lists, out.0.lists)
    ensures HeapValid(h) ==> HeapValid(out.0)
  {
    var built := BuildEntries(h, groups, rows, []);
    var h1 := built.0.(dicts := built.0.dicts + [built.1]);
    assert HeapValid(h) ==> HeapValid(h1) by {
      if HeapValid(h) {
        forall d, e | 0 <= d < |h1.dicts| && 0 <= e < |h1.dicts[d]|
          ensures h1.dicts[d][e].1 < |h1.lists|
        {
          if d < |h.dicts| {
            assert h1.dicts[d] == h.dicts[d];
          } else {
            assert h1.dicts[d] == built.1;
          }
        }
      }
    }
    (h1, |h.dicts|)
  }

  /** The dict `BuildDict` appends is the one the signal loop collected. */
  lemma BuildDictUnfold(h: Heap, groups: Groups, rows: seq<(string, seq<string>)>)
    ensures var built := BuildEntries(h, groups, rows, []);
            BuildDict(h, groups, rows) == (built.0.(dicts := built.0.dicts + [built.1]), |h.dicts|)
  {
  }

  /** The loop over `key.split(",")`: each piece, behind the path prefix,
      becomes a prefix sharing dict `d`, or, if that prefix exists, gets
      `d` merged into its dict. */
  function AddPrefixes(h: Heap, pl: seq<(string, nat)>, d: nat, pieces: seq<string>, pathPrefix: string)
    : (out: (Heap, seq<(string, nat)>))
    decreases |pieces|
  {
    if |pieces| == 0 then (h, pl)
    else
      var pk := pathPrefix + pieces[0];
      match Find(pl, pk)
      case None => AddPrefixes(h, pl + [(pk, d)], d, pieces[1..], pathPrefix)
      case Some(t) => AddPrefixes(MergeEntries(h, t, DictAt(h, d)), pl, d, pieces[1..], pathPrefix)
  }

  /** The dicts of a valid heap refer to existing lists. */
  lemma DictEntriesValid(h: Heap, d: nat)
    requires HeapValid(h)
    ensures EntriesValid(h, DictAt(h, d))
  {
  }

  /** The prefix table found for a key names an existing dict. */
  lemma FindValid(h: Heap, pl: seq<(string, nat)>, k: string)
    requires TableValid(h, pl) && Find(pl, k).Some?
    ensures Find(pl, k).value < |h.dicts|
  {
  }

  /** Adding the prefixes of one key loses nothing: the heap only grows,
      the prefix table only gains entries at its end, and everything stays
      valid. */
  lemma {:induction false} AddPrefixesGrows(h: Heap, pl: seq<(string, nat)>, d: nat, pieces: seq<string>, pathPrefix: string)
    requires HeapValid(h) && TableValid(h, pl) && d < |h.dicts|
    ensures var out := AddPrefixes(h, pl, d, pieces, pathPrefix);
            Grows(h, out.0) && HeapValid(out.0) && TableValid(out.0, out.1) && IsPrefix(pl, out.1)
            && |out.0.dicts| == |h.dicts|
    decreases |pieces|
  {
    if |pieces| > 0 {
      var pk := pathPrefix + pieces[0];
      match Find(pl, pk)
      case None =>
        var pl1 := pl + [(pk, d)];
        AddPrefixesGrows(h, pl1, d, pieces[1..], pathPrefix);
        var out := AddPrefixes(h, pl1, d, pieces[1..], pathPrefix);
        assert out.1[..|pl|] == out.1[..|pl1|][..|pl|];
      case Some(t) =>
        FindValid(h, pl, pk);
        DictEntriesValid(h, d);
        MergeEntriesGrows(h, t, DictAt(h, d));
        var h1 := MergeEntries(h, t, DictAt(h, d));
        AddPrefixesGrows(h1, pl, d, pieces[1..], pathPrefix);
        GrowsTrans(h, h1, AddPrefixes(h1, pl, d, pieces[1..], pathPrefix).0);
    }
  }

  /** The prefixes the pieces of one key name. */
  function PieceKeys(pieces: seq<string>, pathPrefix: string): set<string> {
    set j | 0 <= j < |pieces| :: pathPrefix + pieces[j]
  }

  /** No key appears twice. */
  predicate Distinct(ks: seq<string>) {
    forall i, j :: 0 <= i < j < |ks| ==> ks[i] != ks[j]
  }

  /** Adding the prefixes of one key adds exactly its pieces, behind the path
      prefix, and never the same prefix twice. */
  lemma {:induction false} AddPrefixesKeys(h: Heap, pl: seq<(string, nat)>, d: nat, pieces: seq<string>, pathPrefix: string)
    ensures var out := AddPrefixes(h, pl, d, pieces, pathPrefix);
            forall k :: k in Keys(out.1) <==> k in Keys(pl) || k in PieceKeys(pieces, pathPrefix)
    ensures Distinct(Keys(pl)) ==> Distinct(Keys(AddPrefixes(h, pl, d, pieces, pathPrefix).1))
    decreases |pieces|
  {
    if |pieces| > 0 {
      var pk := pathPrefix + pieces[0];
      assert forall k :: k in PieceKeys(pieces, pathPrefix) <==> k == pk || k in PieceKeys(pieces[1..], pathPrefix) by {
        forall k | k in PieceKeys(pieces, pathPrefix)
          ensures k == pk || k in PieceKeys(pieces[1..], pathPrefix)
        {
          var j :| 0 <= j < |pieces| && k == pathPrefix + pieces[j];
          if j > 0 {
            assert pieces[1..][j - 1] == pieces[j];
          }
        }
        forall k | k in PieceKeys(pieces[1..], pathPrefix)
          ensures k in PieceKeys(pieces, pathPrefix)
        {
          var j :| 0 <= j < |pieces[1..]| && k == pathPrefix + pieces[1..][j];
          assert pieces[1..][j] == pieces[j + 1];
        }
      }
      match Find(pl, pk)
      case None =>
        var pl1 := pl + [(pk, d)];
        assert Keys(pl1) == Keys(pl) + [pk];
        AddPrefixesKeys(h, pl1, d, pieces[1..], pathPrefix);
      case Some(t) =>
        var h1 := MergeEntries(h, t, DictAt(h, d));
        AddPrefixesKeys(h1, pl, d, pieces[1..], pathPrefix);
    }
  }

  /** Prefix `pk` has signal `name` with pattern `q` among its patterns. */
  predicate Covered(h: Heap, pl: seq<(string, nat)>, pk: string, name: string, q: Pattern) {
    && Find(pl, pk).Some?
    && Find(DictAt(h, Find(pl, pk).value), name).Some?
    && q in ListAt(h, Find(DictAt(h, Find(pl, pk).value), name).value)
  }

  /** What a prefix has stays as the heap and the prefix table grow. */
  lemma CoveredGrows(h: Heap, pl: seq<(string, nat)>, h': Heap, pl': seq<(string, nat)>, pk: string, name: string, q: Pattern)
    requires Covered(h, pl, pk, name, q) && HeapValid(h) && TableValid(h, pl)
    requires Grows(h, h') && IsPrefix(pl, pl')
    ensures Covered(h', pl', pk, name, q)
  {
    FindPrefix(pl, pl', pk);
    var d := Find(pl, pk).value;
    FindValid(h, pl, pk);
    DictGrows(h, h', d, name);
    ListGrows(h, h', Find(DictAt(h, d), name).value, q);
  }

  lemma AddPrefixesPersist(h: Heap, pl: seq<(string, nat)>, d: nat, pieces: seq<string>, pathPrefix: string,
                           pk: string, name: string, q: Pattern)
    requires HeapValid(h) && TableValid(h, pl) && d < |h.dicts|
    requires Covered(h, pl, pk, name, q)
    ensures var out := AddPrefixes(h, pl, d, pieces, pathPrefix);
            Covered(out.0, out.1, pk, name, q)
  {
    AddPrefixesGrows(h, pl, d, pieces, pathPrefix);
    var out := AddPrefixes(h, pl, d, pieces, pathPrefix);
    CoveredGrows(h, pl, out.0, out.1, pk, name, q);
  }

  /** A new prefix gets the key's dict itself. */
  lemma CoversNewPrefix(h: Heap, pl: seq<(string, nat)>, d: nat, pk: string, name: string, q: Pattern)
    requires Find(pl, pk).None?
    requires Find(DictAt(h, d), name).Some? && q in ListAt(h, Find(DictAt(h, d), name).value)
    ensures Covered(h, pl + [(pk, d)], pk, name, q)
  {
    var pl1 := pl + [(pk, d)];
    assert Keys(pl1) == Keys(pl) + [pk];
    assert KeyIndex(pl1, pk) >= |pl|;
    assert Find(pl1, pk) == Some(d);
  }

  /** A recurring prefix gets the key's dict merged into its own. */
  lemma CoversMergedPrefix(h: Heap, pl: seq<(string, nat)>, d: nat, pk: string, name: string, q: Pattern)
    requires HeapValid(h) && TableValid(h, pl) && Find(pl, pk).Some?
    requires Find(DictAt(h, d), name).Some? && q in ListAt(h, Find(DictAt(h, d), name).value)
    ensures Covered(MergeEntries(h, Find(pl, pk).value, DictAt(h, d)), pl, pk, name, q)
  {
    var t := Find(pl, pk).value;
    var l := Find(DictAt(h, d), name).value;
    FindValid(h, pl, pk);
    DictEntriesValid(h, d);
    MergeEntriesSpec(h, t, DictAt(h, d));
    var e :| 0 <= e < |DictAt(h, d)| && DictAt(h, d)[e] == (name, l);
    assert MergedInto(h, MergeEntries(h, t, DictAt(h, d)), t, name, l);
  }

  /** Every piece's prefix ends up with every signal of the key's dict and
      every pattern it had when the dict was built, whether the prefix is
      new or merged into. */
  lemma {:induction false} AddPrefixesCovers(h0: Heap, h: Heap, pl: seq<(string, nat)>, d: nat, pieces: seq<string>,
                                             pathPrefix: string, name: string, q: Pattern, j: int)
    requires HeapValid(h) && TableValid(h, pl) && d < |h0.dicts| && Grows(h0, h)
    requires Find(DictAt(h0, d), name).Some? && q in ListAt(h0, Find(DictAt(h0, d), name).value)
    requires 0 <= j < |pieces|
    ensures var out := AddPrefixes(h, pl, d, pieces, pathPrefix);
            Covered(out.0, out.1, pathPrefix + pieces[j], name, q)
    decreases |pieces|, 1
  {
    if j == 0 {
      AddPrefixesCoversFirst(h0, h, pl, d, pieces, pathPrefix, name, q);
    } else if Find(pl, pathPrefix + pieces[0]).None? {
      AddPrefixesCoversNew(h0, h, pl, d, pieces, pathPrefix, name, q, j);
    } else {
      FindValid(h, pl, pathPrefix + pieces[0]);
      AddPrefixesCoversMerged(h0, h, pl, d, pieces, pathPrefix, name, q, j);
    }
  }

  /** A later piece, past a first prefix that is new. */
  lemma {:induction false} AddPrefixesCoversNew(h0: Heap, h: Heap, pl: seq<(string, nat)>, d: nat, pieces: seq<string>,
                                                pathPrefix: string, name: string, q: Pattern, j: int)
    requires HeapValid(h) && TableValid(h, pl) && d < |h0.dicts| && Grows(h0, h)
    requires Find(DictAt(h0, d), name).Some? && q in ListAt(h0, Find(DictAt(h0, d), name).value)
    requires 0 < j < |pieces| && Find(pl, pathPrefix + pieces[0]).None?
    ensures var out := AddPrefixes(h, pl, d, pieces, pathPrefix);
            Covered(out.0, out.1, pathPrefix + pieces[j], name, q)
    decreases |pieces|, 0
  {
    var pl1 := pl + [(pathPrefix + pieces[0], d)];
    AddPrefixesUnfold(h, pl, d, pieces, pathPrefix);
    AddPrefixesCovers(h0, h, pl1, d, pieces[1..], pathPrefix, name, q, j - 1);
    CoveredShift(h, pl, d, pieces, pathPrefix, name, q, j, h, pl1);
  }

  /** A later piece, past a first prefix that is merged into. */
  lemma {:induction false} AddPrefixesCoversMerged(h0: Heap, h: Heap, pl: seq<(string, nat)>, d: nat, pieces: seq<string>,
                                                   pathPrefix: string, name: string, q: Pattern, j: int)
    requires HeapValid(h) && TableValid(h, pl) && d < |h0.dicts| && Grows(h0, h)
    requires Find(DictAt(h0, d), name).Some? && q in ListAt(h0, Find(DictAt(h0, d), name).value)
    requires 0 < j < |pieces| && Find(pl, pathPrefix + pieces[0]).Some?
    requires Find(pl, pathPrefix + pieces[0]).value < |h.dicts|
    ensures var out := AddPrefixes(h, pl, d, pieces, pathPrefix);
            Covered(out.0, out.1, pathPrefix + pieces[j], name, q)
    decreases |pieces|, 0
  {
    var t := Find(pl, pathPrefix + pieces[0]).value;
    var h1 := MergeEntries(h, t, DictAt(h, d));
    MergeStepValid(h0, h, pl, d, t);
    AddPrefixesUnfold(h, pl, d, pieces, pathPrefix);
    AddPrefixesCovers(h0, h1, pl, d, pieces[1..], pathPrefix, name, q, j - 1);
    CoveredShift(h, pl, d, pieces, pathPrefix, name, q, j, h1, pl);
  }

  /** What the rest of the pieces give a later piece, the whole loop gives
      it, once the loop has taken its first step. */
  lemma CoveredShift(h: Heap, pl: seq<(string, nat)>, d: nat, pieces: seq<string>, pathPrefix: string,
                     name: string, q: Pattern, j: int, h1: Heap, pl1: seq<(string, nat)>)
    requires 0 < j < |pieces|
    requires AddPrefixes(h, pl, d, pieces, pathPrefix) == AddPrefixes(h1, pl1, d, pieces[1..], pathPrefix)
    requires var rest := AddPrefixes(h1, pl1, d, pieces[1..], pathPrefix);
             Covered(rest.0, rest.1, pathPrefix + pieces[1..][j - 1], name, q)
    ensures var out := AddPrefixes(h, pl, d, pieces, pathPrefix);
            Covered(out.0, out.1, pathPrefix + pieces[j], name, q)
  {
    assert pieces[1..][j - 1] == pieces[j];
  }

  /** Merging dict `d` into a dict of the prefix table keeps the heap and
      the table valid and only grows the heap. */
  lemma MergeStepValid(h0: Heap, h: Heap, pl: seq<(string, nat)>, d: nat, t: nat)
    requires HeapValid(h) && TableValid(h, pl) && Grows(h0, h)
    requires t < |h.dicts|
    ensures var h1 := MergeEntries(h, t, DictAt(h, d));
            HeapValid(h1) && TableValid(h1, pl) && Grows(h0, h1)
  {
    DictEntriesValid(h, d);
    MergeEntriesGrows(h, t, DictAt(h, d));
    GrowsTrans(h0, h, MergeEntries(h, t, DictAt(h, d)));
  }

  /** One step of the loop over the pieces of a key. */
  lemma AddPrefixesUnfold(h: Heap, pl: seq<(string, nat)>, d: nat, pieces: seq<string>, pathPrefix: string)
    requires 0 < |pieces|
    ensures Find(pl, pathPrefix + pieces[0]).None? ==>
              AddPrefixes(h, pl, d, pieces, pathPrefix)
              == AddPrefixes(h, pl + [(pathPrefix + pieces[0], d)], d, pieces[1..], pathPrefix)
    ensures Find(pl, pathPrefix + pieces[0]).Some? ==>
              AddPrefixes(h, pl, d, pieces, pathPrefix)
              == AddPrefixes(MergeEntries(h, Find(pl, pathPrefix + pieces[0]).value, DictAt(h, d)), pl, d, pieces[1..], pathPrefix)
  {
  }

  /** The first piece's prefix, new or merged into, has what dict `d` had. */
  lemma AddPrefixesCoversFirst(h0: Heap, h: Heap, pl: seq<(string, nat)>, d: nat, pieces: seq<string>,
                               pathPrefix: string, name: string, q: Pattern)
    requires HeapValid(h) && TableValid(h, pl) && d < |h0.dicts| && Grows(h0, h)
    requires Find(DictAt(h0, d), name).Some? && q in ListAt(h0, Find(DictAt(h0, d), name).value)
    requires 0 < |pieces|
    ensures var out := AddPrefixes(h, pl, d, pieces, pathPrefix);
            Covered(out.0, out.1, pathPrefix + pieces[0], name, q)
  {
    var pk := pathPrefix + pieces[0];
    var l := Find(DictAt(h0, d), name).value;
    DictGrows(h0, h, d, name);
    ListGrows(h0, h, l, q);
    if Find(pl, pk).None? {
      var pl1 := pl + [(pk, d)];
      assert AddPrefixes(h, pl, d, pieces, pathPrefix) == AddPrefixes(h, pl1, d, pieces[1..], pathPrefix);
      CoversNewPrefix(h, pl, d, pk, name, q);
      AddPrefixesPersist(h, pl1, d, pieces[1..], pathPrefix, pk, name, q);
    } else {
      var t := Find(pl, pk).value;
      FindValid(h, pl, pk);
      DictEntriesValid(h, d);
      MergeEntriesGrows(h, t, DictAt(h, d));
      var h1 := MergeEntries(h, t, DictAt(h, d));
      assert AddPrefixes(h, pl, d, pieces, pathPrefix) == AddPrefixes(h1, pl, d, pieces[1..], pathPrefix);
      CoversMergedPrefix(h, pl, d, pk, name, q);
      AddPrefixesPersist(h1, pl, d, pieces[1..], pathPrefix, pk, name, q);
    }
  }


  /** The loop over the keys of the `name-check` object. `$` keys are
      skipped. None where Python raises: a prefix key whose value is a
      string (a `str` has no `items`), or a path prefix that is an object
      (a `dict` cannot be added to a `str`). */
  function LoadKeys(h: Heap, pl: seq<(string, nat)>, data: Data, groups: Groups, pathPrefix: Entry)
    : Option<(Heap, seq<(string, nat)>)>
    decreases |data|
  {
    if |data| == 0 then Some((h, pl))
    else if StartsWith(data[0].0, "$") then LoadKeys(h, pl, data[1..], groups, pathPrefix)
    else
      match (data[0].1, pathPrefix)
      case (JsonObject(rows), JsonString(pp)) =>
        var built := BuildDict(h, groups, rows);
        var added := AddPrefixes(built.0, pl, built.1, Split(data[0].0, ','), pp);
        LoadKeys(added.0, added.1, data[1..], groups, pathPrefix)
      case _ => None
  }

  /** The path prefix as a string (`""` when it cannot be one). */
  function PathText(e: Entry): string {
    if e.JsonString? then e.s else ""
  }

  /** The prefixes the keys of `data` name: every piece of every key that
      does not start with `$`, behind the path prefix. */
  function PrefixKeys(data: Data, pathPrefix: string): set<string>
    decreases |data|
  {
    if |data| == 0 then {}
    else
      (if StartsWith(data[0].0, "$") then {} else PieceKeys(Split(data[0].0, ','), pathPrefix))
      + PrefixKeys(data[1..], pathPrefix)
  }

  lemma BuildDictGrows(h: Heap, groups: Groups, rows: seq<(string, seq<string>)>)
    ensures Grows(h, BuildDict(h, groups, rows).0)
  {
    var h1 := BuildDict(h, groups, rows).0;
    forall d | 0 <= d < |h.dicts|
      ensures IsPrefix(h.dicts[d], h1.dicts[d])
    {
      assert h1.dicts[..|h.dicts|][d] == h1.dicts[d];
    }
    forall l | 0 <= l < |h.lists|
      ensures IsPrefix(h.lists[l], h1.lists[l])
    {
      assert h1.lists[..|h.lists|][l] == h1.lists[l];
    }
  }

  lemma TableGrows(h: Heap, h': Heap, pl: seq<(string, nat)>)
    requires TableValid(h, pl) && |h.dicts| <= |h'.dicts|
    ensures TableValid(h', pl)
  {
  }

  /** Loading keys loses nothing: the heap only grows, the prefix table
      only gains entries at its end, and everything stays valid. */
  lemma {:induction false} LoadKeysGrows(h: Heap, pl: seq<(string, nat)>, data: Data, groups: Groups, pathPrefix: Entry)
    requires HeapValid(h) && TableValid(h, pl)
    ensures var out := LoadKeys(h, pl, data, groups, pathPrefix);
            out.Some? ==> Grows(h, out.value.0) && HeapValid(out.value.0) && TableValid(out.value.0, out.value.1)
                          && IsPrefix(pl, out.value.1)
    decreases |data|
  {
    if |data| > 0 {
      if StartsWith(data[0].0, "$") {
        LoadKeysGrows(h, pl, data[1..], groups, pathPrefix);
      } else if data[0].1.JsonObject? && pathPrefix.JsonString? {
        var built := BuildDict(h, groups, data[0].1.rows);
        BuildDictGrows(h, groups, data[0].1.rows);
        TableGrows(h, built.0, pl);
        AddPrefixesGrows(built.0, pl, built.1, Split(data[0].0, ','), pathPrefix.s);
        var added := AddPrefixes(built.0, pl, built.1, Split(data[0].0, ','), pathPrefix.s);
        GrowsTrans(h, built.0, added.0);
        LoadKeysGrows(added.0, added.1, data[1..], groups, pathPrefix);
        var out := LoadKeys(added.0, added.1, data[1..], groups, pathPrefix);
        if out.Some? {
          GrowsTrans(h, added.0, out.value.0);
          assert out.value.1[..|pl|] == out.value.1[..|added.1|][..|pl|];
        }
      }
    }
  }

  /** Loading keys adds exactly the prefixes the keys name, never the same
      one twice. */
  lemma {:induction false} LoadKeysKeys(h: Heap, pl: seq<(string, nat)>, data: Data, groups: Groups, pathPrefix: Entry)
    ensures var out := LoadKeys(h, pl, data, groups, pathPrefix);
            out.Some? ==> forall k :: k in Keys(out.value.1) <==> k in Keys(pl) || k in PrefixKeys(data, PathText(pathPrefix))
    ensures var out := LoadKeys(h, pl, data, groups, pathPrefix);
            out.Some? && Distinct(Keys(pl)) ==> Distinct(Keys(out.value.1))
    decreases |data|
  {
    if |data| > 0 {
      if StartsWith(data[0].0, "$") {
        LoadKeysKeys(h, pl, data[1..], groups, pathPrefix);
      } else if data[0].1.JsonObject? && pathPrefix.JsonString? {
        var built := BuildDict(h, groups, data[0].1.rows);
        AddPrefixesKeys(built.0, pl, built.1, Split(data[0].0, ','), pathPrefix.s);
        var added := AddPrefixes(built.0, pl, built.1, Split(data[0].0, ','), pathPrefix.s);
        LoadKeysKeys(added.0, added.1, data[1..], groups, pathPrefix);
      }
    }
  }

  lemma LoadKeysPersist(h: Heap, pl: seq<(string, nat)>, data: Data, groups: Groups, pathPrefix: Entry,
                        pk: string, name: string, q: Pattern)
    requires HeapValid(h) && TableValid(h, pl) && Covered(h, pl, pk, name, q)
    ensures var out := LoadKeys(h, pl, data, groups, pathPrefix);
            out.Some? ==> Covered(out.value.0, out.value.1, pk, name, q)
  {
    LoadKeysGrows(h, pl, data, groups, pathPrefix);
    var out := LoadKeys(h, pl, data, groups, pathPrefix);
    if out.Some? {
      CoveredGrows(h, pl, out.value.0, out.value.1, pk, name, q);
    }
  }

  /** Key `i` of `data` names prefixes: it does not start with `$` and holds
      a table. */
  predicate PrefixKeyAt(data: Data, i: int) {
    0 <= i < |data| && !StartsWith(data[i].0, "$") && data[i].1.JsonObject?
  }

  /** Every pattern of every signal of a prefix key ends up under that
      signal in each prefix the key names (the signal's last row, when a
      table repeats a name). */
  lemma LoadKeysCovers(h: Heap, pl: seq<(string, nat)>, data: Data, groups: Groups, pathPrefix: Entry,
                       i: int, r: int, j: int, q: Pattern)
    requires HeapValid(h) && TableValid(h, pl)
    requires PrefixKeyAt(data, i) && LastRow(data[i].1.rows, r) && 0 <= j < |Split(data[i].0, ',')|
    requires q in ExpandPatterns(groups, data[i].1.rows[r].1)
    ensures var out := LoadKeys(h, pl, data, groups, pathPrefix);
            out.Some? ==> Covered(out.value.0, out.value.1, PathText(pathPrefix) + Split(data[i].0, ',')[j],
                                  data[i].1.rows[r].0, q)
  {
    LoadKeysReach(h, pl, data, groups, pathPrefix, i, r, j, q,
                  PathText(pathPrefix) + Split(data[i].0, ',')[j], data[i].1.rows[r].0);
  }

  /** Row `r` of key `i` is the last row of signal `name`, `q` is one of
      its patterns and `pk` is the `j`-th prefix the key names. */
  predicate KeyReaches(data: Data, groups: Groups, pathPrefix: Entry, i: int, r: int, j: int, q: Pattern,
                       pk: string, name: string) {
    && PrefixKeyAt(data, i) && LastRow(data[i].1.rows, r) && 0 <= j < |Split(data[i].0, ',')|
    && q in ExpandPatterns(groups, data[i].1.rows[r].1)
    && pk == PathText(pathPrefix) + Split(data[i].0, ',')[j] && name == data[i].1.rows[r].0
  }

  lemma KeyReachesTail(data: Data, groups: Groups, pathPrefix: Entry, i: int, r: int, j: int, q: Pattern,
                       pk: string, name: string)
    requires KeyReaches(data, groups, pathPrefix, i, r, j, q, pk, name) && i > 0
    ensures KeyReaches(data[1..], groups, pathPrefix, i - 1, r, j, q, pk, name)
  {
    assert data[1..][i - 1] == data[i];
  }

  /** `LoadKeysCovers` with the prefix `pk` and the signal `name` named, so
      that they stay fixed along the induction. */
  lemma {:induction false} LoadKeysReach(h: Heap, pl: seq<(string, nat)>, data: Data, groups: Groups, pathPrefix: Entry,
                                         i: int, r: int, j: int, q: Pattern, pk: string, name: string)
    requires HeapValid(h) && TableValid(h, pl)
    requires KeyReaches(data, groups, pathPrefix, i, r, j, q, pk, name)
    ensures var out := LoadKeys(h, pl, data, groups, pathPrefix);
            out.Some? ==> Covered(out.value.0, out.value.1, pk, name, q)
    decreases |data|
  {
    if i == 0 {
      LoadKeysCoversFirst(h, pl, data, groups, pathPrefix, r, j, q);
    } else {
      KeyReachesTail(data, groups, pathPrefix, i, r, j, q, pk, name);
      LoadFirstStep(h, pl, data, groups, pathPrefix);
      var first := LoadFirst(h, pl, data, groups, pathPrefix);
      if first.Some? {
        LoadKeysReach(first.value.0, first.value.1, data[1..], groups, pathPrefix, i - 1, r, j, q, pk, name);
      }
    }
  }

  /** The key loop's first pass: the heap and prefix table after the first
      key, or None where it raises. */
  function LoadFirst(h: Heap, pl: seq<(string, nat)>, data: Data, groups: Groups, pathPrefix: Entry)
    : Option<(Heap, seq<(string, nat)>)>
    requires |data| > 0
  {
    if StartsWith(data[0].0, "$") then Some((h, pl))
    else
      match (data[0].1, pathPrefix)
      case (JsonObject(rows), JsonString(pp)) =>
        var built := BuildDict(h, groups, rows);
        Some(AddPrefixes(built.0, pl, built.1, Split(data[0].0, ','), pp))
      case _ => None
  }

  /** The key loop is its first pass followed by the loop over the rest,
      and the first pass keeps the heap and the prefix table valid. */
  lemma LoadFirstStep(h: Heap, pl: seq<(string, nat)>, data: Data, groups: Groups, pathPrefix: Entry)
    requires |data| > 0 && HeapValid(h) && TableValid(h, pl)
    ensures var first := LoadFirst(h, pl, data, groups, pathPrefix);
            && LoadKeys(h, pl, data, groups, pathPrefix)
               == (if first.None? then None else LoadKeys(first.value.0, first.value.1, data[1..], groups, pathPrefix))
            && (first.Some? ==> HeapValid(first.value.0) && TableValid(first.value.0, first.value.1))
  {
    LoadKeysUnfold(h, pl, data, groups, pathPrefix);
    if !StartsWith(data[0].0, "$") && data[0].1.JsonObject? && pathPrefix.JsonString? {
      LoadOneValid(h, pl, groups, data[0].1.rows, Split(data[0].0, ','), pathPrefix.s);
    }
  }

  /** One step of the key loop: a `$` key is skipped, a table under a
      string path prefix is loaded, anything else fails. */
  lemma LoadKeysUnfold(h: Heap, pl: seq<(string, nat)>, data: Data, groups: Groups, pathPrefix: Entry)
    requires |data| > 0
    ensures StartsWith(data[0].0, "$") ==> LoadKeys(h, pl, data, groups, pathPrefix) == LoadKeys(h, pl, data[1..], groups, pathPrefix)
    ensures !StartsWith(data[0].0, "$") && !(data[0].1.JsonObject? && pathPrefix.JsonString?) ==>
              LoadKeys(h, pl, data, groups, pathPrefix).None?
    ensures !StartsWith(data[0].0, "$") && data[0].1.JsonObject? && pathPrefix.JsonString? ==>
              var built := BuildDict(h, groups, data[0].1.rows);
              var added := AddPrefixes(built.0, pl, built.1, Split(data[0].0, ','), pathPrefix.s);
              LoadKeys(h, pl, data, groups, pathPrefix) == LoadKeys(added.0, added.1, data[1..], groups, pathPrefix)
  {
  }

  /** Loading one key keeps the heap and the prefix table valid. */
  lemma LoadOneValid(h: Heap, pl: seq<(string, nat)>, groups: Groups, rows: seq<(string, seq<string>)>,
                     pieces: seq<string>, pp: string)
    requires HeapValid(h) && TableValid(h, pl)
    ensures var built := BuildDict(h, groups, rows);
            var added := AddPrefixes(built.0, pl, built.1, pieces, pp);
            HeapValid(added.0) && TableValid(added.0, added.1)
  {
    var built := BuildDict(h, groups, rows);
    BuildDictGrows(h, groups, rows);
    TableGrows(h, built.0, pl);
    AddPrefixesGrows(built.0, pl, built.1, pieces, pp);
  }

  /** The first key's prefixes, right after it is loaded and to the end. */
  lemma LoadKeysCoversFirst(h: Heap, pl: seq<(string, nat)>, data: Data, groups: Groups, pathPrefix: Entry,
                            r: int, j: int, q: Pattern)
    requires HeapValid(h) && TableValid(h, pl)
    requires PrefixKeyAt(data, 0) && LastRow(data[0].1.rows, r) && 0 <= j < |Split(data[0].0, ',')|
    requires q in ExpandPatterns(groups, data[0].1.rows[r].1)
    ensures var out := LoadKeys(h, pl, data, groups, pathPrefix);
            out.Some? ==> Covered(out.value.0, out.value.1, PathText(pathPrefix) + Split(data[0].0, ',')[j],
                                  data[0].1.rows[r].0, q)
  {
    if pathPrefix.JsonString? {
      var rows := data[0].1.rows;
      var pieces := Split(data[0].0, ',');
      var built := BuildDict(h, groups, rows);
      var added := AddPrefixes(built.0, pl, built.1, pieces, pathPrefix.s);
      LoadOneCovers(h, pl, groups, rows, pieces, pathPrefix.s, r, j, q);
      LoadKeysUnfold(h, pl, data, groups, pathPrefix);
      LoadKeysPersist(added.0, added.1, data[1..], groups, pathPrefix, pathPrefix.s + pieces[j], rows[r].0, q);
    }
  }

  /** Loading one key gives each of its prefixes the signals of its last
      rows with their patterns, and keeps the heap and the table valid. */
  lemma LoadOneCovers(h: Heap, pl: seq<(string, nat)>, groups: Groups, rows: seq<(string, seq<string>)>,
                      pieces: seq<string>, pp: string, r: int, j: int, q: Pattern)
    requires HeapValid(h) && TableValid(h, pl)
    requires LastRow(rows, r) && q in ExpandPatterns(groups, rows[r].1) && 0 <= j < |pieces|
    ensures var built := BuildDict(h, groups, rows);
            var added := AddPrefixes(built.0, pl, built.1, pieces, pp);
            && HeapValid(added.0) && TableValid(added.0, added.1)
            && Covered(added.0, added.1, pp + pieces[j], rows[r].0, q)
  {
    var built := BuildDict(h, groups, rows);
    BuildDictHas(h, groups, rows, r, q);
    BuildDictGrows(h, groups, rows);
    TableGrows(h, built.0, pl);
    AddPrefixesCovers(built.0, built.0, pl, built.1, pieces, pp, rows[r].0, q, j);
    AddPrefixesGrows(built.0, pl, built.1, pieces, pp);
  }

  /** The dict built for a key has each signal of its last row with every
      pattern that row expands to. */
  lemma BuildDictHas(h: Heap, groups: Groups, rows: seq<(string, seq<string>)>, r: int, q: Pattern)
    requires LastRow(rows, r) && q in ExpandPatterns(groups, rows[r].1)
    ensures var built := BuildDict(h, groups, rows);
            && built.1 < |built.0.dicts|
            && Find(DictAt(built.0, built.1), rows[r].0).Some?
            && q in ListAt(built.0, Find(DictAt(built.0, built.1), rows[r].0).value)
  {
    var built := BuildDict(h, groups, rows);
    var entries := BuildEntries(h, groups, rows, []);
    BuildEntriesFinds(h, groups, rows, [], r);
    BuildDictUnfold(h, groups, rows);
    assert DictAt(built.0, built.1) == entries.1;
    assert ListAt(built.0, Find(entries.1, rows[r].0).value) == ListAt(entries.0, Find(entries.1, rows[r].0).value);
  }

  /** Dict `d` of the heap as a signal table. */
  function ResolveDict(h: Heap, d: nat): (t: SignalTable)
    ensures Keys(t) == Keys(DictAt(h, d))
    ensures forall e :: 0 <= e < |t| ==> t[e].1 == ListAt(h, DictAt(h, d)[e].1)
  {
    var es := DictAt(h, d);
    seq(|es|, e requires 0 <= e < |es| => (es[e].0, ListAt(h, es[e].1)))
  }

  /** The prefix table with every dict read back from the heap. */
  function Resolve(h: Heap, pl: seq<(string, nat)>): (c: Prefixes)
    ensures Keys(c) == Keys(pl)
    ensures forall k :: 0 <= k < |c| ==> c[k].1 == ResolveDict(h, pl[k].1)
  {
    seq(|pl|, k requires 0 <= k < |pl| => (pl[k].0, ResolveDict(h, pl[k].1)))
  }

  /** Dicts with the same keys find a key at the same place. */
  lemma KeyIndexSame<U, V>(a: seq<(string, U)>, b: seq<(string, V)>, k: string)
    requires Keys(a) == Keys(b)
    ensures KeyIndex(a, k) == KeyIndex(b, k)
  {
    var i := KeyIndex(a, k);
    var i' := KeyIndex(b, k);
    assert forall j :: 0 <= j < |a| ==> a[j].0 == Keys(a)[j] == b[j].0;
  }

  /** What the heap says about a prefix, the finished config says too. */
  lemma ResolveCovered(h: Heap, pl: seq<(string, nat)>, pk: string, name: string, q: Pattern)
    requires Covered(h, pl, pk, name, q)
    ensures var c := Resolve(h, pl);
            Find(c, pk).Some? && Find(Find(c, pk).value, name).Some? && q in Find(Find(c, pk).value, name).value
  {
    var c := Resolve(h, pl);
    KeyIndexSame(c, pl, pk);
    var d := Find(pl, pk).value;
    assert Find(c, pk) == Some(ResolveDict(h, d));
    KeyIndexSame(ResolveDict(h, d), DictAt(h, d), name);
  }

  /** `group_list`, built from the `$groups` object if there is one. */
  function GroupsOf(data: Data): Groups {
    var g := Find(data, "$groups");
    if g.Some? && g.value.JsonObject? then GroupList(g.value.rows) else []
  }

  /** `data.get('$path-prefix', '')` */
  function PathEntry(data: Data): Entry {
    match Find(data, "$path-prefix")
    case Some(e) => e
    case None => JsonString("")
  }

  /** Every pattern of the `$groups` object is parsed, used or not, so
      each must compile. A row that a later row of the same name replaces
      is not in the dict `json.load` builds, and is never parsed. */
  predicate GroupsCompile(compiles: string -> bool, rows: seq<(string, seq<string>)>) {
    forall r, j :: 0 <= r < |rows| && LastRow(rows, r) && 0 <= j < |rows[r].1| ==> PatternCompiles(compiles, rows[r].1[j])
  }

  /** Every pattern of a prefix key's table that is not a `$group:`
      reference is parsed, so each must compile; again only the last row
      of a name is. */
  predicate TableCompiles(compiles: string -> bool, rows: seq<(string, seq<string>)>) {
    forall r, j :: 0 <= r < |rows| && LastRow(rows, r) && 0 <= j < |rows[r].1| && !StartsWith(rows[r].1[j], GROUP_TAG) ==>
      PatternCompiles(compiles, rows[r].1[j])
  }

  /** No `str_get_pattern` call of the loader raises. */
  predicate AllCompile(compiles: string -> bool, data: Data) {
    && (var g := Find(data, "$groups"); g.Some? && g.value.JsonObject? ==> GroupsCompile(compiles, g.value.rows))
    && forall i :: 0 <= i < |data| && !StartsWith(data[i].0, "$") && data[i].1.JsonObject? ==>
         TableCompiles(compiles, data[i].1.rows)
  }

  /** `load_name_check_config`; None where Python raises. Every raising
      case raises whatever the order of the keys, so the failures are
      tested before the keys are loaded. */
  function LoadNameCheckConfig(compiles: string -> bool, data: Data): Option<Prefixes> {
    var g := Find(data, "$groups");
    if g.Some? && g.value.JsonString? then None
    else if !AllCompile(compiles, data) then None
    else
      match LoadKeys(Heap([], []), [], data, GroupsOf(data), PathEntry(data))
      case None => None
      case Some(out) => Some(Resolve(out.0, out.1))
  }

  /** The prefixes of a loaded config are exactly the pieces of the keys
      that do not start with `$`, each behind `$path-prefix` (default ""),
      and no prefix appears twice. */
  lemma LoadPrefixKeys(compiles: string -> bool, data: Data)
    ensures var c := LoadNameCheckConfig(compiles, data);
            c.Some? ==> forall k :: k in Keys(c.value) <==> k in PrefixKeys(data, PathText(PathEntry(data)))
    ensures var c := LoadNameCheckConfig(compiles, data);
            c.Some? ==> Distinct(Keys(c.value))
  {
    LoadKeysKeys(Heap([], []), [], data, GroupsOf(data), PathEntry(data));
  }

  /** Nothing of the input is lost: every pattern of every signal of every
      prefix key (after group expansion) is among that signal's patterns
      in each prefix the key names. */
  lemma LoadKeepsPatterns(compiles: string -> bool, data: Data, i: int, r: int, j: int, q: Pattern)
    requires PrefixKeyAt(data, i) && LastRow(data[i].1.rows, r) && 0 <= j < |Split(data[i].0, ',')|
    requires q in ExpandPatterns(GroupsOf(data), data[i].1.rows[r].1)
    ensures var c := LoadNameCheckConfig(compiles, data);
            var pk := PathText(PathEntry(data)) + Split(data[i].0, ',')[j];
            var name := data[i].1.rows[r].0;
            c.Some? ==> Find(c.value, pk).Some? && Find(Find(c.value, pk).value, name).Some?
                        && q in Find(Find(c.value, pk).value, name).value
  {
    var h0 := Heap([], []);
    LoadKeysCovers(h0, [], data, GroupsOf(data), PathEntry(data), i, r, j, q);
    var out := LoadKeys(h0, [], data, GroupsOf(data), PathEntry(data));
    if LoadNameCheckConfig(compiles, data).Some? {
      ResolveCovered(out.value.0, out.value.1, PathText(PathEntry(data)) + Split(data[i].0, ',')[j], data[i].1.rows[r].0, q);
    }
  }

  // ---------------------------------------------------------------------
  // Nothing is invented: every loaded signal and pattern comes from a row.

  /** Some prefix key of `all` has a row named `name`. */
  ghost predicate NameSupplied(all: Data, name: string) {
    exists i, r :: PrefixKeyAt(all, i) && 0 <= r < |all[i].1.rows| && all[i].1.rows[r].0 == name
  }

  /** Some row named `name`, in the table of some prefix key of `all`,
      gives `q` once its groups are expanded. */
  ghost predicate Supplied(all: Data, groups: Groups, name: string, q: Pattern) {
    exists i, r :: PrefixKeyAt(all, i) && 0 <= r < |all[i].1.rows| && all[i].1.rows[r].0 == name
                   && q in ExpandPatterns(groups, all[i].1.rows[r].1)
  }

  /** Row `row` belongs to the table of some prefix key of `all`. */
  ghost predicate RowOf(all: Data, row: (string, seq<string>)) {
    exists i :: PrefixKeyAt(all, i) && row in all[i].1.rows
  }

  /** Entry `x` sits in some dict of the heap. */
  ghost predicate InHeap(h: Heap, x: (string, nat)) {
    exists d :: 0 <= d < |h.dicts| && x in h.dicts[d]
  }

  /** The signal of entry `x` is one some row names, and its list holds
      only patterns that rows of that name supply. */
  ghost predicate EntrySourced(h: Heap, all: Data, groups: Groups, x: (string, nat)) {
    NameSupplied(all, x.0) && forall q :: q in ListAt(h, x.1) ==> Supplied(all, groups, x.0, q)
  }

  /** Every entry of the heap is sourced, and a list is only ever stored
      under one signal name, so patterns merged into it for that name
      belong to every entry that shares it. */
  ghost predicate Sourced(h: Heap, all: Data, groups: Groups) {
    && (forall x: (string, nat) :: InHeap(h, x) ==> EntrySourced(h, all, groups, x))
    && (forall x: (string, nat), y: (string, nat) :: InHeap(h, x) && InHeap(h, y) && x.1 == y.1 ==> x.0 == y.0)
  }

  lemma InHeapGrows(h: Heap, h': Heap, x: (string, nat))
    requires Grows(h, h') && InHeap(h, x)
    ensures InHeap(h', x)
  {
    var d :| 0 <= d < |h.dicts| && x in h.dicts[d];
    assert IsPrefix(h.dicts[d], h'.dicts[d]);
    assert x in h'.dicts[d][..|h.dicts[d]|];
  }

  /** A signal that is already in the heap, merged into dict `t`, keeps
      the heap sourced: a new name shares an existing entry's list, and a
      known name's list, which only that name stores, gains patterns of
      the same name. */
  lemma MergeEntrySourced(h: Heap, t: nat, name: string, l: nat, all: Data, groups: Groups)
    requires Sourced(h, all, groups) && HeapValid(h) && t < |h.dicts| && InHeap(h, (name, l))
    ensures Sourced(MergeEntry(h, t, name, l), all, groups)
  {
    var target := DictAt(h, t);
    match Find(target, name)
    case None =>
      AddEntrySourced(h, t, name, l, all, groups);
    case Some(tl) =>
      var i :| 0 <= i < |target| && target[i] == (name, tl);
      assert InHeap(h, (name, tl)) by {
        assert target[i] in h.dicts[t];
      }
      GrowListSourced(h, tl, name, l, all, groups);
  }

  /** Adding an entry of the heap to one more dict adds no new entry. */
  lemma AddEntrySourced(h: Heap, t: nat, name: string, l: nat, all: Data, groups: Groups)
    requires Sourced(h, all, groups) && t < |h.dicts| && InHeap(h, (name, l))
    ensures Sourced(SetDict(h, t, DictAt(h, t) + [(name, l)]), all, groups)
  {
    var h' := SetDict(h, t, DictAt(h, t) + [(name, l)]);
    assert h'.lists == h.lists;
    forall x: (string, nat) | InHeap(h', x)
      ensures InHeap(h, x)
    {
      var d :| 0 <= d < |h'.dicts| && x in h'.dicts[d];
      if d == t {
        assert x in h.dicts[t] + [(name, l)];
        if x != (name, l) {
          assert x in h.dicts[t];
        }
      } else {
        assert x in h.dicts[d];
      }
    }
  }

  /** Merging the patterns of one entry into the list of another entry
      of the same name keeps the heap sourced. */
  lemma GrowListSourced(h: Heap, tl: nat, name: string, l: nat, all: Data, groups: Groups)
    requires Sourced(h, all, groups) && HeapValid(h) && InHeap(h, (name, tl)) && InHeap(h, (name, l))
    ensures Sourced(SetList(h, tl, AppendMissing(ListAt(h, tl), ListAt(h, l))), all, groups)
  {
    var h' := SetList(h, tl, AppendMissing(ListAt(h, tl), ListAt(h, l)));
    AppendMissingSpec(ListAt(h, tl), ListAt(h, l));
    assert h'.dicts == h.dicts;
    assert forall x: (string, nat) :: InHeap(h', x) ==> InHeap(h, x);
    assert EntrySourced(h, all, groups, (name, tl)) && EntrySourced(h, all, groups, (name, l));
    forall x: (string, nat) | InHeap(h', x)
      ensures EntrySourced(h', all, groups, x)
    {
      if x.1 == tl {
        assert x.0 == name;
      } else {
        assert ListAt(h', x.1) == ListAt(h, x.1);
      }
    }
  }

  /** Merging a dict whose entries are in the heap keeps it sourced. */
  lemma {:induction false} MergeEntriesSourced(h: Heap, t: nat, src: seq<(string, nat)>, all: Data, groups: Groups)
    requires Sourced(h, all, groups) && HeapValid(h) && t < |h.dicts| && EntriesValid(h, src)
    requires forall k :: 0 <= k < |src| ==> InHeap(h, src[k])
    ensures Sourced(MergeEntries(h, t, src), all, groups)
    decreases |src|
  {
    if |src| > 0 {
      var h1 := MergeEntry(h, t, src[0].0, src[0].1);
      MergeEntrySourced(h, t, src[0].0, src[0].1, all, groups);
      MergeEntrySpec(h, t, src[0].0, src[0].1);
      forall k | 0 <= k < |src[1..]|
        ensures InHeap(h1, src[1..][k])
      {
        InHeapGrows(h, h1, src[k + 1]);
      }
      MergeEntriesSourced(h1, t, src[1..], all, groups);
    }
  }

  /** The loop over the pieces of a key keeps the heap sourced. */
  lemma {:induction false} AddPrefixesSourced(h: Heap, pl: seq<(string, nat)>, d: nat, pieces: seq<string>,
                                              pathPrefix: string, all: Data, groups: Groups)
    requires Sourced(h, all, groups) && HeapValid(h) && TableValid(h, pl) && d < |h.dicts|
    ensures Sourced(AddPrefixes(h, pl, d, pieces, pathPrefix).0, all, groups)
    decreases |pieces|
  {
    if |pieces| > 0 {
      var pk := pathPrefix + pieces[0];
      AddPrefixesUnfold(h, pl, d, pieces, pathPrefix);
      match Find(pl, pk)
      case None =>
        AddPrefixesSourced(h, pl + [(pk, d)], d, pieces[1..], pathPrefix, all, groups);
      case Some(t) =>
        FindValid(h, pl, pk);
        DictEntriesValid(h, d);
        var src := DictAt(h, d);
        forall k | 0 <= k < |src|
          ensures InHeap(h, src[k])
        {
          assert src[k] in h.dicts[d];
        }
        MergeEntriesSourced(h, t, src, all, groups);
        MergeEntriesGrows(h, t, src);
        var h1 := MergeEntries(h, t, src);
        AddPrefixesSourced(h1, pl, d, pieces[1..], pathPrefix, all, groups);
    }
  }

  /** What the signal loop collects in `acc`: fresh lists, numbered from
      `base` on, that no dict of the heap refers to, each under one name
      and holding what a row of that name supplies. */
  ghost predicate AccSourced(h: Heap, acc: seq<(string, nat)>, all: Data, groups: Groups, base: nat) {
    && (forall x: (string, nat) :: x in acc ==> base <= x.1 < |h.lists| && EntrySourced(h, all, groups, x))
    && (forall x: (string, nat), y: (string, nat) :: x in acc && y in acc && x.1 == y.1 ==> x.0 == y.0)
    && (forall x: (string, nat) :: InHeap(h, x) ==> x.1 < base)
  }

  /** One step of the signal loop keeps `acc` sourced. */
  lemma BuildEntriesStepSourced(h: Heap, groups: Groups, rows: seq<(string, seq<string>)>, acc: seq<(string, nat)>,
                                all: Data, base: nat)
    requires |rows| > 0 && RowOf(all, rows[0])
    requires Sourced(h, all, groups) && AccSourced(h, acc, all, groups, base) && base <= |h.lists|
    ensures var h1 := h.(lists := h.lists + [ExpandPatterns(groups, rows[0].1)]);
            var acc1 := Put<nat>(acc, rows[0].0, |h.lists|);
            Sourced(h1, all, groups) && AccSourced(h1, acc1, all, groups, base)
  {
    var h1 := h.(lists := h.lists + [ExpandPatterns(groups, rows[0].1)]);
    var acc1 := Put<nat>(acc, rows[0].0, |h.lists|);
    NewListSourced(h, ExpandPatterns(groups, rows[0].1), all, groups, base);
    NewRowSourced(h, groups, rows[0], all);
    PutAccSourced(h, h1, acc, rows[0].0, all, groups, base);
  }

  /** Appending a list keeps every old entry sourced and unreferenced
      lists unreferenced. */
  lemma NewListSourced(h: Heap, made: seq<Pattern>, all: Data, groups: Groups, base: nat)
    requires Sourced(h, all, groups) && base <= |h.lists|
    requires forall x: (string, nat) :: InHeap(h, x) ==> x.1 < base
    ensures var h1 := h.(lists := h.lists + [made]);
            && Sourced(h1, all, groups)
            && (forall x: (string, nat) :: InHeap(h1, x) ==> x.1 < base)
            && (forall m :: 0 <= m < |h.lists| ==> ListAt(h1, m) == ListAt(h, m))
            && ListAt(h1, |h.lists|) == made
  {
    var h1 := h.(lists := h.lists + [made]);
    forall x: (string, nat) | InHeap(h1, x)
      ensures InHeap(h, x) && ListAt(h1, x.1) == ListAt(h, x.1)
    {
      var d :| 0 <= d < |h1.dicts| && x in h1.dicts[d];
      assert x in h.dicts[d];
    }
    assert forall x: (string, nat) :: InHeap(h1, x) ==> EntrySourced(h1, all, groups, x) by {
      forall x: (string, nat) | InHeap(h1, x)
        ensures EntrySourced(h1, all, groups, x)
      {
        assert InHeap(h, x) && EntrySourced(h, all, groups, x);
      }
    }
  }

  /** A row's expanded patterns are supplied under its name. */
  lemma NewRowSourced(h: Heap, groups: Groups, row: (string, seq<string>), all: Data)
    requires RowOf(all, row)
    ensures var h1 := h.(lists := h.lists + [ExpandPatterns(groups, row.1)]);
            EntrySourced(h1, all, groups, (row.0, |h.lists|))
  {
    var h1 := h.(lists := h.lists + [ExpandPatterns(groups, row.1)]);
    var i :| PrefixKeyAt(all, i) && row in all[i].1.rows;
    var r :| 0 <= r < |all[i].1.rows| && all[i].1.rows[r] == row;
    assert ListAt(h1, |h.lists|) == ExpandPatterns(groups, row.1);
    assert NameSupplied(all, row.0);
  }

  /** Putting a fresh list, sourced under `name`, into `acc`. */
  lemma PutAccSourced(h: Heap, h1: Heap, acc: seq<(string, nat)>, name: string, all: Data, groups: Groups, base: nat)
    requires AccSourced(h, acc, all, groups, base) && |h1.lists| == |h.lists| + 1
    requires forall m :: 0 <= m < |h.lists| ==> ListAt(h1, m) == ListAt(h, m)
    requires EntrySourced(h1, all, groups, (name, |h.lists|)) && base <= |h.lists|
    requires forall x: (string, nat) :: InHeap(h1, x) ==> x.1 < base
    ensures AccSourced(h1, Put<nat>(acc, name, |h.lists|), all, groups, base)
  {
    var n := |h.lists|;
    var acc1 := Put<nat>(acc, name, n);
    forall x: (string, nat) | x in acc1
      ensures base <= x.1 < |h1.lists| && EntrySourced(h1, all, groups, x)
    {
      var e :| 0 <= e < |acc1| && acc1[e] == x;
      if x != (name, n) {
        assert x in acc && x.1 < n;
        assert ListAt(h1, x.1) == ListAt(h, x.1);
        assert EntrySourced(h, all, groups, x);
      }
    }
    forall z: (string, nat) | z in acc1
      ensures z == (name, n) || (z in acc && z.1 < n)
    {
      var e :| 0 <= e < |acc1| && acc1[e] == z;
    }
    forall x: (string, nat), y: (string, nat) | x in acc1 && y in acc1 && x.1 == y.1
      ensures x.0 == y.0
    {
      if x.1 < n {
        assert x in acc && y in acc;
      }
    }
  }


  /** The signal loop keeps the heap and `acc` sourced. */
  lemma {:induction false} BuildEntriesSourced(h: Heap, groups: Groups, rows: seq<(string, seq<string>)>,
                                               acc: seq<(string, nat)>, all: Data, base: nat)
    requires forall k :: 0 <= k < |rows| ==> RowOf(all, rows[k])
    requires Sourced(h, all, groups) && AccSourced(h, acc, all, groups, base) && base <= |h.lists|
    ensures var out := BuildEntries(h, groups, rows, acc);
            Sourced(out.0, all, groups) && AccSourced(out.0, out.1, all, groups, base)
    decreases |rows|
  {
    if |rows| > 0 {
      var h1 := h.(lists := h.lists + [ExpandPatterns(groups, rows[0].1)]);
      var acc1 := Put<nat>(acc, rows[0].0, |h.lists|);
      BuildEntriesStepSourced(h, groups, rows, acc, all, base);
      forall k | 0 <= k < |rows[1..]|
        ensures RowOf(all, rows[1..][k])
      {
        assert rows[1..][k] == rows[k + 1];
      }
      BuildEntriesSourced(h1, groups, rows[1..], acc1, all, base);
      BuildEntriesStep(h, groups, rows, acc);
    }
  }

  /** A fresh signal dict keeps the heap sourced. */
  lemma BuildDictSourced(h: Heap, groups: Groups, rows: seq<(string, seq<string>)>, all: Data)
    requires forall k :: 0 <= k < |rows| ==> RowOf(all, rows[k])
    requires Sourced(h, all, groups) && HeapValid(h)
    ensures Sourced(BuildDict(h, groups, rows).0, all, groups)
  {
    InHeapBelow(h);
    BuildEntriesSourced(h, groups, rows, [], all, |h.lists|);
    var built := BuildEntries(h, groups, rows, []);
    BuildDictUnfold(h, groups, rows);
    AddDictSourced(built.0, built.1, all, groups, |h.lists|);
  }

  /** Every entry of a valid heap refers to one of its lists. */
  lemma InHeapBelow(h: Heap)
    requires HeapValid(h)
    ensures forall x: (string, nat) :: InHeap(h, x) ==> x.1 < |h.lists|
  {
    forall x: (string, nat) | InHeap(h, x)
      ensures x.1 < |h.lists|
    {
      var d :| 0 <= d < |h.dicts| && x in h.dicts[d];
      var e :| 0 <= e < |h.dicts[d]| && h.dicts[d][e] == x;
    }
  }

  /** Storing a sourced signal table as a new dict keeps the heap sourced. */
  lemma AddDictSourced(h: Heap, acc: seq<(string, nat)>, all: Data, groups: Groups, base: nat)
    requires Sourced(h, all, groups) && AccSourced(h, acc, all, groups, base)
    ensures Sourced(h.(dicts := h.dicts + [acc]), all, groups)
  {
    var h2 := h.(dicts := h.dicts + [acc]);
    forall x: (string, nat) | InHeap(h2, x)
      ensures InHeap(h, x) || x in acc
    {
      var d :| 0 <= d < |h2.dicts| && x in h2.dicts[d];
      if d < |h.dicts| {
        assert x in h.dicts[d];
      }
    }
  }

  /** The key loop keeps the heap sourced by the keys of `all`. */
  lemma {:induction false} LoadKeysSourced(h: Heap, pl: seq<(string, nat)>, data: Data, groups: Groups,
                                           pathPrefix: Entry, all: Data)
    requires Sourced(h, all, groups) && HeapValid(h) && TableValid(h, pl)
    requires forall k :: 0 <= k < |data| ==> data[k] in all
    ensures var out := LoadKeys(h, pl, data, groups, pathPrefix);
            out.Some? ==> Sourced(out.value.0, all, groups)
    decreases |data|
  {
    if |data| > 0 {
      assert forall k :: 0 <= k < |data[1..]| ==> data[1..][k] == data[k + 1];
      LoadFirstStep(h, pl, data, groups, pathPrefix);
      LoadFirstSourced(h, pl, data, groups, pathPrefix, all);
      var first := LoadFirst(h, pl, data, groups, pathPrefix);
      if first.Some? {
        LoadKeysSourced(first.value.0, first.value.1, data[1..], groups, pathPrefix, all);
      }
    }
  }

  /** The first pass of the key loop keeps the heap sourced. */
  lemma LoadFirstSourced(h: Heap, pl: seq<(string, nat)>, data: Data, groups: Groups, pathPrefix: Entry, all: Data)
    requires Sourced(h, all, groups) && HeapValid(h) && TableValid(h, pl)
    requires |data| > 0 && data[0] in all
    ensures var first := LoadFirst(h, pl, data, groups, pathPrefix);
            first.Some? ==> Sourced(first.value.0, all, groups)
  {
    if !StartsWith(data[0].0, "$") && data[0].1.JsonObject? && pathPrefix.JsonString? {
      var rows := data[0].1.rows;
      var i :| 0 <= i < |all| && all[i] == data[0];
      assert PrefixKeyAt(all, i);
      forall k | 0 <= k < |rows|
        ensures RowOf(all, rows[k])
      {
        assert rows[k] in all[i].1.rows;
      }
      BuildDictSourced(h, groups, rows, all);
      var built := BuildDict(h, groups, rows);
      TableGrows(h, built.0, pl);
      AddPrefixesSourced(built.0, pl, built.1, Split(data[0].0, ','), pathPrefix.s, all, groups);
    }
  }

  /** Nothing is invented: every signal of every loaded prefix is named by
      a row of some prefix key, and every pattern under it is supplied by
      a row of that name. With `LoadKeepsPatterns`, a prefix's signals and
      patterns are exactly what the rows of its keys give. */
  lemma LoadOnlyFromRows(compiles: string -> bool, data: Data, pk: string, name: string)
    ensures var c := LoadNameCheckConfig(compiles, data);
            c.Some? && Find(c.value, pk).Some? && Find(Find(c.value, pk).value, name).Some? ==>
              && NameSupplied(data, name)
              && forall q :: q in Find(Find(c.value, pk).value, name).value ==> Supplied(data, GroupsOf(data), name, q)
  {
    var c := LoadNameCheckConfig(compiles, data);
    if c.Some? && Find(c.value, pk).Some? && Find(Find(c.value, pk).value, name).Some? {
      var h0 := Heap([], []);
      LoadKeysSourced(h0, [], data, GroupsOf(data), PathEntry(data), data);
      LoadKeysGrows(h0, [], data, GroupsOf(data), PathEntry(data));
      var out := LoadKeys(h0, [], data, GroupsOf(data), PathEntry(data)).value;
      var h, pl := out.0, out.1;
      assert c.value == Resolve(h, pl);
      KeyIndexSame(c.value, pl, pk);
      var dd := Find(pl, pk).value;
      FindValid(h, pl, pk);
      var t := ResolveDict(h, dd);
      assert Find(c.value, pk) == Some(t);
      KeyIndexSame(t, DictAt(h, dd), name);
      var e := KeyIndex(t, name);
      assert DictAt(h, dd)[e] in h.dicts[dd];
      assert EntrySourced(h, data, GroupsOf(data), DictAt(h, dd)[e]);
    }
  }

  /** Where loading raises. */
  predicate LoadRaises(compiles: string -> bool, data: Data) {
    || (Find(data, "$groups").Some? && Find(data, "$groups").value.JsonString?)
    || !AllCompile(compiles, data)
    || exists i :: 0 <= i < |data| && !StartsWith(data[i].0, "$") && (data[i].1.JsonString? || PathEntry(data).JsonObject?)
  }

  /** The key loop fails exactly when some prefix key holds a string or
      the path prefix is an object while there is a prefix key. */
  lemma {:induction false} LoadKeysFails(h: Heap, pl: seq<(string, nat)>, data: Data, groups: Groups, pathPrefix: Entry)
    ensures LoadKeys(h, pl, data, groups, pathPrefix).None? <==>
              exists i :: 0 <= i < |data| && !StartsWith(data[i].0, "$") && (data[i].1.JsonString? || pathPrefix.JsonObject?)
    decreases |data|
  {
    if |data| > 0 {
      assert forall i :: 1 <= i < |data| ==> data[i] == data[1..][i - 1];
      if StartsWith(data[0].0, "$") {
        LoadKeysFails(h, pl, data[1..], groups, pathPrefix);
      } else if data[0].1.JsonObject? && pathPrefix.JsonString? {
        var built := BuildDict(h, groups, data[0].1.rows);
        var added := AddPrefixes(built.0, pl, built.1, Split(data[0].0, ','), pathPrefix.s);
        LoadKeysFails(added.0, added.1, data[1..], groups, pathPrefix);
      }
    }
  }

  /** `load_name_check_config` raises exactly when `$groups` is a string,
      a `/.../` pattern it parses does not compile, a prefix key holds a
      string, or `$path-prefix` is an object while there is a prefix key. */
  lemma LoadFails(compiles: string -> bool, data: Data)
    ensures LoadNameCheckConfig(compiles, data).None? <==> LoadRaises(compiles, data)
  {
    LoadKeysFails(Heap([], []), [], data, GroupsOf(data), PathEntry(data));
  }

  /** One `/.../` pattern that does not compile, in the last row of its
      name in a prefix key's table and not a `$group:` reference, makes
      the whole load raise. */
  lemma BadTableRegexRaises(compiles: string -> bool, data: Data, i: nat, r: nat, j: nat)
    requires i < |data| && !StartsWith(data[i].0, "$") && data[i].1.JsonObject?
    requires LastRow(data[i].1.rows, r) && j < |data[i].1.rows[r].1|
    requires var p := data[i].1.rows[r].1[j];
             !StartsWith(p, GROUP_TAG) && StartsWith(p, "/") && EndsWith(p, "/") && !compiles(StrGetPattern(p).source)
    ensures LoadNameCheckConfig(compiles, data).None?
  {
    assert !TableCompiles(compiles, data[i].1.rows);
  }

  /** Likewise a `/.../` pattern of `$groups` that does not compile, in
      the last row of its name, even one no key refers to. */
  lemma BadGroupRegexRaises(compiles: string -> bool, data: Data, r: nat, j: nat)
    requires var g := Find(data, "$groups"); g.Some? && g.value.JsonObject?
    requires LastRow(Find(data, "$groups").value.rows, r) && j < |Find(data, "$groups").value.rows[r].1|
    requires var p := Find(data, "$groups").value.rows[r].1[j];
             StartsWith(p, "/") && EndsWith(p, "/") && !compiles(StrGetPattern(p).source)
    ensures LoadNameCheckConfig(compiles, data).None?
  {
    assert !GroupsCompile(compiles, Find(data, "$groups").value.rows);
  }

  /** `empty_config`: the config loaded from an empty object. */
  function EmptyConfig(compiles: string -> bool): (c: Prefixes)
    ensures |c| == 0
  {
    var loaded := LoadNameCheckConfig(compiles, []);
    assert loaded == Some([]);
    loaded.value
  }

  /** The empty config renames nothing. */
  lemma EmptyConfigNoRewrite(m: Matchers, compiles: string -> bool, fileName: string, value: string)
    ensures GetNameRewrite(m, EmptyConfig(compiles), fileName, value) == None
  {
  }

  /** The prefixes of one key share their dict: a later key that merges
      into one of them changes the others too. Here `"a,b"` gives `a` and
      `b` the same dict; the later key `"a"` extends signal `X` and adds
      signal `Y`, and `b` sees both. */
  lemma SharedDictExample(compiles: string -> bool)
    ensures LoadNameCheckConfig(compiles, [("a,b", JsonObject([("X", ["p"])])),
                                 ("a", JsonObject([("X", ["r"]), ("Y", ["q"])]))])
            == Some([("a", [("X", [Literal("p"), Literal("r")]), ("Y", [Literal("q")])]),
                     ("b", [("X", [Literal("p"), Literal("r")]), ("Y", [Literal("q")])])])
  {
    var data := [("a,b", JsonObject([("X", ["p"])])), ("a", JsonObject([("X", ["r"]), ("Y", ["q"])]))];
    assert Keys(data) == ["a,b", "a"];
    assert Find(data, "$groups").None? && Find(data, "$path-prefix").None?;
    assert GroupsOf(data) == [] && PathEntry(data) == JsonString("");
    ExampleCompiles(compiles);
    ExampleLoadKeys();
    ExampleResolve();
  }

  /** Because of that sharing, a signal under a prefix can come from a key
      that does not name the prefix: `b` holds `Y`, which only key `"a"`
      supplies, and `"a"` does not split into `b`. */
  lemma SharedDictForeignSignal(compiles: string -> bool)
    ensures var c := LoadNameCheckConfig(compiles, [("a,b", JsonObject([("X", ["p"])])),
                                                    ("a", JsonObject([("X", ["r"]), ("Y", ["q"])]))]);
            && c.Some? && Find(c.value, "b").Some?
            && Find(Find(c.value, "b").value, "Y") == Some([Literal("q")])
            && "b" !in PieceKeys(Split("a", ','), "")
  {
    SharedDictExample(compiles);
    SharedDictFindY([("a", [("X", [Literal("p"), Literal("r")]), ("Y", [Literal("q")])]),
                     ("b", [("X", [Literal("p"), Literal("r")]), ("Y", [Literal("q")])])]);
    SplitSingle();
  }

  /** In the example's result, `b` holds signal `Y` with pattern `q`. */
  lemma SharedDictFindY(c: seq<(string, seq<(string, seq<Pattern>)>)>)
    requires c == [("a", [("X", [Literal("p"), Literal("r")]), ("Y", [Literal("q")])]),
                   ("b", [("X", [Literal("p"), Literal("r")]), ("Y", [Literal("q")])])]
    ensures Find(c, "b").Some? && Find(Find(c, "b").value, "Y") == Some([Literal("q")])
  {
    assert Keys(c) == ["a", "b"];
    assert Find(c, "b") == Some(c[1].1);
    assert Keys(c[1].1) == ["X", "Y"];
  }

  /** Key `"a"` names only the prefix `a`. */
  lemma SplitSingle()
    ensures "b" !in PieceKeys(Split("a", ','), "")
  {
    assert IndexOf("a", ',') == 1;
    var pieces := Split("a", ',');
    assert pieces == ["a"];
    forall j | 0 <= j < |pieces|
      ensures "" + pieces[j] != "b"
    {
      assert ("" + pieces[j])[0] == 'a';
    }
  }

  /** The example holds plain strings only, so nothing is compiled. */
  lemma ExampleCompiles(compiles: string -> bool)
    ensures AllCompile(compiles, [("a,b", JsonObject([("X", ["p"])])), ("a", JsonObject([("X", ["r"]), ("Y", ["q"])]))])
  {
    var data := [("a,b", JsonObject([("X", ["p"])])), ("a", JsonObject([("X", ["r"]), ("Y", ["q"])]))];
    assert Find(data, "$groups").None?;
    ExampleTablesCompile(compiles);
    assert data[0].1.rows == [("X", ["p"])] && data[1].1.rows == [("X", ["r"]), ("Y", ["q"])];
  }

  /** The example's two tables. */
  lemma ExampleTablesCompile(compiles: string -> bool)
    ensures TableCompiles(compiles, [("X", ["p"])])
    ensures TableCompiles(compiles, [("X", ["r"]), ("Y", ["q"])])
  {
    var t0, t1 := [("X", ["p"])], [("X", ["r"]), ("Y", ["q"])];
    assert forall r, j :: 0 <= r < |t0| && 0 <= j < |t0[r].1| ==> t0[r].1[j] == "p";
    PlainTableCompiles(compiles, t0);
    assert forall r, j :: 0 <= r < |t1| && 0 <= j < |t1[r].1| ==> t1[r].1[j] in {"r", "q"};
    PlainTableCompiles(compiles, t1);
  }

  /** A table whose patterns never open with a slash compiles nothing. */
  lemma PlainTableCompiles(compiles: string -> bool, rows: seq<(string, seq<string>)>)
    requires forall r, j :: 0 <= r < |rows| && 0 <= j < |rows[r].1| ==> |rows[r].1[j]| > 0 && rows[r].1[j][0] != '/'
    ensures TableCompiles(compiles, rows) && GroupsCompile(compiles, rows)
  {
    forall r, j | 0 <= r < |rows| && 0 <= j < |rows[r].1|
      ensures PatternCompiles(compiles, rows[r].1[j])
    {
      PlainCompiles(compiles, rows[r].1[j]);
    }
  }

  /** A pattern that does not open with a slash is never compiled. */
  lemma PlainCompiles(compiles: string -> bool, p: string)
    requires |p| > 0 && p[0] != '/'
    ensures PatternCompiles(compiles, p)
  {
    assert p[..1][0] == p[0];
  }

  /** A `$groups` row that a later row of the same name replaces is never
      parsed, so a body that does not compile there does no harm:
      `{"$groups": {"g": ["/(/"], "g": ["x"]}}` loads, whatever compiles. */
  lemma ReplacedGroupRowLoads(compiles: string -> bool)
    ensures LoadNameCheckConfig(compiles, [("$groups", JsonObject([("g", ["/(/"]), ("g", ["x"])]))]) == Some([])
  {
    var rows := [("g", ["/(/"]), ("g", ["x"])];
    var data := [("$groups", JsonObject(rows))];
    assert Find(data, "$groups") == Some(JsonObject(rows));
    assert rows[1].0 == rows[0].0;
    forall r, j | 0 <= r < |rows| && LastRow(rows, r) && 0 <= j < |rows[r].1|
      ensures PatternCompiles(compiles, rows[r].1[j])
    {
      assert r == 1 && rows[r].1[j] == "x";
      PlainCompiles(compiles, "x");
    }
    assert AllCompile(compiles, data);
    assert StartsWith(data[0].0, "$");
    assert LoadKeys(Heap([], []), [], data, GroupsOf(data), PathEntry(data)) == Some((Heap([], []), []));
  }

  /** The same for a signal row of a prefix key: `{"a": {"X": ["/(/"],
      "X": ["p"]}}` loads, whatever compiles. */
  lemma ReplacedSignalRowLoads(compiles: string -> bool)
    ensures LoadNameCheckConfig(compiles, [("a", JsonObject([("X", ["/(/"]), ("X", ["p"])]))]).Some?
  {
    var rows := [("X", ["/(/"]), ("X", ["p"])];
    var data := [("a", JsonObject(rows))];
    assert Find(data, "$groups").None? && Find(data, "$path-prefix").None?;
    assert rows[1].0 == rows[0].0;
    forall r, j | 0 <= r < |rows| && LastRow(rows, r) && 0 <= j < |rows[r].1| && !StartsWith(rows[r].1[j], GROUP_TAG)
      ensures PatternCompiles(compiles, rows[r].1[j])
    {
      assert r == 1 && rows[r].1[j] == "p";
      PlainCompiles(compiles, "p");
    }
    assert AllCompile(compiles, data);
    assert !StartsWith(data[0].0, "$") by {
      assert data[0].0[..1][0] == 'a';
    }
    assert LoadKeys(Heap([], []), [], data, GroupsOf(data), PathEntry(data)).Some?;
  }

  /** Loading the keys of the example: one dict shared by `a` and `b`,
      which the second key merges into. */
  lemma ExampleLoadKeys()
    ensures LoadKeys(Heap([], []), [], [("a,b", JsonObject([("X", ["p"])])), ("a", JsonObject([("X", ["r"]), ("Y", ["q"])]))],
                     [], JsonString(""))
            == Some((Heap([[("X", 0), ("Y", 2)], [("X", 1), ("Y", 2)]], [[Literal("p"), Literal("r")], [Literal("r")], [Literal("q")]]),
                     [("a", 0), ("b", 0)]))
  {
    ExampleLoadFirstKey();
    ExampleLoadSecondKey();
  }

  /** Both prefixes of the example read the shared dict. */
  lemma ExampleResolve()
    ensures Resolve(Heap([[("X", 0), ("Y", 2)], [("X", 1), ("Y", 2)]], [[Literal("p"), Literal("r")], [Literal("r")], [Literal("q")]]),
                    [("a", 0), ("b", 0)])
            == [("a", [("X", [Literal("p"), Literal("r")]), ("Y", [Literal("q")])]),
                ("b", [("X", [Literal("p"), Literal("r")]), ("Y", [Literal("q")])])]
  {
    var p, q, r := Literal("p"), Literal("q"), Literal("r");
    var h4 := Heap([[("X", 0), ("Y", 2)], [("X", 1), ("Y", 2)]], [[p, r], [r], [q]]);
    var table := [("X", [p, r]), ("Y", [q])];
    assert ResolveDict(h4, 0) == table;
  }

  /** The key `"a,b"` loads one dict under both prefixes. */
  lemma ExampleLoadFirstKey()
    ensures LoadKeys(Heap([], []), [], [("a,b", JsonObject([("X", ["p"])])), ("a", JsonObject([("X", ["r"]), ("Y", ["q"])]))],
                     [], JsonString(""))
            == LoadKeys(Heap([[("X", 0)]], [[Literal("p")]]), [("a", 0), ("b", 0)], [("a", JsonObject([("X", ["r"]), ("Y", ["q"])]))],
                        [], JsonString(""))
  {
    var data := [("a,b", JsonObject([("X", ["p"])])), ("a", JsonObject([("X", ["r"]), ("Y", ["q"])]))];
    assert !StartsWith("a,b", "$") by {
      assert "a,b"[..1] == "a";
    }
    ExampleSplits();
    ExampleFirstBuild();
    ExampleFirstPrefixes();
    assert data[0].0 == "a,b" && data[0].1.rows == [("X", ["p"])];
    assert data[1..] == [("a", JsonObject([("X", ["r"]), ("Y", ["q"])]))];
    LoadKeysUnfold(Heap([], []), [], data, [], JsonString(""));
  }

  /** The key `"a"` merges its dict into the one `a` already has. */
  lemma ExampleLoadSecondKey()
    ensures LoadKeys(Heap([[("X", 0)]], [[Literal("p")]]), [("a", 0), ("b", 0)], [("a", JsonObject([("X", ["r"]), ("Y", ["q"])]))],
                     [], JsonString(""))
            == Some((Heap([[("X", 0), ("Y", 2)], [("X", 1), ("Y", 2)]], [[Literal("p"), Literal("r")], [Literal("r")], [Literal("q")]]),
                     [("a", 0), ("b", 0)]))
  {
    var data := [("a", JsonObject([("X", ["r"]), ("Y", ["q"])]))];
    var h1 := Heap([[("X", 0)]], [[Literal("p")]]);
    var pl: seq<(string, nat)> := [("a", 0), ("b", 0)];
    assert !StartsWith("a", "$") by {
      assert "a"[..1] == "a";
    }
    assert data[0].0 == "a" && data[0].1.rows == [("X", ["r"]), ("Y", ["q"])] && data[1..] == [];
    LoadKeysUnfold(h1, pl, data, [], JsonString(""));
    ExampleSecondAdded();
  }

  /** The second key's dict, built and merged into `a`'s. */
  lemma ExampleSecondAdded()
    ensures var built := BuildDict(Heap([[("X", 0)]], [[Literal("p")]]), [], [("X", ["r"]), ("Y", ["q"])]);
            AddPrefixes(built.0, [("a", 0), ("b", 0)], built.1, Split("a", ','), "")
            == (Heap([[("X", 0), ("Y", 2)], [("X", 1), ("Y", 2)]], [[Literal("p"), Literal("r")], [Literal("r")], [Literal("q")]]),
                [("a", 0), ("b", 0)])
  {
    ExampleSplits();
    ExampleSecondBuild();
    ExampleMerge();
  }

  lemma ExampleSplits()
    ensures Split("a,b", ',') == ["a", "b"] && Split("a", ',') == ["a"]
  {
    assert IndexOf("a,b", ',') == 1;
    assert "a,b"[..1] == "a" && "a,b"[2..] == "b";
    assert IndexOf("b", ',') == 1;
    assert IndexOf("a", ',') == 1;
  }

  /** The key `"a,b"` of the example builds one dict. */
  lemma ExampleFirstBuild()
    ensures BuildDict(Heap([], []), [], [("X", ["p"])]) == (Heap([[("X", 0)]], [[Literal("p")]]), 0)
  {
    var rows0 := [("X", ["p"])];
    PlainExpansion("p");
    assert rows0[0].1 == ["p"];
    assert Put<nat>([], "X", 0) == [("X", 0)];
    assert rows0[1..] == [];
    assert BuildEntries(Heap([], []), [], rows0, []) == BuildEntries(Heap([], [[Literal("p")]]), [], rows0[1..], [("X", 0)]);
  }

  /** Both pieces of `"a,b"` get that dict. */
  lemma ExampleFirstPrefixes()
    ensures AddPrefixes(Heap([[("X", 0)]], [[Literal("p")]]), [], 0, ["a", "b"], "")
            == (Heap([[("X", 0)]], [[Literal("p")]]), [("a", 0), ("b", 0)])
  {
    var h1 := Heap([[("X", 0)]], [[Literal("p")]]);
    var pl1: seq<(string, nat)> := [("a", 0)];
    assert Find(pl1, "b") == None by {
      assert Keys(pl1) == ["a"];
    }
    var pk := "" + ["a", "b"][0];
    assert pk == "a";
    assert Find<nat>([], pk) == None;
    assert AddPrefixes(h1, [], 0, ["a", "b"], "") == AddPrefixes(h1, [] + [(pk, 0)], 0, ["a", "b"][1..], "");
    assert [] + [(pk, 0)] == pl1;
    assert ["a", "b"][1..] == ["b"];
    var pk' := "" + ["b"][0];
    assert pk' == "b";
    assert AddPrefixes(h1, pl1, 0, ["b"], "") == AddPrefixes(h1, pl1 + [(pk', 0)], 0, ["b"][1..], "");
    assert pl1 + [(pk', 0)] == [("a", 0), ("b", 0)];
  }

  /** The key `"a"` of the example builds a second dict. */
  lemma ExampleSecondBuild()
    ensures BuildDict(Heap([[("X", 0)]], [[Literal("p")]]), [], [("X", ["r"]), ("Y", ["q"])])
            == (Heap([[("X", 0)], [("X", 1), ("Y", 2)]], [[Literal("p")], [Literal("r")], [Literal("q")]]), 1)
  {
    var h := Heap([[("X", 0)]], [[Literal("p")]]);
    var rows := [("X", ["r"]), ("Y", ["q"])];
    ExampleSecondEntries();
    BuildDictUnfold(h, [], rows);
    var es: seq<(string, nat)> := [("X", 1), ("Y", 2)];
    var d0: seq<(string, nat)> := [("X", 0)];
    assert [d0] + [es] == [d0, es];
  }

  lemma ExampleSecondEntries()
    ensures BuildEntries(Heap([[("X", 0)]], [[Literal("p")]]), [], [("X", ["r"]), ("Y", ["q"])], [])
            == (Heap([[("X", 0)]], [[Literal("p")], [Literal("r")], [Literal("q")]]), [("X", 1), ("Y", 2)])
  {
    var p, q, r := Literal("p"), Literal("q"), Literal("r");
    var rows1 := [("X", ["r"]), ("Y", ["q"])];
    var h1 := Heap([[("X", 0)]], [[p]]);
    PlainExpansion("r");
    assert Put<nat>([], "X", 1) == [("X", 1)];
    var tail := rows1[1..];
    assert rows1[0].1 == ["r"];
    var h1' := Heap([[("X", 0)]], [[p], [r]]);
    assert h1' == h1.(lists := h1.lists + [ExpandPatterns([], rows1[0].1)]);
    assert BuildEntries(h1, [], rows1, []) == BuildEntries(h1', [], tail, [("X", 1)]);
    ExampleSecondEntriesTail();
  }

  lemma ExampleSecondEntriesTail()
    ensures BuildEntries(Heap([[("X", 0)]], [[Literal("p")], [Literal("r")]]), [], [("Y", ["q"])], [("X", 1)])
            == (Heap([[("X", 0)]], [[Literal("p")], [Literal("r")], [Literal("q")]]), [("X", 1), ("Y", 2)])
  {
    var p, q, r := Literal("p"), Literal("q"), Literal("r");
    var tail := [("Y", ["q"])];
    PlainExpansion("q");
    assert Put<nat>([("X", 1)], "Y", 2) == [("X", 1), ("Y", 2)] by {
      assert Keys([("X", 1)]) == ["X"];
    }
    assert tail[0].1 == ["q"] && tail[1..] == [];
    var h1' := Heap([[("X", 0)]], [[p], [r]]);
    var h1'' := Heap([[("X", 0)]], [[p], [r], [q]]);
    assert h1'' == h1'.(lists := h1'.lists + [ExpandPatterns([], tail[0].1)]);
  }

  /** `a` already exists, so the second dict is merged into the shared one. */
  lemma ExampleMerge()
    ensures AddPrefixes(Heap([[("X", 0)], [("X", 1), ("Y", 2)]], [[Literal("p")], [Literal("r")], [Literal("q")]]),
                        [("a", 0), ("b", 0)], 1, ["a"], "")
            == (Heap([[("X", 0), ("Y", 2)], [("X", 1), ("Y", 2)]], [[Literal("p"), Literal("r")], [Literal("r")], [Literal("q")]]),
                [("a", 0), ("b", 0)])
  {
    var p, q, r := Literal("p"), Literal("q"), Literal("r");
    var pl: seq<(string, nat)> := [("a", 0), ("b", 0)];
    var pk := "" + ["a"][0];
    assert pk == "a";
    assert Find(pl, pk) == Some(0);
    var h2 := Heap([[("X", 0)], [("X", 1), ("Y", 2)]], [[p], [r], [q]]);
    assert DictAt(h2, 1) == [("X", 1), ("Y", 2)];
    var h3 := Heap([[("X", 0)], [("X", 1), ("Y", 2)]], [[p, r], [r], [q]]);
    assert MergeEntry(h2, 0, "X", 1) == h3 by {
      assert AppendMissing([p], [r]) == [p, r];
    }
    var h4 := Heap([[("X", 0), ("Y", 2)], [("X", 1), ("Y", 2)]], [[p, r], [r], [q]]);
    assert MergeEntry(h3, 0, "Y", 2) == h4 by {
      assert DictAt(h3, 0) == [("X", 0)];
      assert Find([("X", 0)], "Y") == None by {
        assert Keys([("X", 0)]) == ["X"];
      }
      var grown: seq<(string, nat)> := [("X", 0)] + [("Y", 2)];
      assert grown == [("X", 0), ("Y", 2)];
      assert h3.dicts[0 := grown] == h4.dicts;
    }
    assert MergeEntries(h2, 0, [("X", 1), ("Y", 2)]) == h4 by {
      assert [("X", 1), ("Y", 2)][1..] == [("Y", 2)];
    }
    assert AddPrefixes(h2, pl, 1, ["a"], "") == AddPrefixes(h4, pl, 1, ["a"][1..], "");
  }

  /** A plain pattern entry expands to itself. */
  lemma PlainExpansion(s: string)
    requires |s| > 0 && s[0] != '/' && s[0] != '$'
    ensures ExpandPatterns([], [s]) == [Literal(s)]
  {
    ExpandSingle([], s);
    assert !StartsWith(s, "/") && !StartsWith(s, GROUP_TAG);
  }
}
