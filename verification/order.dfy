/**
 The key-order check: the only check that keeps state across lines. It tracks
 which key must come next in a signal (`name`, `type`, then either
 `protocol`/`address`/`command` or `frequency`/`duty_cycle`/`data`...), and
 `Accepts` and `ValidOrder` state what sequence of keys it lets through.
 */
module KeyOrder {
  import opened Wrappers
  import opened Text
  import opened Indicators
  import opened Results

  /** The check's `expected_key`: nothing yet, one key, or a list of keys. */
  datatype Expectation = Unset | Single(key: string) | OneOf(keys: seq<string>)

  /** An entry of the order table: the next key, a choice of next keys, or a
      next key chosen by the value (for `type`). */
  datatype Rule = Goto(next: string) | GotoAny(choices: seq<string>) | ByValue(branches: seq<(string, string)>)

  /** Keys the check skips entirely. */
  const IGNORED_KEYS: seq<string> := ["Filetype", "Version"]

  /** The keys that have an order rule. */
  const ORDER_KEYS: seq<string> :=
    ["name", "type", "protocol", "address", "command", "frequency", "duty_cycle", "data"]

  /** The table `self.order`. */
  function OrderRule(key: string): (r: Option<Rule>)
    ensures r.Some? <==> key in ORDER_KEYS
  {
    if key == "name" then Some(Goto("type"))
    else if key == "type" then Some(ByValue([("parsed", "protocol"), ("raw", "frequency")]))
    else if key == "protocol" then Some(Goto("address"))
    else if key == "address" then Some(Goto("command"))
    else if key == "command" then Some(Goto("name"))
    else if key == "frequency" then Some(Goto("duty_cycle"))
    else if key == "duty_cycle" then Some(Goto("data"))
    else if key == "data" then Some(GotoAny(["data", "name"]))
    else None
  }

  /** `value in d` then `d[value]` for a dict written as an association list. */
  function Lookup(branches: seq<(string, string)>, value: string): (r: Option<string>)
    ensures r.Some? <==> exists i :: 0 <= i < |branches| && branches[i].0 == value
    ensures r.Some? ==> exists i :: 0 <= i < |branches| && branches[i] == (value, r.value)
  {
    if |branches| == 0 then None
    else if branches[0].0 == value then Some(branches[0].1)
    else
      var r := Lookup(branches[1..], value);
      if r.Some? then
        var i :| 0 <= i < |branches| - 1 && branches[1..][i] == (value, r.value);
        assert branches[i + 1] == (value, r.value);
        r
      else
        r
  }

  /** `', '.join(d.keys())` */
  function BranchKeys(branches: seq<(string, string)>): (ks: seq<string>)
    ensures |ks| == |branches|
    ensures forall i :: 0 <= i < |branches| ==> ks[i] == branches[i].0
  {
    if |branches| == 0 then [] else [branches[0].0] + BranchKeys(branches[1..])
  }

  /** `key` is what the expectation asks for; an unset expectation asks
      for `name`, where every search starts. */
  predicate Matches(e: Expectation, key: string) {
    match e
    case Unset => key == "name"
    case Single(k) => key == k
    case OneOf(ks) => key in ks
  }

  /** One accepted key-value pair: the expectation that follows it, or None
      when the check reports the pair. */
  function Step(e: Expectation, key: string, value: string): Option<Expectation> {
    match OrderRule(key)
    case None => None
    case Some(rule) =>
      if !Matches(e, key) then None
      else
        match rule
        case Goto(n) => Some(Single(n))
        case GotoAny(ns) => Some(OneOf(ns))
        case ByValue(bs) =>
          match Lookup(bs, value)
          case None => None
          case Some(n) => Some(Single(n))
  }

  /** After a key has matched: move to the key its rule names. */
  function Advance(e: Expectation, rule: Rule, value: string, valueStart: int): (Expectation, Option<Result>) {
    match rule
    case Goto(n) => (Single(n), None)
    case GotoAny(ns) => (OneOf(ns), None)
    case ByValue(bs) =>
      match Lookup(bs, value)
      case Some(n) => (Single(n), None)
      case None =>
        (e, Some(Sirf(valueStart, "[lint]: can't find next expected key in [" + Join(BranchKeys(bs), ", ") + "]", None)
                 .WithExitRule(EXIT_CURRENT_CHECK_FOR_ALL_LINES)))
  }

  /** The part of the check after the key and value are known: the rule
      must exist, the key must be the expected one, and a value-chosen rule
      must know the value. An unset expectation becomes `name` first, even
      when the key then fails. */
  function OrderResult(exp: Expectation, key: string, value: string, keyEnd: int, valueStart: int)
    : (out: (Expectation, Option<Result>))
    ensures out.1.Some? ==> out.1.value.exitRule == EXIT_CURRENT_CHECK_FOR_ALL_LINES
  {
    match OrderRule(key)
    case None =>
      (exp, Some(Sirt(keyEnd, "key has no order-rule", None).WithExitRule(EXIT_CURRENT_CHECK_FOR_ALL_LINES)))
    case Some(rule) =>
      var e := if exp.Unset? then Single("name") else exp;
      if e.OneOf? then
        if key !in e.keys then
          (e, Some(Sirt(keyEnd, "one of keys '" + Join(e.keys, ", ") + "' expected", None)
                   .WithExitRule(EXIT_CURRENT_CHECK_FOR_ALL_LINES)))
        else Advance(e, rule, value, valueStart)
      else if key != e.key then
        (e, Some(Sirt(keyEnd, "key '" + e.key + "' expected", Some(e.key + ": ..."))
                 .WithExitRule(EXIT_CURRENT_CHECK_FOR_ALL_LINES)))
      else Advance(e, rule, value, valueStart)
  }

  /** Where the value starts: after the colon and the blanks that follow it. */
  function ValueStartAfterBlanks(line: string, colon: nat): (vs: nat)
    requires colon < |line|
    ensures colon + 1 <= vs <= |line|
    ensures forall j :: colon + 1 <= j < vs ==> line[j] == ' '
    ensures vs < |line| ==> line[vs] != ' '
  {
    var n := Leading(line[colon + 1..], Blank);
    assert forall j :: colon + 1 <= j < colon + 1 + n ==> line[j] == line[colon + 1..][j - colon - 1];
    colon + 1 + n
  }

  /** `SignalKeyOrderCheck.check`: split at the first colon, strip key and
      value, skip the header keys, and check the order. */
  function SignalKeyOrderCheck(exp: Expectation, line: string): (out: (Expectation, Option<Result>))
    ensures out.1.Some? ==> out.1.value.exitRule == EXIT_DEFAULT || out.1.value.exitRule == EXIT_CURRENT_CHECK_FOR_ALL_LINES
  {
    var colon := IndexOf(line, ':');
    if colon == |line| then
      (exp, Some(Sirf(0, "cannot unpack key-value 1 > 2", None)))
    else
      var key := Strip(line[..colon]);
      var value := Strip(line[colon + 1..]);
      if key in IGNORED_KEYS then (exp, None)
      else OrderResult(exp, key, value, colon, ValueStartAfterBlanks(line, colon))
  }

  /** The check's verdict on a line with a colon and a key that is not
      skipped is `Step`'s: it passes exactly when `Step` accepts, moves to
      the expectation `Step` names, and otherwise reports with the rule that
      switches the check off. */
  lemma OrderResultIsStep(exp: Expectation, key: string, value: string, keyEnd: int, valueStart: int)
    ensures var (e', r) := OrderResult(exp, key, value, keyEnd, valueStart);
            && (r.None? <==> Step(exp, key, value).Some?)
            && (r.None? ==> e' == Step(exp, key, value).value)
            && (r.Some? ==> r.value.exitRule == EXIT_CURRENT_CHECK_FOR_ALL_LINES)
  {
  }

  /** A reported key is flagged from column 0 up to the colon, and a
      mismatch against one expected key suggests that key. */
  lemma OrderResultWrongKey(exp: Expectation, key: string, value: string, keyEnd: int, valueStart: int)
    requires key in ORDER_KEYS
    requires !Matches(exp, key)
    ensures var r := OrderResult(exp, key, value, keyEnd, valueStart).1;
            && r.Some? && r.value.indicators == [Indicator(0, keyEnd)]
            && (exp.Single? ==> r.value.suggestion == Some(exp.key + ": ..."))
            && (exp.Unset? ==> r.value.suggestion == Some("name: ..."))
  {
    if exp.Unset? {
      assert "name" + ": ..." == "name: ...";
    }
  }

  /** Lines without a colon are reported without switching the check off,
      and header keys pass without touching the expectation. */
  lemma SignalKeyOrderCheckSkips(exp: Expectation, line: string)
    ensures ':' !in line ==>
              && SignalKeyOrderCheck(exp, line).0 == exp
              && SignalKeyOrderCheck(exp, line).1.Some?
              && SignalKeyOrderCheck(exp, line).1.value.exitRule == EXIT_DEFAULT
    ensures var c := IndexOf(line, ':');
            ':' in line && Strip(line[..c]) in IGNORED_KEYS ==> SignalKeyOrderCheck(exp, line) == (exp, None)
  {
  }

  /** Every other line is judged by `OrderResult` on the stripped key and
      value, with the key flagged up to the colon. */
  lemma SignalKeyOrderCheckParses(exp: Expectation, line: string)
    requires ':' in line
    requires Strip(line[..IndexOf(line, ':')]) !in IGNORED_KEYS
    ensures var c := IndexOf(line, ':');
            SignalKeyOrderCheck(exp, line)
              == OrderResult(exp, Strip(line[..c]), Strip(line[c + 1..]), c, ValueStartAfterBlanks(line, c))
  {
  }

  // ---------------------------------------------------------------- the accepted key sequences

  /** The check run over a sequence of (stripped) key-value pairs: true when
      none is reported. */
  function Accepts(e: Expectation, kvs: seq<(string, string)>): bool
    decreases |kvs|
  {
    if |kvs| == 0 then true
    else
      match Step(e, kvs[0].0, kvs[0].1)
      case None => false
      case Some(e') => Accepts(e', kvs[1..])
  }

  /** The successions the order table allows, written out. */
  predicate Follows(key: string, value: string, next: string) {
    || (key == "name" && next == "type")
    || (key == "type" && value == "parsed" && next == "protocol")
    || (key == "type" && value == "raw" && next == "frequency")
    || (key == "protocol" && next == "address")
    || (key == "address" && next == "command")
    || (key == "command" && next == "name")
    || (key == "frequency" && next == "duty_cycle")
    || (key == "duty_cycle" && next == "data")
    || (key == "data" && (next == "data" || next == "name"))
  }

  /** A `type` must be `parsed` or `raw`; every other value is free. */
  predicate ValueOk(key: string, value: string) {
    key != "type" || value == "parsed" || value == "raw"
  }

  /** Every key has a rule, every value is acceptable, and every neighbour
      follows its predecessor. */
  predicate Chained(kvs: seq<(string, string)>) {
    && (forall i :: 0 <= i < |kvs| ==> kvs[i].0 in ORDER_KEYS && ValueOk(kvs[i].0, kvs[i].1))
    && (forall i :: 0 <= i < |kvs| - 1 ==> Follows(kvs[i].0, kvs[i].1, kvs[i + 1].0))
  }

  /** The key sequences of well-formed signal files: empty, or starting with
      `name` and chained. */
  predicate ValidOrder(kvs: seq<(string, string)>) {
    |kvs| == 0 || (kvs[0].0 == "name" && Chained(kvs))
  }

  /** `Step` accepts exactly a known key that matches, with an acceptable
      value, and then expects exactly the keys that follow it. */
  lemma StepSpec(e: Expectation, key: string, value: string)
    ensures Step(e, key, value).Some? <==> key in ORDER_KEYS && Matches(e, key) && ValueOk(key, value)
    ensures Step(e, key, value).Some? ==>
              forall n :: Matches(Step(e, key, value).value, n) <==> Follows(key, value, n)
  {
  }

  /** `Accepts` from any expectation: the first key must match it and the
      rest must be chained. */
  lemma {:induction false} AcceptsChained(e: Expectation, kvs: seq<(string, string)>)
    ensures Accepts(e, kvs) <==> |kvs| == 0 || (Matches(e, kvs[0].0) && Chained(kvs))
    decreases |kvs|
  {
    if |kvs| > 0 {
      var (k, v) := kvs[0];
      var rest := kvs[1..];
      StepSpec(e, k, v);
      match Step(e, k, v)
      case None =>
      case Some(e') =>
        AcceptsChained(e', rest);
        assert Chained(kvs) <==> Chained(rest) && (|rest| == 0 || Follows(k, v, rest[0].0))
                                 && k in ORDER_KEYS && ValueOk(k, v) by {
          if Chained(rest) && (|rest| == 0 || Follows(k, v, rest[0].0)) && k in ORDER_KEYS && ValueOk(k, v) {
            forall i | 0 <= i < |kvs| - 1
              ensures Follows(kvs[i].0, kvs[i].1, kvs[i + 1].0)
            {
              if i > 0 {
                assert kvs[i] == rest[i - 1] && kvs[i + 1] == rest[i];
              }
            }
            forall i | 0 <= i < |kvs|
              ensures kvs[i].0 in ORDER_KEYS && ValueOk(kvs[i].0, kvs[i].1)
            {
              if i > 0 {
                assert kvs[i] == rest[i - 1];
              }
            }
          }
          if Chained(kvs) {
            forall i | 0 <= i < |rest| - 1
              ensures Follows(rest[i].0, rest[i].1, rest[i + 1].0)
            {
              assert kvs[i + 1] == rest[i] && kvs[i + 2] == rest[i + 1];
            }
            forall i | 0 <= i < |rest|
              ensures rest[i].0 in ORDER_KEYS && ValueOk(rest[i].0, rest[i].1)
            {
              assert kvs[i + 1] == rest[i];
            }
          }
        }
    }
  }

  /** The check, started fresh, lets a sequence of key-value pairs through
      exactly when it is a valid signal order. */
  lemma AcceptsIffValidOrder(kvs: seq<(string, string)>)
    ensures Accepts(Unset, kvs) <==> ValidOrder(kvs)
  {
    AcceptsChained(Unset, kvs);
  }

  /** A raw signal in the documented order is valid; one whose `type` is
      neither `parsed` nor `raw` is not. */
  lemma OrderExamples()
    ensures ValidOrder([("name", "Off"), ("type", "raw"), ("frequency", "38000"),
                        ("duty_cycle", "0.33"), ("data", "100 200"), ("data", "300")])
    ensures !ValidOrder([("name", "Off"), ("type", "other")])
  {
    var kvs := [("name", "Off"), ("type", "raw"), ("frequency", "38000"),
                ("duty_cycle", "0.33"), ("data", "100 200"), ("data", "300")];
    assert Follows("name", "Off", "type") && Follows("type", "raw", "frequency");
    assert Follows("frequency", "38000", "duty_cycle") && Follows("duty_cycle", "0.33", "data");
    assert Follows("data", "100 200", "data");
    assert forall i :: 0 <= i < |kvs| - 1 ==> Follows(kvs[i].0, kvs[i].1, kvs[i + 1].0);
    assert !ValueOk([("name", "Off"), ("type", "other")][1].0, "other");
  }
}
