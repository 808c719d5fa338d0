/**
 What one check says about one line (`Result`), the four builders every check
 uses, the identities of the eight checks, and the per-file `Context`.
 */
module Results {
  import opened Wrappers
  import opened Indicators

  /** The exit rules a result can carry. */
  const EXIT_NONE: int := 0
  const EXIT_CURRENT_LINE: int := 1
  const EXIT_ALL_LINES: int := 2
  const EXIT_CURRENT_CHECK_FOR_ALL_LINES: int := 3
  /** The rule every builder starts from; the driver treats it like EXIT_NONE. */
  const EXIT_DEFAULT: int := -1

  datatype Result = Result(exitRule: int, indicators: seq<Indicator>, error: string,
                           suggestion: Option<string>)
  {
    /** `Result.update(line)`: every indicator resolved against the line. */
    function Update(line: string): (r: Result)
      ensures r.exitRule == exitRule && r.error == error && r.suggestion == suggestion
      ensures |r.indicators| == |indicators|
      ensures forall k :: 0 <= k < |indicators| ==> r.indicators[k] == Fix(indicators[k], line)
    {
      this.(indicators := FixAll(indicators, line))
    }

    /** `Result.with_exit_rule(e)` */
    function WithExitRule(e: int): (r: Result)
      ensures r.exitRule == e
      ensures r.indicators == indicators && r.error == error && r.suggestion == suggestion
    {
      this.(exitRule := e)
    }
  }

  function FixAll(inds: seq<Indicator>, line: string): (r: seq<Indicator>)
    ensures |r| == |inds|
    ensures forall k :: 0 <= k < |inds| ==> r[k] == Fix(inds[k], line)
  {
    if |inds| == 0 then [] else [Fix(inds[0], line)] + FixAll(inds[1..], line)
  }

  /** `multi_indicator_result` (alias `mir`) */
  function Mir(indicators: seq<Indicator>, error: string, suggestion: Option<string>): Result {
    Result(EXIT_DEFAULT, indicators, error, suggestion)
  }

  /** `single_indicator_result` (alias `sir`) */
  function Sir(from: int, to: int, error: string, suggestion: Option<string>): Result {
    Mir([Indicator(from, to)], error, suggestion)
  }

  /** `single_indicator_result_from` (alias `sirf`): from `from` to the end of the line. */
  function Sirf(from: int, error: string, suggestion: Option<string>): Result {
    Sir(from, TO_END, error, suggestion)
  }

  /** `single_indicator_result_to` (alias `sirt`): from the start of the line to `to`. */
  function Sirt(to: int, error: string, suggestion: Option<string>): Result {
    Sir(0, to, error, suggestion)
  }

  /** What the builders produce once the driver has resolved them against a
      line: every builder leaves the exit rule at -1, `Sirf` reaches the end
      of the line, `Sirt` starts at column 0. */
  lemma BuildersResolved(line: string, from: nat, to: nat, error: string, suggestion: Option<string>)
    ensures Sir(from, to, error, suggestion).Update(line).indicators == [Indicator(from, to)]
    ensures Sirf(from, error, suggestion).Update(line).indicators == [Indicator(from, |line|)]
    ensures Sirt(to, error, suggestion).Update(line).indicators == [Indicator(0, to)]
    ensures Sirf(from, error, suggestion).exitRule == EXIT_DEFAULT
    ensures Sirt(to, error, suggestion).exitRule == EXIT_DEFAULT
    ensures Sir(from, to, error, suggestion).exitRule == EXIT_DEFAULT
  {
  }

  /** The eight checks, by class. */
  datatype CheckId =
    | EmptyLine | WhiteSpaceComment | WhiteSpace | Descriptor
    | KeyValueValidity | SignalKeyOrder | DataValidity | NonAscii

  /** Position of a check in the list the driver runs on ordinary lines. */
  function Rank(id: CheckId): nat {
    match id
    case EmptyLine => 0
    case WhiteSpaceComment => 1
    case WhiteSpace => 2
    case Descriptor => 3
    case KeyValueValidity => 4
    case SignalKeyOrder => 5
    case DataValidity => 6
    case NonAscii => 7
  }

  /** `Check.ignore_if_failed()`: the checks each check declares it should be
      skipped after. The driver never consults it (see `Driver`). */
  function IgnoreIfFailed(id: CheckId): set<CheckId> {
    match id
    case WhiteSpace => {WhiteSpaceComment}
    case KeyValueValidity => {Descriptor}
    case DataValidity => {KeyValueValidity}
    case _ => {}
  }

  /** Per-file shared state: the latest result of every check that failed,
      and the last key the key-value check accepted. */
  datatype Context = Context(results: map<CheckId, Result>, lastKey: Option<string>)
  {
    /** `Context.update_result` */
    function UpdateResult(id: CheckId, r: Result): (c: Context)
      ensures c.lastKey == lastKey
      ensures c.results.Keys == results.Keys + {id}
      ensures c.results[id] == r
      ensures forall other :: other in results && other != id ==> c.results[other] == results[other]
    {
      this.(results := results[id := r])
    }

    /** `Context.did_check_fail` */
    predicate DidCheckFail(id: CheckId) {
      id in results
    }

    /** `Context.set_last_key` */
    function SetLastKey(key: string): (c: Context)
      ensures c.results == results && c.lastKey == Some(key)
    {
      this.(lastKey := Some(key))
    }
  }

  const EmptyContext: Context := Context(map[], None)
}
