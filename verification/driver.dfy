/**
 `check_file`: every line goes through the normal check list, or through the
 comment check list when it starts with `#`. The first result that carries an
 exit rule ends the line (and may switch its check off for the rest of the
 file, or stop the file). Every result is reported with its line number.

 The driver is written over a `Runner`, the function that runs one check on
 one line (Python's dynamic dispatch on `check.check`). Its lemmas assume of
 the runner only what `RunCheck`, the concrete runner, is proved to do.
 */
module Driver {
  import opened Wrappers
  import opened Text
  import opened Indicators
  import opened Results
  import opened Foreign
  import opened Checks
  import opened KeyOrder

  /** What `on_found(file_path, lnr, line, resp)` receives, plus the check
      that produced it. */
  datatype Report = Report(lnr: nat, line: string, result: Result, check: CheckId)

  /** The checks applied to ordinary lines, in order. */
  const NORMAL_CHECKS: seq<CheckId> :=
    [EmptyLine, WhiteSpaceComment, WhiteSpace, Descriptor, KeyValueValidity, SignalKeyOrder,
     DataValidity, NonAscii]

  /** The checks applied to comment lines: a second, separate NonASCII check. */
  const COMMENT_CHECKS: seq<CheckId> := [NonAscii]

  /** Runs one check on one line, given the shared context and the key-order
      check's expectation; returns both, updated, and the check's result. */
  type Runner = (Context, Expectation, CheckId, nat, string) -> (Context, Expectation, Option<Result>)

  /** The concrete runner: the eight checks. */
  function RunCheck(env: Env, ctx: Context, exp: Expectation, id: CheckId, lnr: nat, line: string)
    : (out: (Context, Expectation, Option<Result>))
    ensures out.0.results == ctx.results
    ensures id != SignalKeyOrder ==> out.1 == exp
    ensures id != KeyValueValidity ==> out.0 == ctx
    ensures out.2.Some? ==> out.2.value.exitRule != EXIT_ALL_LINES
    ensures out.2.Some? && out.2.value.exitRule == EXIT_CURRENT_CHECK_FOR_ALL_LINES ==> id == SignalKeyOrder
  {
    match id
    case EmptyLine => (ctx, exp, EmptyLineCheck(line))
    case WhiteSpaceComment => (ctx, exp, WhiteSpaceCommentCheck(line))
    case WhiteSpace => (ctx, exp, WhiteSpaceCheck(line))
    case Descriptor => (ctx, exp, DescriptorCheck(lnr, line))
    case KeyValueValidity =>
      var (c, r) := KeyValueValidityCheck(env, ctx, line);
      (c, exp, r)
    case SignalKeyOrder =>
      var (e, r) := SignalKeyOrderCheck(exp, line);
      (ctx, e, r)
    case DataValidity => (ctx, exp, DataValidityCheck(env, line))
    case NonAscii => (ctx, exp, NonAsciiCheck(line))
  }

  function Dispatch(env: Env): Runner {
    (ctx: Context, exp: Expectation, id: CheckId, lnr: nat, line: string) => RunCheck(env, ctx, exp, id, lnr, line)
  }

  /** The runner never touches the stored results. */
  ghost predicate ResultsPreserved(run: Runner) {
    forall c, e, id, n, l :: run(c, e, id, n, l).0.results == c.results
  }

  /** Only the key-order check ever asks to be switched off. */
  ghost predicate OnlyOrderSwitchesOff(run: Runner) {
    forall c, e, id, n, l :: SwitchesOff(run(c, e, id, n, l).2) ==> id == SignalKeyOrder
  }

  predicate SwitchesOff(r: Option<Result>) {
    r.Some? && r.value.exitRule == EXIT_CURRENT_CHECK_FOR_ALL_LINES
  }

  lemma DispatchBehaves(env: Env)
    ensures ResultsPreserved(Dispatch(env))
    ensures OnlyOrderSwitchesOff(Dispatch(env))
  {
  }

  // ---------------------------------------------------------------- one line

  /** The outcome of one line: the shared state afterwards, the line's
      reports, and whether an exit rule stopped the whole file. */
  datatype LineOutcome = LineOutcome(ctx: Context, exp: Expectation, active: seq<bool>,
                                     reports: seq<Report>, stopAll: bool)

  /** An exit rule that ends the line. */
  predicate EndsLine(e: int) {
    e == EXIT_CURRENT_LINE || e == EXIT_ALL_LINES || e == EXIT_CURRENT_CHECK_FOR_ALL_LINES
  }

  /** The inner loop of `check_file` from the `i`-th check of `ids` on; a
      check whose flag in `active` is off is skipped. */
  function RunLine(run: Runner, ctx: Context, exp: Expectation, ids: seq<CheckId>, active: seq<bool>,
                   lnr: nat, line: string, i: nat): (o: LineOutcome)
    requires |active| == |ids| && i <= |ids|
    ensures |o.active| == |ids|
    decreases |ids| - i
  {
    if i == |ids| then LineOutcome(ctx, exp, active, [], false)
    else if !active[i] then RunLine(run, ctx, exp, ids, active, lnr, line, i + 1)
    else
      var (ctx1, exp1, r) := run(ctx, exp, ids[i], lnr, line);
      if r.None? then RunLine(run, ctx1, exp1, ids, active, lnr, line, i + 1)
      else
        var res := r.value.Update(line);
        var ctx2 := ctx1.UpdateResult(ids[i], res);
        var rep := Report(lnr, line, res, ids[i]);
        if res.exitRule == EXIT_ALL_LINES then LineOutcome(ctx2, exp1, active, [rep], true)
        else if res.exitRule == EXIT_CURRENT_LINE then LineOutcome(ctx2, exp1, active, [rep], false)
        else if res.exitRule == EXIT_CURRENT_CHECK_FOR_ALL_LINES then
          LineOutcome(ctx2, exp1, active[i := false], [rep], false)
        else
          var rest := RunLine(run, ctx2, exp1, ids, active, lnr, line, i + 1);
          rest.(reports := [rep] + rest.reports)
  }

  /** Every indicator of `r` is resolved against the line. */
  predicate Resolved(r: Result) {
    forall k :: 0 <= k < |r.indicators| ==> r.indicators[k].start != TO_END && r.indicators[k].end != TO_END
  }

  predicate AllResolved(reps: seq<Report>) {
    forall k :: 0 <= k < |reps| ==> Resolved(reps[k].result)
  }

  /** All reports carry line number `lnr` and the text `line`. */
  predicate OnLine(reps: seq<Report>, lnr: nat, line: string) {
    forall k :: 0 <= k < |reps| ==> reps[k].lnr == lnr && reps[k].line == line
  }

  /** Each report comes from a check of `ids`, at or after `i`, that is
      active. */
  predicate FromActive(reps: seq<Report>, ids: seq<CheckId>, active: seq<bool>, i: nat) {
    forall k :: 0 <= k < |reps| ==> ActiveFrom(ids, active, i, reps[k].check)
  }

  /** Check `c` sits in `ids` at or after `i` with its flag on. */
  predicate ActiveFrom(ids: seq<CheckId>, active: seq<bool>, i: nat, c: CheckId) {
    exists j :: i <= j < |ids| && j < |active| && active[j] && ids[j] == c
  }

  lemma FromActiveLower(reps: seq<Report>, ids: seq<CheckId>, active: seq<bool>, i: nat)
    requires FromActive(reps, ids, active, i + 1)
    ensures FromActive(reps, ids, active, i)
  {
    forall k | 0 <= k < |reps|
      ensures ActiveFrom(ids, active, i, reps[k].check)
    {
      assert ActiveFrom(ids, active, i + 1, reps[k].check);
      var j :| i + 1 <= j < |ids| && j < |active| && active[j] && ids[j] == reps[k].check;
      assert i <= j;
    }
  }

  /** No report but the last ends the line. */
  predicate OnlyLastEnds(reps: seq<Report>) {
    forall k :: 0 <= k < |reps| - 1 ==> !EndsLine(reps[k].result.exitRule)
  }

  /** The last report asks to stop the whole file. */
  predicate LastStops(reps: seq<Report>) {
    |reps| > 0 && reps[|reps| - 1].result.exitRule == EXIT_ALL_LINES
  }

  /** All reports of a line carry the line and its number, with every
      indicator resolved. */
  lemma {:induction false} RunLineOnLine(run: Runner, ctx: Context, exp: Expectation, ids: seq<CheckId>,
                                         active: seq<bool>, lnr: nat, line: string, i: nat)
    requires |active| == |ids| && i <= |ids|
    ensures OnLine(RunLine(run, ctx, exp, ids, active, lnr, line, i).reports, lnr, line)
    ensures AllResolved(RunLine(run, ctx, exp, ids, active, lnr, line, i).reports)
    decreases |ids| - i
  {
    var o := RunLine(run, ctx, exp, ids, active, lnr, line, i);
    if i == |ids| {
    } else if !active[i] {
      assert o == RunLine(run, ctx, exp, ids, active, lnr, line, i + 1);
      RunLineOnLine(run, ctx, exp, ids, active, lnr, line, i + 1);
    } else {
      var (ctx1, exp1, r) := run(ctx, exp, ids[i], lnr, line);
      if r.None? {
        assert o == RunLine(run, ctx1, exp1, ids, active, lnr, line, i + 1);
        RunLineOnLine(run, ctx1, exp1, ids, active, lnr, line, i + 1);
      } else {
        var res := r.value.Update(line);
        var ctx2 := ctx1.UpdateResult(ids[i], res);
        var rep := Report(lnr, line, res, ids[i]);
        assert Resolved(res);
        if !EndsLine(res.exitRule) {
          var rest := RunLine(run, ctx2, exp1, ids, active, lnr, line, i + 1);
          RunLineOnLine(run, ctx2, exp1, ids, active, lnr, line, i + 1);
          assert o.reports == [rep] + rest.reports;
          forall k | 0 < k < |o.reports|
            ensures o.reports[k].lnr == lnr && o.reports[k].line == line && Resolved(o.reports[k].result)
          {
            assert o.reports[k] == rest.reports[k - 1];
          }
        } else {
          assert o.reports == [rep];
        }
      }
    }
  }

  /** Each report of a line comes from an active check at or after `i`. */
  lemma {:induction false} RunLineFromActive(run: Runner, ctx: Context, exp: Expectation, ids: seq<CheckId>,
                                             active: seq<bool>, lnr: nat, line: string, i: nat)
    requires |active| == |ids| && i <= |ids|
    ensures FromActive(RunLine(run, ctx, exp, ids, active, lnr, line, i).reports, ids, active, i)
    decreases |ids| - i
  {
    var o := RunLine(run, ctx, exp, ids, active, lnr, line, i);
    if i == |ids| {
    } else if !active[i] {
      assert o == RunLine(run, ctx, exp, ids, active, lnr, line, i + 1);
      RunLineFromActive(run, ctx, exp, ids, active, lnr, line, i + 1);
      FromActiveLower(o.reports, ids, active, i);
    } else {
      var (ctx1, exp1, r) := run(ctx, exp, ids[i], lnr, line);
      if r.None? {
        assert o == RunLine(run, ctx1, exp1, ids, active, lnr, line, i + 1);
        RunLineFromActive(run, ctx1, exp1, ids, active, lnr, line, i + 1);
        FromActiveLower(o.reports, ids, active, i);
      } else {
        var res := r.value.Update(line);
        var ctx2 := ctx1.UpdateResult(ids[i], res);
        var rep := Report(lnr, line, res, ids[i]);
        if !EndsLine(res.exitRule) {
          var rest := RunLine(run, ctx2, exp1, ids, active, lnr, line, i + 1);
          RunLineFromActive(run, ctx2, exp1, ids, active, lnr, line, i + 1);
          assert o.reports == [rep] + rest.reports;
          forall k | 0 <= k < |o.reports|
            ensures ActiveFrom(ids, active, i, o.reports[k].check)
          {
            if k > 0 {
              assert o.reports[k] == rest.reports[k - 1];
            }
          }
        } else {
          assert o.reports == [rep];

        }
      }
    }
  }

  /** Only the last report of a line can end it, and the file stops
      exactly when that report asks for it. */
  lemma {:induction false} RunLineExits(run: Runner, ctx: Context, exp: Expectation, ids: seq<CheckId>,
                                        active: seq<bool>, lnr: nat, line: string, i: nat)
    requires |active| == |ids| && i <= |ids|
    ensures OnlyLastEnds(RunLine(run, ctx, exp, ids, active, lnr, line, i).reports)
    ensures RunLine(run, ctx, exp, ids, active, lnr, line, i).stopAll <==> LastStops(RunLine(run, ctx, exp, ids, active, lnr, line, i).reports)
    decreases |ids| - i
  {
    var o := RunLine(run, ctx, exp, ids, active, lnr, line, i);
    if i == |ids| {
    } else if !active[i] {
      assert o == RunLine(run, ctx, exp, ids, active, lnr, line, i + 1);
      RunLineExits(run, ctx, exp, ids, active, lnr, line, i + 1);
    } else {
      var (ctx1, exp1, r) := run(ctx, exp, ids[i], lnr, line);
      if r.None? {
        assert o == RunLine(run, ctx1, exp1, ids, active, lnr, line, i + 1);
        RunLineExits(run, ctx1, exp1, ids, active, lnr, line, i + 1);
      } else {
        var res := r.value.Update(line);
        var ctx2 := ctx1.UpdateResult(ids[i], res);
        var rep := Report(lnr, line, res, ids[i]);
        if !EndsLine(res.exitRule) {
          var rest := RunLine(run, ctx2, exp1, ids, active, lnr, line, i + 1);
          RunLineExits(run, ctx2, exp1, ids, active, lnr, line, i + 1);
          assert o.reports == [rep] + rest.reports;
          assert o.stopAll == rest.stopAll;
          PrependExits(rep, rest.reports);
        } else {
          assert o.reports == [rep];
        }
      }
    }
  }

  /** A report that does not end the line, put in front, leaves the
      line's ending to the reports after it. */
  lemma PrependExits(rep: Report, rest: seq<Report>)
    requires !EndsLine(rep.result.exitRule) && OnlyLastEnds(rest)
    ensures OnlyLastEnds([rep] + rest)
    ensures LastStops([rep] + rest) <==> LastStops(rest)
  {
    var reps := [rep] + rest;
    forall k | 0 < k < |reps| - 1
      ensures !EndsLine(reps[k].result.exitRule)
    {
      assert reps[k] == rest[k - 1];
    }
    if |rest| > 0 {
      assert reps[|reps| - 1] == rest[|rest| - 1];
    }
  }

  // ---------------------------------------------------------------- every result is reported

  /** One pass of the inner loop at check `i`: the context and expectation
      after it, the report it adds (none when the check is off or finds
      nothing), and whether that report ends the line. */
  function Step(run: Runner, ctx: Context, exp: Expectation, ids: seq<CheckId>, active: seq<bool>,
                lnr: nat, line: string, i: nat): (s: (Context, Expectation, seq<Report>, bool))
    requires |active| == |ids| && i < |ids|
    ensures |s.2| <= 1
    ensures |s.2| == 1 <==> active[i] && run(ctx, exp, ids[i], lnr, line).2.Some?
    ensures s.3 <==> |s.2| == 1 && EndsLine(s.2[0].result.exitRule)
  {
    if !active[i] then (ctx, exp, [], false)
    else
      var (ctx1, exp1, r) := run(ctx, exp, ids[i], lnr, line);
      if r.None? then (ctx1, exp1, [], false)
      else
        var res := r.value.Update(line);
        (ctx1.UpdateResult(ids[i], res), exp1, [Report(lnr, line, res, ids[i])], EndsLine(res.exitRule))
  }

  /** A step's report is the check's result, resolved against the line. */
  lemma StepReport(run: Runner, ctx: Context, exp: Expectation, ids: seq<CheckId>, active: seq<bool>,
                   lnr: nat, line: string, i: nat)
    requires |active| == |ids| && i < |ids| && active[i] && run(ctx, exp, ids[i], lnr, line).2.Some?
    ensures Step(run, ctx, exp, ids, active, lnr, line, i).2
            == [Report(lnr, line, run(ctx, exp, ids[i], lnr, line).2.value.Update(line), ids[i])]
  {
  }

  /** The loop at check `i` is that check's step, followed, unless the step
      ends the line, by the loop from the next check in the state the step
      leaves. So an active check that finds something is reported first,
      and a result that does not end the line lets the later checks run and
      report after it. */
  lemma RunLineStep(run: Runner, ctx: Context, exp: Expectation, ids: seq<CheckId>, active: seq<bool>,
                    lnr: nat, line: string, i: nat)
    requires |active| == |ids| && i < |ids|
    ensures var s := Step(run, ctx, exp, ids, active, lnr, line, i);
            s.3 ==> RunLine(run, ctx, exp, ids, active, lnr, line, i).reports == s.2
    ensures var s := Step(run, ctx, exp, ids, active, lnr, line, i);
            !s.3 ==> RunLine(run, ctx, exp, ids, active, lnr, line, i).reports
                     == s.2 + RunLine(run, s.0, s.1, ids, active, lnr, line, i + 1).reports
  {
    var s := Step(run, ctx, exp, ids, active, lnr, line, i);
    if |s.2| == 0 {
      assert s.2 + RunLine(run, s.0, s.1, ids, active, lnr, line, i + 1).reports
          == RunLine(run, s.0, s.1, ids, active, lnr, line, i + 1).reports;
    }
  }

  /** Where the loop stands on coming to check `j`, having started at check
      `i`: its context and expectation, or None when a check before `j`
      ended the line. */
  function Reach(run: Runner, ctx: Context, exp: Expectation, ids: seq<CheckId>, active: seq<bool>,
                 lnr: nat, line: string, i: nat, j: nat): Option<(Context, Expectation)>
    requires |active| == |ids| && i <= j <= |ids|
    decreases j - i
  {
    if i == j then Some((ctx, exp))
    else
      var s := Step(run, ctx, exp, ids, active, lnr, line, i);
      if s.3 then None else Reach(run, s.0, s.1, ids, active, lnr, line, i + 1, j)
  }

  /** Reaching check `j + 1` is reaching check `j` and taking its step
      without ending the line. */
  lemma {:induction false} ReachNext(run: Runner, ctx: Context, exp: Expectation, ids: seq<CheckId>,
                                     active: seq<bool>, lnr: nat, line: string, i: nat, j: nat)
    requires |active| == |ids| && i <= j < |ids|
    requires Reach(run, ctx, exp, ids, active, lnr, line, i, j).Some?
    ensures var (c, e) := Reach(run, ctx, exp, ids, active, lnr, line, i, j).value;
            var s := Step(run, c, e, ids, active, lnr, line, j);
            Reach(run, ctx, exp, ids, active, lnr, line, i, j + 1) == if s.3 then None else Some((s.0, s.1))
    decreases j - i
  {
    if i < j {
      var s := Step(run, ctx, exp, ids, active, lnr, line, i);
      ReachNext(run, s.0, s.1, ids, active, lnr, line, i + 1, j);
    }
  }

  /** The reports of the loop from a check it reaches are the last reports
      of the loop from where it started. */
  lemma {:induction false} RunLineReaches(run: Runner, ctx: Context, exp: Expectation, ids: seq<CheckId>,
                                          active: seq<bool>, lnr: nat, line: string, i: nat, j: nat)
    requires |active| == |ids| && i <= j <= |ids|
    requires Reach(run, ctx, exp, ids, active, lnr, line, i, j).Some?
    ensures var reached := Reach(run, ctx, exp, ids, active, lnr, line, i, j).value;
            var later := RunLine(run, reached.0, reached.1, ids, active, lnr, line, j).reports;
            var all := RunLine(run, ctx, exp, ids, active, lnr, line, i).reports;
            |later| <= |all| && all[|all| - |later|..] == later
    decreases j - i
  {
    if i < j {
      var s := Step(run, ctx, exp, ids, active, lnr, line, i);
      var reached := Reach(run, s.0, s.1, ids, active, lnr, line, i + 1, j);
      assert !s.3 && Reach(run, ctx, exp, ids, active, lnr, line, i, j) == reached;
      RunLineStep(run, ctx, exp, ids, active, lnr, line, i);
      RunLineReaches(run, s.0, s.1, ids, active, lnr, line, i + 1, j);
      SuffixAppend(s.2, RunLine(run, s.0, s.1, ids, active, lnr, line, i + 1).reports,
                   RunLine(run, reached.value.0, reached.value.1, ids, active, lnr, line, j).reports);
    } else {
      var all := RunLine(run, ctx, exp, ids, active, lnr, line, i).reports;
      assert all[|all| - |all|..] == all;
    }
  }

  /** A suffix of `b` is a suffix of `a + b`. */
  lemma SuffixAppend<T>(a: seq<T>, b: seq<T>, t: seq<T>)
    requires |t| <= |b| && b[|b| - |t|..] == t
    ensures |t| <= |a + b| && (a + b)[|a + b| - |t|..] == t
  {
    assert (a + b)[|a + b| - |t|..] == b[|b| - |t|..];
  }

  /** Every check the loop reaches, active and finding something, is
      reported on the line. */
  lemma RunLineReportsReached(run: Runner, ctx: Context, exp: Expectation, ids: seq<CheckId>,
                              active: seq<bool>, lnr: nat, line: string, i: nat, j: nat)
    requires |active| == |ids| && i <= j < |ids|
    requires Reach(run, ctx, exp, ids, active, lnr, line, i, j).Some?
    requires var (c, e) := Reach(run, ctx, exp, ids, active, lnr, line, i, j).value;
             active[j] && run(c, e, ids[j], lnr, line).2.Some?
    ensures var (c, e) := Reach(run, ctx, exp, ids, active, lnr, line, i, j).value;
            Report(lnr, line, run(c, e, ids[j], lnr, line).2.value.Update(line), ids[j])
              in RunLine(run, ctx, exp, ids, active, lnr, line, i).reports
  {
    var (c, e) := Reach(run, ctx, exp, ids, active, lnr, line, i, j).value;
    RunLineReaches(run, ctx, exp, ids, active, lnr, line, i, j);
    RunLineStep(run, c, e, ids, active, lnr, line, j);
    StepReport(run, c, e, ids, active, lnr, line, j);
    var later := RunLine(run, c, e, ids, active, lnr, line, j).reports;
    var all := RunLine(run, ctx, exp, ids, active, lnr, line, i).reports;
    assert later[0] == all[|all| - |later|];
  }

  /** Check identities that appear in strictly increasing rank. */
  predicate RankedIds(ids: seq<CheckId>) {
    forall a, b :: 0 <= a < b < |ids| ==> Rank(ids[a]) < Rank(ids[b])
  }

  /** Reports in strictly increasing rank of their checks. */
  predicate InCheckOrder(reps: seq<Report>) {
    forall k, l :: 0 <= k < l < |reps| ==> Rank(reps[k].check) < Rank(reps[l].check)
  }

  lemma ChecksRanked(line: string)
    ensures RankedIds(ChecksFor(line))
  {
  }

  /** Within one line, reports come in the order of the check list. */
  lemma {:induction false} RunLineRanked(run: Runner, ctx: Context, exp: Expectation, ids: seq<CheckId>,
                                         active: seq<bool>, lnr: nat, line: string, i: nat)
    requires |active| == |ids| && i <= |ids|
    requires RankedIds(ids)
    ensures InCheckOrder(RunLine(run, ctx, exp, ids, active, lnr, line, i).reports)
    decreases |ids| - i
  {
    if i == |ids| {
    } else if !active[i] {
      assert RunLine(run, ctx, exp, ids, active, lnr, line, i) == RunLine(run, ctx, exp, ids, active, lnr, line, i + 1);
      RunLineRanked(run, ctx, exp, ids, active, lnr, line, i + 1);
    } else {
      var (ctx1, exp1, r) := run(ctx, exp, ids[i], lnr, line);
      if r.None? {
        var o := RunLine(run, ctx, exp, ids, active, lnr, line, i);
        var o' := RunLine(run, ctx1, exp1, ids, active, lnr, line, i + 1);
        assert o == o';
        RunLineRanked(run, ctx1, exp1, ids, active, lnr, line, i + 1);
      } else {
        var res := r.value.Update(line);
        var ctx2 := ctx1.UpdateResult(ids[i], res);
        if !EndsLine(res.exitRule) {
          var rest := RunLine(run, ctx2, exp1, ids, active, lnr, line, i + 1);
          RunLineRanked(run, ctx2, exp1, ids, active, lnr, line, i + 1);
          RunLineFromActive(run, ctx2, exp1, ids, active, lnr, line, i + 1);
          assert RunLine(run, ctx, exp, ids, active, lnr, line, i).reports
              == [Report(lnr, line, res, ids[i])] + rest.reports;
          RankedCons(Report(lnr, line, res, ids[i]), rest.reports, ids, active, i);
        }
      }
    }
  }

  /** A report of check `i` put before reports of later active checks keeps
      the check order. */
  lemma RankedCons(rep: Report, rest: seq<Report>, ids: seq<CheckId>, active: seq<bool>, i: nat)
    requires |active| == |ids| && i < |ids| && RankedIds(ids) && rep.check == ids[i]
    requires InCheckOrder(rest) && FromActive(rest, ids, active, i + 1)
    ensures InCheckOrder([rep] + rest)
  {
    var reps := [rep] + rest;
    forall k, l | 0 <= k < l < |reps|
      ensures Rank(reps[k].check) < Rank(reps[l].check)
    {
      assert reps[l] == rest[l - 1];
      if k > 0 {
        assert reps[k] == rest[k - 1];
      } else {
        var j :| i + 1 <= j < |ids| && active[j] && ids[j] == rest[l - 1].check;
      }
    }
  }

  /** The set of checks that reported. */
  function Reporters(reps: seq<Report>): set<CheckId> {
    set k | 0 <= k < |reps| :: reps[k].check
  }

  lemma ReportersCons(rep: Report, rest: seq<Report>)
    ensures Reporters([rep] + rest) == {rep.check} + Reporters(rest)
  {
    var reps := [rep] + rest;
    forall c | c in Reporters(reps) ensures c in {rep.check} + Reporters(rest) {
      var k :| 0 <= k < |reps| && reps[k].check == c;
      if k > 0 {
        assert reps[k] == rest[k - 1];
      }
    }
    forall c | c in Reporters(rest) ensures c in Reporters(reps) {
      var k :| 0 <= k < |rest| && rest[k].check == c;
      assert reps[k + 1] == rest[k];
    }
    assert reps[0].check == rep.check;
  }

  /** The stored results gain exactly the checks that reported, each with
      its latest result. */
  lemma {:induction false} RunLineContext(run: Runner, ctx: Context, exp: Expectation, ids: seq<CheckId>,
                                          active: seq<bool>, lnr: nat, line: string, i: nat)
    requires |active| == |ids| && i <= |ids|
    requires ResultsPreserved(run)
    ensures var o := RunLine(run, ctx, exp, ids, active, lnr, line, i);
            o.ctx.results.Keys == ctx.results.Keys + Reporters(o.reports)
    decreases |ids| - i
  {
    if i < |ids| && active[i] {
      var (ctx1, exp1, r) := run(ctx, exp, ids[i], lnr, line);
      assert ctx1.results == ctx.results;
      if r.None? {
        RunLineContext(run, ctx1, exp1, ids, active, lnr, line, i + 1);
      } else {
        var res := r.value.Update(line);
        var ctx2 := ctx1.UpdateResult(ids[i], res);
        var rep := Report(lnr, line, res, ids[i]);
        if !EndsLine(res.exitRule) {
          RunLineContext(run, ctx2, exp1, ids, active, lnr, line, i + 1);
          var rest := RunLine(run, ctx2, exp1, ids, active, lnr, line, i + 1);
          ReportersCons(rep, rest.reports);
        } else {
          assert Reporters([rep]) == {ids[i]} by {
            assert [rep][0].check == ids[i];
          }
        }
      }
    } else if i < |ids| {
      RunLineContext(run, ctx, exp, ids, active, lnr, line, i + 1);
    }
  }

  /** Every report that switches its check off comes from the key-order
      check. */
  predicate SwitchOffsFromOrder(reps: seq<Report>) {
    forall k :: 0 <= k < |reps| && reps[k].result.exitRule == EXIT_CURRENT_CHECK_FOR_ALL_LINES
      ==> reps[k].check == SignalKeyOrder
  }

  /** The last report switches its check off. */
  predicate LastSwitchesOff(reps: seq<Report>) {
    |reps| > 0 && reps[|reps| - 1].result.exitRule == EXIT_CURRENT_CHECK_FOR_ALL_LINES
  }

  /** From `before` to `after`, the only flags that change are key-order
      flags, switched off. */
  predicate OnlyOrderOff(ids: seq<CheckId>, before: seq<bool>, after: seq<bool>) {
    forall j :: 0 <= j < |ids| && j < |before| && j < |after| && after[j] != before[j] ==>
      ids[j] == SignalKeyOrder && !after[j]
  }

  /** A report that does not switch its check off, put in front. */
  lemma PrependSwitchOffs(rep: Report, reps: seq<Report>)
    requires rep.result.exitRule != EXIT_CURRENT_CHECK_FOR_ALL_LINES
    ensures SwitchOffsFromOrder(reps) ==> SwitchOffsFromOrder([rep] + reps)
    ensures LastSwitchesOff([rep] + reps) ==> LastSwitchesOff(reps)
  {
    forall k | 0 < k < |[rep] + reps|
      ensures ([rep] + reps)[k] == reps[k - 1]
    {
    }
    if |reps| > 0 {
      assert ([rep] + reps)[|reps|] == reps[|reps| - 1];
    }
  }

  /** With a runner where only the key-order check asks to be switched off,
      only that check is ever switched off, and it is switched off when it
      asks. */
  lemma RunLineSwitchOff(run: Runner, ctx: Context, exp: Expectation, ids: seq<CheckId>,
                         active: seq<bool>, lnr: nat, line: string, i: nat)
    requires |active| == |ids| && i <= |ids|
    requires OnlyOrderSwitchesOff(run)
    ensures SwitchOffsFromOrder(RunLine(run, ctx, exp, ids, active, lnr, line, i).reports)
    ensures OnlyOrderOff(ids, active, RunLine(run, ctx, exp, ids, active, lnr, line, i).active)
    ensures LastSwitchesOff(RunLine(run, ctx, exp, ids, active, lnr, line, i).reports) ==>
              exists j :: i <= j < |ids| && ids[j] == SignalKeyOrder
                           && !RunLine(run, ctx, exp, ids, active, lnr, line, i).active[j]
  {
    RunLineSwitchOffReports(run, ctx, exp, ids, active, lnr, line, i);
    RunLineSwitchOffFlags(run, ctx, exp, ids, active, lnr, line, i);
    RunLineSwitchOffWitness(run, ctx, exp, ids, active, lnr, line, i);
  }

  /** Every switch-off report of a line comes from the key-order check. */
  lemma {:induction false} RunLineSwitchOffReports(run: Runner, ctx: Context, exp: Expectation, ids: seq<CheckId>,
                                                   active: seq<bool>, lnr: nat, line: string, i: nat)
    requires |active| == |ids| && i <= |ids|
    requires OnlyOrderSwitchesOff(run)
    ensures SwitchOffsFromOrder(RunLine(run, ctx, exp, ids, active, lnr, line, i).reports)
    decreases |ids| - i
  {
    var o := RunLine(run, ctx, exp, ids, active, lnr, line, i);
    if i == |ids| {
    } else if !active[i] {
      assert o == RunLine(run, ctx, exp, ids, active, lnr, line, i + 1);
      RunLineSwitchOffReports(run, ctx, exp, ids, active, lnr, line, i + 1);
    } else {
      var (ctx1, exp1, r) := run(ctx, exp, ids[i], lnr, line);
      if r.None? {
        assert o == RunLine(run, ctx1, exp1, ids, active, lnr, line, i + 1);
        RunLineSwitchOffReports(run, ctx1, exp1, ids, active, lnr, line, i + 1);
      } else {
        var res := r.value.Update(line);
        var ctx2 := ctx1.UpdateResult(ids[i], res);
        var rep := Report(lnr, line, res, ids[i]);
        if res.exitRule == EXIT_CURRENT_CHECK_FOR_ALL_LINES {
          assert SwitchesOff(r);
          assert o.reports == [rep];
        } else if !EndsLine(res.exitRule) {
          var rest := RunLine(run, ctx2, exp1, ids, active, lnr, line, i + 1);
          RunLineSwitchOffReports(run, ctx2, exp1, ids, active, lnr, line, i + 1);
          assert o.reports == [rep] + rest.reports;
          PrependSwitchOffs(rep, rest.reports);
        } else {
          assert o.reports == [rep];
        }
      }
    }
  }

  /** Only the key-order flag is ever switched off. */
  lemma {:induction false} RunLineSwitchOffFlags(run: Runner, ctx: Context, exp: Expectation, ids: seq<CheckId>,
                                                 active: seq<bool>, lnr: nat, line: string, i: nat)
    requires |active| == |ids| && i <= |ids|
    requires OnlyOrderSwitchesOff(run)
    ensures OnlyOrderOff(ids, active, RunLine(run, ctx, exp, ids, active, lnr, line, i).active)
    decreases |ids| - i
  {
    var o := RunLine(run, ctx, exp, ids, active, lnr, line, i);
    if i == |ids| {
    } else if !active[i] {
      assert o == RunLine(run, ctx, exp, ids, active, lnr, line, i + 1);
      RunLineSwitchOffFlags(run, ctx, exp, ids, active, lnr, line, i + 1);
    } else {
      var (ctx1, exp1, r) := run(ctx, exp, ids[i], lnr, line);
      if r.None? {
        assert o == RunLine(run, ctx1, exp1, ids, active, lnr, line, i + 1);
        RunLineSwitchOffFlags(run, ctx1, exp1, ids, active, lnr, line, i + 1);
      } else {
        var res := r.value.Update(line);
        var ctx2 := ctx1.UpdateResult(ids[i], res);
        if res.exitRule == EXIT_CURRENT_CHECK_FOR_ALL_LINES {
          assert SwitchesOff(r);
          assert o.active == active[i := false];
        } else if !EndsLine(res.exitRule) {
          assert o.active == RunLine(run, ctx2, exp1, ids, active, lnr, line, i + 1).active;
          RunLineSwitchOffFlags(run, ctx2, exp1, ids, active, lnr, line, i + 1);
        } else {
          assert o.active == active;
        }
      }
    }
  }

  /** A line whose last report switches its check off has switched off a
      key-order flag at or after `i`. */
  lemma {:induction false} RunLineSwitchOffWitness(run: Runner, ctx: Context, exp: Expectation, ids: seq<CheckId>,
                                                   active: seq<bool>, lnr: nat, line: string, i: nat)
    requires |active| == |ids| && i <= |ids|
    requires OnlyOrderSwitchesOff(run)
    ensures LastSwitchesOff(RunLine(run, ctx, exp, ids, active, lnr, line, i).reports) ==>
              exists j :: i <= j < |ids| && ids[j] == SignalKeyOrder
                           && !RunLine(run, ctx, exp, ids, active, lnr, line, i).active[j]
    decreases |ids| - i
  {
    var o := RunLine(run, ctx, exp, ids, active, lnr, line, i);
    if i == |ids| {
    } else if !active[i] {
      assert o == RunLine(run, ctx, exp, ids, active, lnr, line, i + 1);
      RunLineSwitchOffWitness(run, ctx, exp, ids, active, lnr, line, i + 1);
    } else {
      var (ctx1, exp1, r) := run(ctx, exp, ids[i], lnr, line);
      if r.None? {
        assert o == RunLine(run, ctx1, exp1, ids, active, lnr, line, i + 1);
        RunLineSwitchOffWitness(run, ctx1, exp1, ids, active, lnr, line, i + 1);
      } else {
        var res := r.value.Update(line);
        var ctx2 := ctx1.UpdateResult(ids[i], res);
        var rep := Report(lnr, line, res, ids[i]);
        if res.exitRule == EXIT_CURRENT_CHECK_FOR_ALL_LINES {
          assert SwitchesOff(r);
          assert o.active == active[i := false];
          assert ids[i] == SignalKeyOrder && !o.active[i];
        } else if !EndsLine(res.exitRule) {
          var rest := RunLine(run, ctx2, exp1, ids, active, lnr, line, i + 1);
          RunLineSwitchOffWitness(run, ctx2, exp1, ids, active, lnr, line, i + 1);
          assert o.reports == [rep] + rest.reports && o.active == rest.active;
          PrependSwitchOffs(rep, rest.reports);
          if LastSwitchesOff(o.reports) {
            var j :| i + 1 <= j < |ids| && ids[j] == SignalKeyOrder && !rest.active[j];
            assert i <= j && !o.active[j];
          }
        } else {
          assert o.reports == [rep];
        }
      }
    }
  }

  // ---------------------------------------------------------------- the file

  /** The state `check_file` keeps across lines: the context, the key-order
      check's expectation, the active flags of both check lists, and
      `did_pass`. */
  datatype State = State(ctx: Context, exp: Expectation, normalActive: seq<bool>, commentActive: seq<bool>,
                         passed: bool)
  {
    predicate Valid() {
      |normalActive| == |NORMAL_CHECKS| && |commentActive| == |COMMENT_CHECKS|
    }
  }

  /** Where the key-order check sits in the normal list. */
  const ORDER_INDEX: nat := 5

  const InitialState: State :=
    State(EmptyContext, Unset, [true, true, true, true, true, true, true, true], [true], true)

  /** A comment line, which gets the comment check list. */
  predicate IsComment(line: string) {
    StartsWith(line, "#")
  }

  /** The check list a line gets, and that list's active flags. */
  function ChecksFor(line: string): seq<CheckId> {
    if IsComment(line) then COMMENT_CHECKS else NORMAL_CHECKS
  }

  function ActiveFor(st: State, line: string): (active: seq<bool>)
    requires st.Valid()
    ensures |active| == |ChecksFor(line)|
  {
    if IsComment(line) then st.commentActive else st.normalActive
  }

  /** Line number `lnr`, `line`, through its check list. */
  function LineRun(run: Runner, st: State, lnr: nat, line: string): (o: LineOutcome)
    requires st.Valid()
    ensures |o.active| == |ChecksFor(line)|
  {
    RunLine(run, st.ctx, st.exp, ChecksFor(line), ActiveFor(st, line), lnr, line, 0)
  }

  /** The state after a line: its list's flags replaced, `did_pass` cleared
      by any report. */
  function After(st: State, line: string, o: LineOutcome): (st': State)
    requires st.Valid() && |o.active| == |ChecksFor(line)|
    ensures st'.Valid()
  {
    State(o.ctx, o.exp,
          if IsComment(line) then st.normalActive else o.active,
          if IsComment(line) then o.active else st.commentActive,
          st.passed && |o.reports| == 0)
  }

  datatype Scan = Scan(state: State, reports: seq<Report>, stopped: bool)

  /** The outer loop of `check_file` from line index `n` on (line number
      `n + 1`). */
  function ScanLines(run: Runner, st: State, lines: seq<string>, n: nat): (s: Scan)
    requires st.Valid() && n <= |lines|
    ensures s.state.Valid()
    decreases |lines| - n
  {
    if n == |lines| then Scan(st, [], false)
    else
      var o := LineRun(run, st, n + 1, lines[n]);
      var st' := After(st, lines[n], o);
      if o.stopAll then Scan(st', o.reports, true)
      else
        var rest := ScanLines(run, st', lines, n + 1);
        Scan(rest.state, o.reports + rest.reports, rest.stopped)
  }

  /** Python's `[z.strip("\n") for z in f.readlines()]` on the text of a file
      (after newline translation): each line without its newline; a last
      line without a newline counts too. */
  function ReadLines(text: string): (lines: seq<string>)
    ensures |text| > 0 <==> |lines| > 0
    decreases |text|
  {
    if |text| == 0 then []
    else
      var k := IndexOf(text, '\n');
      if k == |text| then [text] else [text[..k]] + ReadLines(text[k + 1..])
  }

  /** Whether the text ends with a newline. */
  predicate EndsWithNewline(text: string) {
    |text| > 0 && text[|text| - 1] == '\n'
  }

  /** Each line followed by a newline: what `readlines()` would read back. */
  function Unlines(lines: seq<string>): string {
    if |lines| == 0 then "" else lines[0] + "\n" + Unlines(lines[1..])
  }

  /** Reading lines loses nothing but a missing final newline: writing the
      lines back, each with its newline, gives the text, with a newline
      added when its last line had none. */
  lemma {:induction false} ReadLinesUnlines(text: string)
    ensures Unlines(ReadLines(text)) == text + (if |text| > 0 && !EndsWithNewline(text) then "\n" else "")
    decreases |text|
  {
    if |text| > 0 {
      var k := IndexOf(text, '\n');
      if k < |text| {
        var rest := text[k + 1..];
        var line := text[..k];
        var lines := ReadLines(rest);
        var tail: string := if |rest| > 0 && !EndsWithNewline(rest) then "\n" else "";
        assert ReadLines(text) == [line] + lines;
        assert ([line] + lines)[1..] == lines;
        assert Unlines([line] + lines) == (line + "\n") + Unlines(lines);
        ReadLinesUnlines(rest);
        CutAt(text, k);
        assert text == (line + "\n") + rest;
        AppendAssoc(line + "\n", rest, tail);
        if |rest| > 0 {
          assert text[|text| - 1] == rest[|rest| - 1];
        }
      } else {
        assert ReadLines(text) == [text];
        assert text[|text| - 1] != '\n';
      }
    }
  }

  /** `check_file(path, f, on_found)`: its return value and the reports
      `on_found` receives, in order. */
  function CheckFile(env: Env, text: string): (bool, seq<Report>) {
    var s := ScanLines(Dispatch(env), InitialState, ReadLines(text), 0);
    (s.state.passed, s.reports)
  }

  // ---------------------------------------------------------------- a key-value report keeps the line going

  /** `run` gives `out` for check `id` on `line`, whatever the context and
      expectation, and leaves the expectation alone. */
  ghost predicate RunsFixed(run: Runner, id: CheckId, lnr: nat, line: string, out: Option<Result>) {
    forall c, e :: run(c, e, id, lnr, line).1 == e && run(c, e, id, lnr, line).2 == out
  }

  /** `run` runs the key-order check as `SignalKeyOrderCheck` on `line`. */
  ghost predicate RunsOrder(run: Runner, lnr: nat, line: string) {
    forall c, e :: run(c, e, SignalKeyOrder, lnr, line).2 == SignalKeyOrderCheck(e, line).1
  }

  /** The checks before the key-value check read only the line. */
  lemma DispatchRunsEmptyLine(env: Env, lnr: nat, line: string)
    ensures RunsFixed(Dispatch(env), EmptyLine, lnr, line, EmptyLineCheck(line))
  {
  }

  lemma DispatchRunsCommentSpace(env: Env, lnr: nat, line: string)
    ensures RunsFixed(Dispatch(env), WhiteSpaceComment, lnr, line, WhiteSpaceCommentCheck(line))
  {
  }

  lemma DispatchRunsWhiteSpace(env: Env, lnr: nat, line: string)
    ensures RunsFixed(Dispatch(env), WhiteSpace, lnr, line, WhiteSpaceCheck(line))
  {
  }

  lemma DispatchRunsDescriptor(env: Env, lnr: nat, line: string)
    ensures RunsFixed(Dispatch(env), Descriptor, lnr, line, DescriptorCheck(lnr, line))
  {
  }

  /** The key-value verdict reads only the line: the context only records
      the key. */
  lemma DispatchRunsKeyValue(env: Env, ctx: Context, lnr: nat, line: string)
    ensures RunsFixed(Dispatch(env), KeyValueValidity, lnr, line, KeyValueValidityCheck(env, ctx, line).1)
  {
    forall c: Context, e: Expectation
      ensures Dispatch(env)(c, e, KeyValueValidity, lnr, line).1 == e
      ensures Dispatch(env)(c, e, KeyValueValidity, lnr, line).2 == KeyValueValidityCheck(env, ctx, line).1
    {
      KeyValueVerdictOwnLine(env, c, ctx, line);
    }
  }

  lemma DispatchRunsOrder(env: Env, lnr: nat, line: string)
    ensures RunsOrder(Dispatch(env), lnr, line)
  {
    forall c: Context, e: Expectation
      ensures Dispatch(env)(c, e, SignalKeyOrder, lnr, line).2 == SignalKeyOrderCheck(e, line).1
    {
      assert Dispatch(env)(c, e, SignalKeyOrder, lnr, line) == RunCheck(env, c, e, SignalKeyOrder, lnr, line);
    }
  }

  lemma DispatchRunsData(env: Env, lnr: nat, line: string)
    ensures RunsFixed(Dispatch(env), DataValidity, lnr, line, DataValidityCheck(env, line))
  {
  }

  /** A line that reaches the check at `j`, on and finding something, has
      its report; unless that report ends the line, the loop reaches the
      check at `j + 1`. */
  lemma ReportAndPass(run: Runner, ctx: Context, exp: Expectation, ids: seq<CheckId>, active: seq<bool>,
                      lnr: nat, line: string, j: nat, out: Option<Result>)
    requires |active| == |ids| && j < |ids|
    requires var r := Reach(run, ctx, exp, ids, active, lnr, line, 0, j);
             r.Some? && run(r.value.0, r.value.1, ids[j], lnr, line).2 == out
    ensures active[j] && out.Some? ==>
              Report(lnr, line, out.value.Update(line), ids[j]) in RunLine(run, ctx, exp, ids, active, lnr, line, 0).reports
    ensures !active[j] || out.None? || !EndsLine(out.value.exitRule) ==>
              Reach(run, ctx, exp, ids, active, lnr, line, 0, j + 1).Some?
  {
    if active[j] && out.Some? {
      RunLineReportsReached(run, ctx, exp, ids, active, lnr, line, 0, j);
    }
    ReachNext(run, ctx, exp, ids, active, lnr, line, 0, j);
  }

  /** Passing a check that reads only the line and does not end it: the
      loop reaches the next check with the expectation unchanged. */
  lemma PassCheck(run: Runner, ctx: Context, exp: Expectation, ids: seq<CheckId>, active: seq<bool>,
                  lnr: nat, line: string, j: nat, out: Option<Result>)
    requires |active| == |ids| && j < |ids| && RunsFixed(run, ids[j], lnr, line, out)
    requires !active[j] || out.None? || !EndsLine(out.value.exitRule)
    requires var r := Reach(run, ctx, exp, ids, active, lnr, line, 0, j);
             r.Some? && r.value.1 == exp
    ensures var r := Reach(run, ctx, exp, ids, active, lnr, line, 0, j + 1);
            r.Some? && r.value.1 == exp
  {
    ReachNext(run, ctx, exp, ids, active, lnr, line, 0, j);
  }

  /** The four checks before the key-value check, giving `blank`,
      `indent`, `space` and `header` on the line, lead to the key-value
      check with the expectation unchanged when none of them ends the line:
      the blank-line check finds nothing and the comment-indentation check
      is off or finds nothing (the other two never end a line). */
  lemma EarlyChecksPass(run: Runner, ctx: Context, exp: Expectation, active: seq<bool>, lnr: nat, line: string,
                        blank: Option<Result>, indent: Option<Result>, space: Option<Result>, header: Option<Result>)
    requires |active| == |NORMAL_CHECKS|
    requires RunsFixed(run, EmptyLine, lnr, line, blank) && blank.None?
    requires RunsFixed(run, WhiteSpaceComment, lnr, line, indent) && (!active[1] || indent.None?)
    requires RunsFixed(run, WhiteSpace, lnr, line, space) && (space.Some? ==> space.value.exitRule == EXIT_DEFAULT)
    requires RunsFixed(run, Descriptor, lnr, line, header) && (header.Some? ==> header.value.exitRule == EXIT_DEFAULT)
    ensures var r := Reach(run, ctx, exp, NORMAL_CHECKS, active, lnr, line, 0, 4);
            r.Some? && r.value.1 == exp
  {
    var ids := NORMAL_CHECKS;
    assert ids[0] == EmptyLine && ids[1] == WhiteSpaceComment && ids[2] == WhiteSpace && ids[3] == Descriptor;
    PassCheck(run, ctx, exp, ids, active, lnr, line, 0, blank);
    PassCheck(run, ctx, exp, ids, active, lnr, line, 1, indent);
    PassCheck(run, ctx, exp, ids, active, lnr, line, 2, space);
    PassCheck(run, ctx, exp, ids, active, lnr, line, 3, header);
  }

  /** A line with a colon is not blank. */
  lemma ColonLineNotEmpty(line: string)
    requires ':' in line
    ensures EmptyLineCheck(line).None?
  {
    var k :| 0 <= k < |line| && line[k] == ':';
    assert !IsSpace(line[k]);
  }

  /** On an ordinary line that reaches the key-value check, a key-value
      report that does not end the line (a missing blank after the colon,
      a malformed or unknown key) is followed by the key-order check and
      the value check, and each of them that finds something reports on
      the same line. Only a comment-indentation report, which ends the
      line, can keep the key-value check from running on a line with a
      colon, and every non-ending key-value report needs a colon. */
  lemma KeyValueKeepsLine(env: Env, st: State, lnr: nat, line: string)
    requires st.Valid() && !IsComment(line)
    requires !st.normalActive[1] || WhiteSpaceCommentCheck(line).None?
    requires st.normalActive[4]
    requires var kv := KeyValueValidityCheck(env, st.ctx, line).1;
             kv.Some? && !EndsLine(kv.value.exitRule)
    ensures var reps := LineRun(Dispatch(env), st, lnr, line).reports;
            Report(lnr, line, KeyValueValidityCheck(env, st.ctx, line).1.value.Update(line), KeyValueValidity) in reps
    ensures var reps := LineRun(Dispatch(env), st, lnr, line).reports;
            var ord := SignalKeyOrderCheck(st.exp, line).1;
            st.normalActive[ORDER_INDEX] && ord.Some? ==> Report(lnr, line, ord.value.Update(line), SignalKeyOrder) in reps
    ensures var reps := LineRun(Dispatch(env), st, lnr, line).reports;
            var ord := SignalKeyOrderCheck(st.exp, line).1;
            var data := DataValidityCheck(env, line);
            && (!st.normalActive[ORDER_INDEX] || ord.None? || !EndsLine(ord.value.exitRule))
            && st.normalActive[6] && data.Some?
            ==> Report(lnr, line, data.value.Update(line), DataValidity) in reps
  {
    var run := Dispatch(env);
    var ctx, exp, active := st.ctx, st.exp, st.normalActive;
    assert LineRun(run, st, lnr, line) == RunLine(run, ctx, exp, NORMAL_CHECKS, active, lnr, line, 0);
    assert ':' in line;
    ColonLineNotEmpty(line);
    DispatchRunsEmptyLine(env, lnr, line);
    DispatchRunsCommentSpace(env, lnr, line);
    DispatchRunsWhiteSpace(env, lnr, line);
    DispatchRunsDescriptor(env, lnr, line);
    EarlyChecksPass(run, ctx, exp, active, lnr, line,
                    EmptyLineCheck(line), WhiteSpaceCommentCheck(line), WhiteSpaceCheck(line), DescriptorCheck(lnr, line));
    DispatchRunsKeyValue(env, ctx, lnr, line);
    DispatchRunsOrder(env, lnr, line);
    DispatchRunsData(env, lnr, line);
    LaterChecksReport(run, ctx, exp, active, lnr, line, KeyValueValidityCheck(env, ctx, line).1, DataValidityCheck(env, line));
  }

  /** From the key-value check on, over a runner that runs the last checks
      as the linter does: the key-value report, then the key-order report
      when that check is on and finds something, then, unless the key-order
      report ends the line, the value report. */
  lemma LaterChecksReport(run: Runner, ctx: Context, exp: Expectation, active: seq<bool>, lnr: nat, line: string,
                          kv: Option<Result>, data: Option<Result>)
    requires |active| == |NORMAL_CHECKS| && active[4]
    requires RunsFixed(run, KeyValueValidity, lnr, line, kv) && kv.Some? && !EndsLine(kv.value.exitRule)
    requires RunsOrder(run, lnr, line) && RunsFixed(run, DataValidity, lnr, line, data)
    requires var r := Reach(run, ctx, exp, NORMAL_CHECKS, active, lnr, line, 0, 4);
             r.Some? && r.value.1 == exp
    ensures var reps := RunLine(run, ctx, exp, NORMAL_CHECKS, active, lnr, line, 0).reports;
            Report(lnr, line, kv.value.Update(line), KeyValueValidity) in reps
    ensures var reps := RunLine(run, ctx, exp, NORMAL_CHECKS, active, lnr, line, 0).reports;
            var ord := SignalKeyOrderCheck(exp, line).1;
            active[ORDER_INDEX] && ord.Some? ==> Report(lnr, line, ord.value.Update(line), SignalKeyOrder) in reps
    ensures var reps := RunLine(run, ctx, exp, NORMAL_CHECKS, active, lnr, line, 0).reports;
            var ord := SignalKeyOrderCheck(exp, line).1;
            && (!active[ORDER_INDEX] || ord.None? || !EndsLine(ord.value.exitRule))
            && active[6] && data.Some?
            ==> Report(lnr, line, data.value.Update(line), DataValidity) in reps
  {
    var ids := NORMAL_CHECKS;
    assert ids[4] == KeyValueValidity && ids[5] == SignalKeyOrder && ids[6] == DataValidity;
    var r4 := Reach(run, ctx, exp, ids, active, lnr, line, 0, 4).value;
    assert run(r4.0, r4.1, ids[4], lnr, line).2 == kv;
    ReportAndPass(run, ctx, exp, ids, active, lnr, line, 4, kv);
    PassCheck(run, ctx, exp, ids, active, lnr, line, 4, kv);
    var r5 := Reach(run, ctx, exp, ids, active, lnr, line, 0, 5).value;
    var ord := SignalKeyOrderCheck(exp, line).1;
    assert run(r5.0, r5.1, ids[5], lnr, line).2 == ord;
    ReportAndPass(run, ctx, exp, ids, active, lnr, line, 5, ord);
    if !active[ORDER_INDEX] || ord.None? || !EndsLine(ord.value.exitRule) {
      var r6 := Reach(run, ctx, exp, ids, active, lnr, line, 0, 6).value;
      assert run(r6.0, r6.1, ids[6], lnr, line).2 == data;
      ReportAndPass(run, ctx, exp, ids, active, lnr, line, 6, data);
    }
  }

  // ---------------------------------------------------------------- properties of the file loop

  /** Each report carries its own line, numbered from 1, after line `n`. */
  predicate LinesMatch(reps: seq<Report>, lines: seq<string>, n: nat) {
    forall k :: 0 <= k < |reps| ==>
      n < reps[k].lnr <= |lines| && reps[k].line == lines[reps[k].lnr - 1]
  }

  /** Reports come by line, and within a line in the order of the checks. */
  predicate Ordered(reps: seq<Report>) {
    forall k, l :: 0 <= k < l < |reps| ==>
      reps[k].lnr < reps[l].lnr || (reps[k].lnr == reps[l].lnr && Rank(reps[k].check) < Rank(reps[l].check))
  }

  /** A report that ends its line is the last of its line, and a report
      that stops the file is the last of all. */
  predicate ExitsRespected(reps: seq<Report>) {
    && (forall k, l :: 0 <= k < l < |reps| && EndsLine(reps[k].result.exitRule) ==> reps[k].lnr < reps[l].lnr)
    && (forall k :: 0 <= k < |reps| - 1 ==> reps[k].result.exitRule != EXIT_ALL_LINES)
  }

  /** Comment lines are only checked for non-ASCII characters. */
  predicate CommentsOnlyNonAscii(reps: seq<Report>) {
    forall k :: 0 <= k < |reps| && IsComment(reps[k].line) ==> reps[k].check == NonAscii
  }

  /** Once the key-order check has switched itself off, it reports nothing
      more. */
  predicate OrderSilencedAfterSwitchOff(reps: seq<Report>) {
    forall k, l :: 0 <= k < l < |reps| && reps[k].check == SignalKeyOrder
                   && reps[k].result.exitRule == EXIT_CURRENT_CHECK_FOR_ALL_LINES
      ==> reps[l].check != SignalKeyOrder
  }

  predicate NoOrderReports(reps: seq<Report>) {
    forall k :: 0 <= k < |reps| ==> reps[k].check != SignalKeyOrder
  }

  lemma NoOrderReportsAppend(a: seq<Report>, b: seq<Report>)
    requires NoOrderReports(a) && NoOrderReports(b)
    ensures NoOrderReports(a + b)
  {
    forall k | |a| <= k < |a + b| ensures (a + b)[k].check != SignalKeyOrder {
      assert (a + b)[k] == b[k - |a|];
    }
  }

  /** The report of line `n + 1` and the reports after it. */
  lemma ScanLinesStep(run: Runner, st: State, lines: seq<string>, n: nat)
    requires st.Valid() && n < |lines|
    ensures var o := LineRun(run, st, n + 1, lines[n]);
            var s := ScanLines(run, st, lines, n);
            if o.stopAll then s.reports == o.reports && s.stopped && s.state == After(st, lines[n], o)
            else && s.reports == o.reports + ScanLines(run, After(st, lines[n], o), lines, n + 1).reports
                 && s.stopped == ScanLines(run, After(st, lines[n], o), lines, n + 1).stopped
                 && s.state == ScanLines(run, After(st, lines[n], o), lines, n + 1).state
  {
  }

  // The facts about one line's reports that carry over to the reports of
  // the whole file.

  lemma OnLineMatches(a: seq<Report>, lines: seq<string>, n: nat)
    requires n < |lines| && OnLine(a, n + 1, lines[n])
    ensures LinesMatch(a, lines, n)
  {
  }

  lemma LinesMatchAppend(a: seq<Report>, b: seq<Report>, lines: seq<string>, n: nat)
    requires LinesMatch(a, lines, n) && LinesMatch(b, lines, n + 1)
    ensures LinesMatch(a + b, lines, n)
  {
    forall k | |a| <= k < |a + b|
      ensures n < (a + b)[k].lnr <= |lines| && (a + b)[k].line == lines[(a + b)[k].lnr - 1]
    {
      assert (a + b)[k] == b[k - |a|];
    }
  }

  lemma CommentsAppend(a: seq<Report>, b: seq<Report>)
    requires CommentsOnlyNonAscii(a) && CommentsOnlyNonAscii(b)
    ensures CommentsOnlyNonAscii(a + b)
  {
    forall k | |a| <= k < |a + b| && IsComment((a + b)[k].line)
      ensures (a + b)[k].check == NonAscii
    {
      assert (a + b)[k] == b[k - |a|];
    }
  }

  lemma ResolvedAppend(a: seq<Report>, b: seq<Report>)
    requires AllResolved(a) && AllResolved(b)
    ensures AllResolved(a + b)
  {
    forall k | |a| <= k < |a + b|
      ensures Resolved((a + b)[k].result)
    {
      assert (a + b)[k] == b[k - |a|];
    }
  }

  lemma OrderedAppend(a: seq<Report>, b: seq<Report>, lines: seq<string>, n: nat)
    requires n < |lines| && OnLine(a, n + 1, lines[n]) && InCheckOrder(a)
    requires Ordered(b) && LinesMatch(b, lines, n + 1)
    ensures Ordered(a + b)
  {
    forall k, l | 0 <= k < l < |a + b|
      ensures (a + b)[k].lnr < (a + b)[l].lnr
              || ((a + b)[k].lnr == (a + b)[l].lnr && Rank((a + b)[k].check) < Rank((a + b)[l].check))
    {
      if l < |a| {
        assert (a + b)[k] == a[k] && (a + b)[l] == a[l];
      } else if k < |a| {
        assert (a + b)[k] == a[k] && (a + b)[l] == b[l - |a|];
      } else {
        assert (a + b)[k] == b[k - |a|] && (a + b)[l] == b[l - |a|];
      }
    }
  }

  lemma ExitsAppend(a: seq<Report>, b: seq<Report>, lines: seq<string>, n: nat)
    requires n < |lines| && OnLine(a, n + 1, lines[n]) && OnlyLastEnds(a)
    requires |b| > 0 ==> !LastStops(a)
    requires ExitsRespected(b) && LinesMatch(b, lines, n + 1)
    ensures ExitsRespected(a + b)
  {
    forall k, l | 0 <= k < l < |a + b| && EndsLine((a + b)[k].result.exitRule)
      ensures (a + b)[k].lnr < (a + b)[l].lnr
    {
      if l < |a| {
        assert false;
      } else if k < |a| {
        assert (a + b)[k] == a[k] && (a + b)[l] == b[l - |a|];
      } else {
        assert (a + b)[k] == b[k - |a|] && (a + b)[l] == b[l - |a|];
      }
    }
    forall k | 0 <= k < |a + b| - 1
      ensures (a + b)[k].result.exitRule != EXIT_ALL_LINES
    {
      if k < |a| {
        assert (a + b)[k] == a[k];
      } else {
        assert (a + b)[k] == b[k - |a|];
      }
    }
  }

  /** Every report names its line by number and text; comment lines get
      only non-ASCII reports; every indicator is resolved. */
  lemma {:induction false} ScanLinesLines(run: Runner, st: State, lines: seq<string>, n: nat)
    requires st.Valid() && n <= |lines|
    ensures LinesMatch(ScanLines(run, st, lines, n).reports, lines, n)
    ensures CommentsOnlyNonAscii(ScanLines(run, st, lines, n).reports)
    ensures AllResolved(ScanLines(run, st, lines, n).reports)
    decreases |lines| - n
  {
    if n < |lines| {
      var line := lines[n];
      var o := LineRun(run, st, n + 1, line);
      var ids := ChecksFor(line);
      var active := ActiveFor(st, line);
      RunLineOnLine(run, st.ctx, st.exp, ids, active, n + 1, line, 0);
      RunLineFromActive(run, st.ctx, st.exp, ids, active, n + 1, line, 0);
      ScanLinesStep(run, st, lines, n);
      OnLineMatches(o.reports, lines, n);
      forall k | 0 <= k < |o.reports| && IsComment(o.reports[k].line)
        ensures o.reports[k].check == NonAscii
      {
        var j :| 0 <= j < |ids| && j < |active| && active[j] && ids[j] == o.reports[k].check;
      }
      if !o.stopAll {
        var st' := After(st, line, o);
        ScanLinesLines(run, st', lines, n + 1);
        var rest := ScanLines(run, st', lines, n + 1).reports;
        LinesMatchAppend(o.reports, rest, lines, n);
        CommentsAppend(o.reports, rest);
        ResolvedAppend(o.reports, rest);
      }
    }
  }

  /** Reports come in line order, and within a line in check order. */
  lemma {:induction false} ScanLinesOrdered(run: Runner, st: State, lines: seq<string>, n: nat)
    requires st.Valid() && n <= |lines|
    ensures Ordered(ScanLines(run, st, lines, n).reports)
    decreases |lines| - n
  {
    if n < |lines| {
      var line := lines[n];
      var o := LineRun(run, st, n + 1, line);
      var ids := ChecksFor(line);
      var active := ActiveFor(st, line);
      RunLineOnLine(run, st.ctx, st.exp, ids, active, n + 1, line, 0);
      ChecksRanked(line);
      RunLineRanked(run, st.ctx, st.exp, ids, active, n + 1, line, 0);
      ScanLinesStep(run, st, lines, n);
      if o.stopAll {
        OrderedAppend(o.reports, [], lines, n);
        assert o.reports + [] == o.reports;
      } else {
        var st' := After(st, line, o);
        ScanLinesOrdered(run, st', lines, n + 1);
        ScanLinesLines(run, st', lines, n + 1);
        OrderedAppend(o.reports, ScanLines(run, st', lines, n + 1).reports, lines, n);
      }
    }
  }

  /** A report that ends its line is the last of its line, and one that
      stops the file is the last of all. */
  lemma {:induction false} ScanLinesExits(run: Runner, st: State, lines: seq<string>, n: nat)
    requires st.Valid() && n <= |lines|
    ensures ExitsRespected(ScanLines(run, st, lines, n).reports)
    decreases |lines| - n
  {
    if n < |lines| {
      var line := lines[n];
      var o := LineRun(run, st, n + 1, line);
      var ids := ChecksFor(line);
      var active := ActiveFor(st, line);
      RunLineOnLine(run, st.ctx, st.exp, ids, active, n + 1, line, 0);
      RunLineExits(run, st.ctx, st.exp, ids, active, n + 1, line, 0);
      ScanLinesStep(run, st, lines, n);
      if o.stopAll {
        ExitsAppend(o.reports, [], lines, n);
        assert o.reports + [] == o.reports;
      } else {
        var st' := After(st, line, o);
        ScanLinesExits(run, st', lines, n + 1);
        ScanLinesLines(run, st', lines, n + 1);
        ExitsAppend(o.reports, ScanLines(run, st', lines, n + 1).reports, lines, n);
      }
    }
  }

  /** `did_pass` stays true exactly when nothing is reported, and the file
      stops early exactly after a stop-everything report. */
  lemma {:induction false} ScanLinesPassed(run: Runner, st: State, lines: seq<string>, n: nat)
    requires st.Valid() && n <= |lines|
    ensures ScanLines(run, st, lines, n).state.passed <==> st.passed && |ScanLines(run, st, lines, n).reports| == 0
    ensures ScanLines(run, st, lines, n).stopped <==> LastStops(ScanLines(run, st, lines, n).reports)
    decreases |lines| - n
  {
    if n < |lines| {
      var line := lines[n];
      var o := LineRun(run, st, n + 1, line);
      RunLineExits(run, st.ctx, st.exp, ChecksFor(line), ActiveFor(st, line), n + 1, line, 0);
      ScanLinesStep(run, st, lines, n);
      if !o.stopAll {
        var st' := After(st, line, o);
        ScanLinesPassed(run, st', lines, n + 1);
        LastStopsAppend(o.reports, ScanLines(run, st', lines, n + 1).reports);
      }
    }
  }

  /** Reports that do not stop the file, put in front, leave stopping to
      the reports after them. */
  lemma LastStopsAppend(a: seq<Report>, b: seq<Report>)
    requires !LastStops(a)
    ensures LastStops(a + b) <==> LastStops(b)
  {
    if |b| > 0 {
      assert (a + b)[|a| + |b| - 1] == b[|b| - 1];
    } else {
      assert a + b == a;
    }
  }

  /** With a runner that leaves the results alone, the stored results gain
      exactly the checks that reported. */
  lemma {:induction false} ScanLinesContext(run: Runner, st: State, lines: seq<string>, n: nat)
    requires st.Valid() && n <= |lines|
    requires ResultsPreserved(run)
    ensures ScanLines(run, st, lines, n).state.ctx.results.Keys ==
            st.ctx.results.Keys + Reporters(ScanLines(run, st, lines, n).reports)
    decreases |lines| - n
  {
    if n < |lines| {
      var line := lines[n];
      var o := LineRun(run, st, n + 1, line);
      RunLineContext(run, st.ctx, st.exp, ChecksFor(line), ActiveFor(st, line), n + 1, line, 0);
      ScanLinesStep(run, st, lines, n);
      if !o.stopAll {
        var st' := After(st, line, o);
        ScanLinesContext(run, st', lines, n + 1);
        var rest := ScanLines(run, st', lines, n + 1).reports;
        ReportersAppend(o.reports, rest);
      }
    }
  }

  lemma ReportersAppend(a: seq<Report>, b: seq<Report>)
    ensures Reporters(a + b) == Reporters(a) + Reporters(b)
  {
    forall c | c in Reporters(a + b) ensures c in Reporters(a) + Reporters(b) {
      var k :| 0 <= k < |a + b| && (a + b)[k].check == c;
      if k >= |a| {
        assert (a + b)[k] == b[k - |a|];
      }
    }
    forall c | c in Reporters(b) ensures c in Reporters(a + b) {
      var k :| 0 <= k < |b| && b[k].check == c;
      assert (a + b)[|a| + k] == b[k];
    }
    forall c | c in Reporters(a) ensures c in Reporters(a + b) {
      var k :| 0 <= k < |a| && a[k].check == c;
      assert (a + b)[k] == a[k];
    }
  }

  /** A line run with the key-order flag off reports nothing from the
      key-order check and leaves the flag off. */
  lemma OrderOffStaysQuiet(run: Runner, st: State, lnr: nat, line: string)
    requires st.Valid() && !st.normalActive[ORDER_INDEX]
    requires OnlyOrderSwitchesOff(run)
    ensures NoOrderReports(LineRun(run, st, lnr, line).reports)
    ensures !After(st, line, LineRun(run, st, lnr, line)).normalActive[ORDER_INDEX]
  {
    var ids := ChecksFor(line);
    var active := ActiveFor(st, line);
    var o := LineRun(run, st, lnr, line);
    RunLineFromActive(run, st.ctx, st.exp, ids, active, lnr, line, 0);
    RunLineSwitchOff(run, st.ctx, st.exp, ids, active, lnr, line, 0);
    forall k | 0 <= k < |o.reports| ensures o.reports[k].check != SignalKeyOrder {
      var j :| 0 <= j < |ids| && j < |active| && active[j] && ids[j] == o.reports[k].check;
    }
    if !IsComment(line) {
      assert ids[ORDER_INDEX] == SignalKeyOrder;
    }
  }

  /** With the key-order flag off, the rest of the file has no key-order
      report. */
  lemma {:induction false} ScanLinesOrderOff(run: Runner, st: State, lines: seq<string>, n: nat)
    requires st.Valid() && n <= |lines| && !st.normalActive[ORDER_INDEX]
    requires OnlyOrderSwitchesOff(run)
    ensures NoOrderReports(ScanLines(run, st, lines, n).reports)
    decreases |lines| - n
  {
    if n < |lines| {
      var o := LineRun(run, st, n + 1, lines[n]);
      OrderOffStaysQuiet(run, st, n + 1, lines[n]);
      ScanLinesStep(run, st, lines, n);
      if !o.stopAll {
        var st' := After(st, lines[n], o);
        ScanLinesOrderOff(run, st', lines, n + 1);
        NoOrderReportsAppend(o.reports, ScanLines(run, st', lines, n + 1).reports);
      }
    }
  }

  /** A line whose last report is the key-order check switching itself off
      leaves the key-order flag off. */
  lemma SwitchOffClearsFlag(run: Runner, st: State, lnr: nat, line: string)
    requires st.Valid() && OnlyOrderSwitchesOff(run)
    requires LastSwitchesOff(LineRun(run, st, lnr, line).reports)
    ensures !After(st, line, LineRun(run, st, lnr, line)).normalActive[ORDER_INDEX]
  {
    var ids := ChecksFor(line);
    RunLineSwitchOff(run, st.ctx, st.exp, ids, ActiveFor(st, line), lnr, line, 0);
    var j :| 0 <= j < |ids| && ids[j] == SignalKeyOrder && !LineRun(run, st, lnr, line).active[j];
  }

  lemma SwitchOffsAppend(a: seq<Report>, b: seq<Report>)
    requires SwitchOffsFromOrder(a) && SwitchOffsFromOrder(b)
    ensures SwitchOffsFromOrder(a + b)
  {
    forall k | |a| <= k < |a + b| && (a + b)[k].result.exitRule == EXIT_CURRENT_CHECK_FOR_ALL_LINES
      ensures (a + b)[k].check == SignalKeyOrder
    {
      assert (a + b)[k] == b[k - |a|];
    }
  }

  /** A line whose reports end with the key-order check switching off is
      followed by no key-order reports. */
  lemma SilencedAppend(a: seq<Report>, b: seq<Report>)
    requires OnlyLastEnds(a) && OrderSilencedAfterSwitchOff(b)
    requires LastSwitchesOff(a) ==> NoOrderReports(b)
    ensures OrderSilencedAfterSwitchOff(a + b)
  {
    forall k, l | 0 <= k < l < |a + b| && (a + b)[k].check == SignalKeyOrder
                  && (a + b)[k].result.exitRule == EXIT_CURRENT_CHECK_FOR_ALL_LINES
      ensures (a + b)[l].check != SignalKeyOrder
    {
      if k < |a| {
        assert (a + b)[k] == a[k];
        assert EndsLine(a[k].result.exitRule);
        assert k == |a| - 1;
        assert (a + b)[l] == b[l - |a|];
      } else {
        assert (a + b)[k] == b[k - |a|] && (a + b)[l] == b[l - |a|];
      }
    }
  }

  /** Only the key-order check switches itself off, and after it has, it
      reports nothing more. */
  lemma {:induction false} ScanLinesSwitchOff(run: Runner, st: State, lines: seq<string>, n: nat)
    requires st.Valid() && n <= |lines|
    requires OnlyOrderSwitchesOff(run)
    ensures SwitchOffsFromOrder(ScanLines(run, st, lines, n).reports)
    ensures OrderSilencedAfterSwitchOff(ScanLines(run, st, lines, n).reports)
    decreases |lines| - n
  {
    if n < |lines| {
      var line := lines[n];
      var o := LineRun(run, st, n + 1, line);
      var ids := ChecksFor(line);
      RunLineSwitchOff(run, st.ctx, st.exp, ids, ActiveFor(st, line), n + 1, line, 0);
      RunLineExits(run, st.ctx, st.exp, ids, ActiveFor(st, line), n + 1, line, 0);
      ScanLinesStep(run, st, lines, n);
      if !o.stopAll {
        var st' := After(st, line, o);
        ScanLinesSwitchOff(run, st', lines, n + 1);
        var rest := ScanLines(run, st', lines, n + 1).reports;
        if LastSwitchesOff(o.reports) {
          SwitchOffClearsFlag(run, st, n + 1, line);
          ScanLinesOrderOff(run, st', lines, n + 1);
        }
        SwitchOffsAppend(o.reports, rest);
        SilencedAppend(o.reports, rest);
      }
    }
  }

  // ---------------------------------------------------------------- every line is reached

  /** The state `check_file` holds on coming to line index `m`, having
      started at index `n`, or None when the file was stopped before it. */
  function ScanReach(run: Runner, st: State, lines: seq<string>, n: nat, m: nat): (r: Option<State>)
    requires st.Valid() && n <= m <= |lines|
    ensures r.Some? ==> r.value.Valid()
    decreases m - n
  {
    if n == m then Some(st)
    else
      var o := LineRun(run, st, n + 1, lines[n]);
      if o.stopAll then None else ScanReach(run, After(st, lines[n], o), lines, n + 1, m)
  }

  /** Every report of a line the scan reaches is among the file's reports. */
  lemma {:induction false} ScanLinesReaches(run: Runner, st: State, lines: seq<string>, n: nat, m: nat)
    requires st.Valid() && n <= m < |lines| && ScanReach(run, st, lines, n, m).Some?
    ensures forall r :: r in LineRun(run, ScanReach(run, st, lines, n, m).value, m + 1, lines[m]).reports ==>
                        r in ScanLines(run, st, lines, n).reports
    decreases m - n
  {
    ScanLinesStep(run, st, lines, n);
    if n < m {
      var o := LineRun(run, st, n + 1, lines[n]);
      ScanLinesReaches(run, After(st, lines[n], o), lines, n + 1, m);
    }
  }

  /** The runner never asks to stop the whole file. */
  ghost predicate NeverStopsFile(run: Runner) {
    forall c, e, id, n, l :: run(c, e, id, n, l).2.Some? ==> run(c, e, id, n, l).2.value.exitRule != EXIT_ALL_LINES
  }

  lemma DispatchNeverStops(env: Env)
    ensures NeverStopsFile(Dispatch(env))
  {
  }

  /** A runner that never asks to stop the file never stops a line's loop
      with `stopAll`. */
  lemma {:induction false} RunLineNeverStops(run: Runner, ctx: Context, exp: Expectation, ids: seq<CheckId>,
                                             active: seq<bool>, lnr: nat, line: string, i: nat)
    requires |active| == |ids| && i <= |ids| && NeverStopsFile(run)
    ensures !RunLine(run, ctx, exp, ids, active, lnr, line, i).stopAll
    decreases |ids| - i
  {
    if i < |ids| {
      var s := Step(run, ctx, exp, ids, active, lnr, line, i);
      RunLineNeverStops(run, s.0, s.1, ids, active, lnr, line, i + 1);
      if active[i] {
        var (ctx1, exp1, r) := run(ctx, exp, ids[i], lnr, line);
        if r.None? {
          RunLineNeverStops(run, ctx1, exp1, ids, active, lnr, line, i + 1);
        } else {
          assert r.value.Update(line).exitRule != EXIT_ALL_LINES;
        }
      } else {
        RunLineNeverStops(run, ctx, exp, ids, active, lnr, line, i + 1);
      }
    }
  }

  /** Only the key-order flag can be off. */
  predicate OthersOn(st: State) {
    && st.Valid()
    && (forall j :: 0 <= j < |st.normalActive| && j != ORDER_INDEX ==> st.normalActive[j])
    && st.commentActive[0]
  }

  /** A line keeps every flag but the key-order one on. */
  lemma AfterKeepsOthersOn(run: Runner, st: State, lnr: nat, line: string)
    requires OthersOn(st) && OnlyOrderSwitchesOff(run)
    ensures OthersOn(After(st, line, LineRun(run, st, lnr, line)))
  {
    var ids := ChecksFor(line);
    var active := ActiveFor(st, line);
    var o := LineRun(run, st, lnr, line);
    RunLineSwitchOffFlags(run, st.ctx, st.exp, ids, active, lnr, line, 0);
    if IsComment(line) {
      assert ids[0] == NonAscii;
    } else {
      forall j | 0 <= j < |o.active| && j != ORDER_INDEX ensures o.active[j] {
        assert ids[j] != SignalKeyOrder;
      }
    }
  }

  /** Under a runner that never stops the file and switches off only the
      key-order check, the scan reaches every line, with every flag but
      the key-order one still on. */
  lemma {:induction false} ScanReachesEveryLine(run: Runner, st: State, lines: seq<string>, n: nat, m: nat)
    requires OthersOn(st) && n <= m <= |lines|
    requires NeverStopsFile(run) && OnlyOrderSwitchesOff(run)
    ensures ScanReach(run, st, lines, n, m).Some?
    ensures OthersOn(ScanReach(run, st, lines, n, m).value)
    decreases m - n
  {
    if n < m {
      var line := lines[n];
      RunLineNeverStops(run, st.ctx, st.exp, ChecksFor(line), ActiveFor(st, line), n + 1, line, 0);
      AfterKeepsOthersOn(run, st, n + 1, line);
      ScanReachesEveryLine(run, After(st, line, LineRun(run, st, n + 1, line)), lines, n + 1, m);
    }
  }

  // ---------------------------------------------------------------- properties of `check_file`

  /** `check_file` returns True exactly when `on_found` was never called;
      the reports name their lines by number (from 1) and text, in line
      order and check order, and comment lines only get non-ASCII reports. */
  lemma CheckFileReports(env: Env, text: string)
    ensures var (passed, reps) := CheckFile(env, text);
            && (passed <==> |reps| == 0)
            && LinesMatch(reps, ReadLines(text), 0)
            && Ordered(reps)
            && CommentsOnlyNonAscii(reps)
            && AllResolved(reps)
  {
    ScanLinesPassed(Dispatch(env), InitialState, ReadLines(text), 0);
    ScanLinesLines(Dispatch(env), InitialState, ReadLines(text), 0);
    ScanLinesOrdered(Dispatch(env), InitialState, ReadLines(text), 0);
  }

  /** The exit rules as `check_file` applies them: a line-ending report is
      the last of its line; only the key-order check switches itself off,
      and after that it reports nothing more; the stored results hold
      exactly the checks that reported. */
  lemma CheckFileExits(env: Env, text: string)
    ensures var reps := CheckFile(env, text).1;
            && ExitsRespected(reps)
            && SwitchOffsFromOrder(reps)
            && OrderSilencedAfterSwitchOff(reps)
    ensures ScanLines(Dispatch(env), InitialState, ReadLines(text), 0).state.ctx.results.Keys ==
            Reporters(CheckFile(env, text).1)
  {
    DispatchBehaves(env);
    ScanLinesExits(Dispatch(env), InitialState, ReadLines(text), 0);
    ScanLinesSwitchOff(Dispatch(env), InitialState, ReadLines(text), 0);
    ScanLinesContext(Dispatch(env), InitialState, ReadLines(text), 0);
  }

  /** Over a whole file: on an ordinary line `m + 1` without comment
      indentation, a key-value report that does not end the line is
      followed by the key-order report, when that check is still on and
      finds something, and, unless the key-order report ends the line, by
      the value report when there is one. `check_file` reaches every line
      with every check but the key-order one on; the state it holds there,
      with the key-order expectation, is the scan's. */
  lemma CheckFileKeyValueKeepsLine(env: Env, text: string, m: nat)
    requires m < |ReadLines(text)|
    requires var line := ReadLines(text)[m];
             && !IsComment(line) && WhiteSpaceCommentCheck(line).None?
             && var kv := KeyValueValidityCheck(env, EmptyContext, line).1;
                kv.Some? && !EndsLine(kv.value.exitRule)
    ensures ScanReach(Dispatch(env), InitialState, ReadLines(text), 0, m).Some?
    ensures var line := ReadLines(text)[m];
            Report(m + 1, line, KeyValueValidityCheck(env, EmptyContext, line).1.value.Update(line), KeyValueValidity)
              in CheckFile(env, text).1
    ensures var line := ReadLines(text)[m];
            var st := ScanReach(Dispatch(env), InitialState, ReadLines(text), 0, m).value;
            var ord := SignalKeyOrderCheck(st.exp, line).1;
            st.normalActive[ORDER_INDEX] && ord.Some? ==>
              Report(m + 1, line, ord.value.Update(line), SignalKeyOrder) in CheckFile(env, text).1
    ensures var line := ReadLines(text)[m];
            var st := ScanReach(Dispatch(env), InitialState, ReadLines(text), 0, m).value;
            var ord := SignalKeyOrderCheck(st.exp, line).1;
            var data := DataValidityCheck(env, line);
            (!st.normalActive[ORDER_INDEX] || ord.None? || !EndsLine(ord.value.exitRule)) && data.Some? ==>
              Report(m + 1, line, data.value.Update(line), DataValidity) in CheckFile(env, text).1
  {
    var lines := ReadLines(text);
    DispatchReachesEveryLine(env, lines, m);
    var st := ScanReach(Dispatch(env), InitialState, lines, 0, m).value;
    ScannedKeyValue(env, lines, m, st);
    assert CheckFile(env, text).1 == ScanLines(Dispatch(env), InitialState, lines, 0).reports;
  }

  /** `check_file` reaches every line of the file. */
  lemma DispatchReachesEveryLine(env: Env, lines: seq<string>, m: nat)
    requires m <= |lines|
    ensures ScanReach(Dispatch(env), InitialState, lines, 0, m).Some?
    ensures OthersOn(ScanReach(Dispatch(env), InitialState, lines, 0, m).value)
  {
    DispatchNeverStops(env);
    DispatchBehaves(env);
    ScanReachesEveryLine(Dispatch(env), InitialState, lines, 0, m);
  }

  /** `CheckFileKeyValueKeepsLine` for the state `st` the scan reaches line
      `m + 1` in. */
  lemma ScannedKeyValue(env: Env, lines: seq<string>, m: nat, st: State)
    requires m < |lines| && ScanReach(Dispatch(env), InitialState, lines, 0, m) == Some(st) && OthersOn(st)
    requires && !IsComment(lines[m]) && WhiteSpaceCommentCheck(lines[m]).None?
             && var kv := KeyValueValidityCheck(env, EmptyContext, lines[m]).1;
                kv.Some? && !EndsLine(kv.value.exitRule)
    ensures var line := lines[m];
            Report(m + 1, line, KeyValueValidityCheck(env, EmptyContext, line).1.value.Update(line), KeyValueValidity)
              in ScanLines(Dispatch(env), InitialState, lines, 0).reports
    ensures var line := lines[m];
            var ord := SignalKeyOrderCheck(st.exp, line).1;
            st.normalActive[ORDER_INDEX] && ord.Some? ==>
              Report(m + 1, line, ord.value.Update(line), SignalKeyOrder) in ScanLines(Dispatch(env), InitialState, lines, 0).reports
    ensures var line := lines[m];
            var ord := SignalKeyOrderCheck(st.exp, line).1;
            var data := DataValidityCheck(env, line);
            (!st.normalActive[ORDER_INDEX] || ord.None? || !EndsLine(ord.value.exitRule)) && data.Some? ==>
              Report(m + 1, line, data.value.Update(line), DataValidity) in ScanLines(Dispatch(env), InitialState, lines, 0).reports
  {
    var line := lines[m];
    assert st.normalActive[1] && st.normalActive[4] && st.normalActive[6];
    KeyValueVerdictOwnLine(env, st.ctx, EmptyContext, line);
    KeyValueKeepsLine(env, st, m + 1, line);
    ScanLinesReaches(Dispatch(env), InitialState, lines, 0, m);
  }
}
