/**
 `ErrorCounter`: the number of reports in the current file and in all files
 so far, and how a run uses it: the file count is reset before each file and
 every report of that file increments it (and the total).
 */
module ErrorCounting {
  import opened Foreign
  import opened Driver

  datatype ErrorCounter = ErrorCounter(totalCount: nat, fileCount: nat)
  {
    /** The current file's errors are among all errors. */
    predicate Valid() {
      fileCount <= totalCount
    }

    /** `inc_total` */
    function IncTotal(): (c: ErrorCounter)
      ensures c.totalCount == totalCount + 1 && c.fileCount == fileCount
      ensures Valid() ==> c.Valid()
    {
      this.(totalCount := totalCount + 1)
    }

    /** `inc_file`: also counts towards the total. */
    function IncFile(): (c: ErrorCounter)
      ensures c.fileCount == fileCount + 1 && c.totalCount == totalCount + 1
      ensures Valid() ==> c.Valid()
    {
      this.(fileCount := fileCount + 1).IncTotal()
    }

    /** `reset_file`: the total is kept. */
    function ResetFile(): (c: ErrorCounter)
      ensures c.fileCount == 0 && c.totalCount == totalCount
      ensures c.Valid()
    {
      this.(fileCount := 0)
    }
  }

  const NewCounter: ErrorCounter := ErrorCounter(0, 0)

  /** One `inc_file` per report. */
  function CountReports(c: ErrorCounter, reps: seq<Report>): ErrorCounter
    decreases |reps|
  {
    if |reps| == 0 then c else CountReports(c.IncFile(), reps[1..])
  }

  /** Counting reports adds their number to both counts. */
  lemma {:induction false} CountReportsAdds(c: ErrorCounter, reps: seq<Report>)
    ensures CountReports(c, reps).fileCount == c.fileCount + |reps|
    ensures CountReports(c, reps).totalCount == c.totalCount + |reps|
    ensures c.Valid() ==> CountReports(c, reps).Valid()
    decreases |reps|
  {
    if |reps| > 0 {
      CountReportsAdds(c.IncFile(), reps[1..]);
    }
  }

  /** One file of a run: reset, then check the file with every report
      counted. */
  function CountFile(env: Env, c: ErrorCounter, text: string): ErrorCounter {
    CountReports(c.ResetFile(), CheckFile(env, text).1)
  }

  /** After a file, its count is the number of its reports, so it is zero
      exactly when `check_file` returned True; the total grows by the same
      number. */
  lemma CountFileMatchesCheck(env: Env, c: ErrorCounter, text: string)
    ensures CountFile(env, c, text).fileCount == |CheckFile(env, text).1|
    ensures CountFile(env, c, text).fileCount == 0 <==> CheckFile(env, text).0
    ensures CountFile(env, c, text).totalCount == c.totalCount + |CheckFile(env, text).1|
    ensures CountFile(env, c, text).Valid()
  {
    PassedNoReports(env, text);
    CountReportsAdds(c.ResetFile(), CheckFile(env, text).1);
  }

  /** A whole run: every file in turn. */
  function CountRun(env: Env, c: ErrorCounter, texts: seq<string>): ErrorCounter
    decreases |texts|
  {
    if |texts| == 0 then c else CountRun(env, CountFile(env, c, texts[0]), texts[1..])
  }

  /** The number of reports over all files. */
  function TotalReports(env: Env, texts: seq<string>): nat
    decreases |texts|
  {
    if |texts| == 0 then 0 else |CheckFile(env, texts[0]).1| + TotalReports(env, texts[1..])
  }

  /** After a run, the total is the number of reports over all files, so
      it is zero exactly when every file passed. */
  lemma {:induction false} CountRunTotal(env: Env, c: ErrorCounter, texts: seq<string>)
    ensures CountRun(env, c, texts).totalCount == c.totalCount + TotalReports(env, texts)
    ensures c.totalCount == 0 ==>
              (CountRun(env, c, texts).totalCount == 0 <==>
               forall k :: 0 <= k < |texts| ==> CheckFile(env, texts[k]).0)
    decreases |texts|
  {
    if |texts| > 0 {
      CountFileMatchesCheck(env, c, texts[0]);
      var c' := CountFile(env, c, texts[0]);
      CountRunTotal(env, c', texts[1..]);
      if c.totalCount == 0 {
        CountRunTotalZero(env, texts);
      }
    }
  }

  /** A file passes exactly when it has no report. */
  lemma PassedNoReports(env: Env, text: string)
    ensures CheckFile(env, text).0 <==> |CheckFile(env, text).1| == 0
  {
    CheckFileReports(env, text);
  }

  /** No reports over all files exactly when every file passed. */
  lemma {:induction false} CountRunTotalZero(env: Env, texts: seq<string>)
    ensures TotalReports(env, texts) == 0 <==> forall k :: 0 <= k < |texts| ==> CheckFile(env, texts[k]).0
    decreases |texts|
  {
    if |texts| > 0 {
      PassedNoReports(env, texts[0]);
      CountRunTotalZero(env, texts[1..]);
      assert TotalReports(env, texts) == |CheckFile(env, texts[0]).1| + TotalReports(env, texts[1..]);
      if forall k :: 0 <= k < |texts| ==> CheckFile(env, texts[k]).0 {
        forall k | 0 <= k < |texts[1..]|
          ensures CheckFile(env, texts[1..][k]).0
        {
          assert texts[1..][k] == texts[k + 1];
        }
      } else {
        var k :| 0 <= k < |texts| && !CheckFile(env, texts[k]).0;
        if k > 0 {
          assert texts[1..][k - 1] == texts[k];
        }
      }
    }
  }
}
