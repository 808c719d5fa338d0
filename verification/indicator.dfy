/**
 Error indicators: half-open character ranges `[start, end)` of a line, in
 which `-1` stands for "the length of the line" until `Fix` resolves it, and
 the marker array a renderer draws under the line.
 */
module Indicators {

  datatype Indicator = Indicator(start: int, end: int)

  /** The sentinel that `Fix` replaces with the line length. */
  const TO_END: int := -1

  /** `ErrorIndicator.fix`: a `-1` bound becomes `|line|`, every other bound
      is kept. */
  function Fix(ind: Indicator, line: string): (r: Indicator)
    ensures r.start != TO_END && r.end != TO_END
    ensures ind.start != TO_END ==> r.start == ind.start
    ensures ind.end != TO_END ==> r.end == ind.end
  {
    Indicator(if ind.start == TO_END then |line| else ind.start,
              if ind.end == TO_END then |line| else ind.end)
  }

  /** Resolving twice is resolving once, and a `-1` bound lands exactly on
      the end of the line. */
  lemma FixIdempotent(ind: Indicator, line: string)
    ensures Fix(Fix(ind, line), line) == Fix(ind, line)
    ensures ind.start == TO_END ==> Fix(ind, line).start == |line|
    ensures ind.end == TO_END ==> Fix(ind, line).end == |line|
  {
  }

  /** Position `i` lies in some indicator of `inds`. */
  predicate Covered(inds: seq<Indicator>, i: int) {
    exists k :: 0 <= k < |inds| && inds[k].start <= i < inds[k].end
  }

  function Max(a: int, b: int): int {
    if a < b then b else a
  }

  /** The larger of `length` and every indicator's end. */
  function MaxEnd(length: nat, inds: seq<Indicator>): nat {
    if |inds| == 0 then length
    else Max(MaxEnd(length, inds[..|inds| - 1]), inds[|inds| - 1].end)
  }

  /** Every covered position lies below `MaxEnd`. */
  lemma {:induction false} CoveredBelowMaxEnd(length: nat, inds: seq<Indicator>, j: int)
    requires Covered(inds, j)
    ensures j < MaxEnd(length, inds)
  {
    var k :| 0 <= k < |inds| && inds[k].start <= j < inds[k].end;
    if k < |inds| - 1 {
      assert inds[..|inds| - 1][k] == inds[k];
      CoveredBelowMaxEnd(length, inds[..|inds| - 1], j);
    }
  }

  /** `create_error_indicator_array(length, indicators, symbol)`: a blank row
      of `length` cells, widened to reach every indicator's end, with `symbol`
      on exactly the covered cells. */
  method CreateErrorIndicatorArray(length: nat, indicators: seq<Indicator>, symbol: char)
    returns (res: seq<char>)
    requires forall k :: 0 <= k < |indicators| ==> indicators[k].start >= 0
    ensures |res| == MaxEnd(length, indicators)
    ensures forall i :: 0 <= i < |res| ==>
              res[i] == (if Covered(indicators, i) then symbol else ' ')
  {
    res := seq(length, _ => ' ');
    var n := 0;
    while n < |indicators|
      invariant 0 <= n <= |indicators|
      invariant |res| == MaxEnd(length, indicators[..n])
      invariant forall i :: 0 <= i < |res| ==>
                  res[i] == (if Covered(indicators[..n], i) then symbol else ' ')
    {
      var ind := indicators[n];
      assert indicators[..n + 1][..n] == indicators[..n];
      if |res| <= ind.end {
        res := res + seq(ind.end - |res|, _ => ' ');
      }
      forall j | 0 <= j < |res| && Covered(indicators[..n], j)
        ensures j < MaxEnd(length, indicators[..n])
      {
        CoveredBelowMaxEnd(length, indicators[..n], j);
      }
      var i := 0;
      while i < ind.end - ind.start
        invariant 0 <= i <= Max(0, ind.end - ind.start)
        invariant |res| == MaxEnd(length, indicators[..n + 1])
        invariant forall j :: 0 <= j < |res| ==>
                    res[j] == (if Covered(indicators[..n], j) || ind.end - i <= j < ind.end
                               then symbol else ' ')
      {
        res := res[ind.end - i - 1 := symbol];
        i := i + 1;
      }
      forall j | 0 <= j < |res|
        ensures Covered(indicators[..n + 1], j) <==> Covered(indicators[..n], j) || ind.start <= j < ind.end
      {
        if Covered(indicators[..n + 1], j) {
          var k :| 0 <= k < n + 1 && indicators[..n + 1][k].start <= j < indicators[..n + 1][k].end;
          if k < n {
            assert indicators[..n][k] == indicators[..n + 1][k];
          }
        }
        if Covered(indicators[..n], j) {
          var k :| 0 <= k < n && indicators[..n][k].start <= j < indicators[..n][k].end;
          assert indicators[..n + 1][k] == indicators[..n][k];
        }
        if ind.start <= j < ind.end {
          assert indicators[..n + 1][n] == ind;
        }
      }
      n := n + 1;
    }
    assert indicators[..n] == indicators;
  }
}
