/**
 * The three read-only queries over the poll table: the highest single result
 * and who holds it (`highest_polling_candidate`), the mean result over
 * likely-voter polls (`likely_voter_polling_average`) and the change between
 * the mean of the latest and of the earliest polls
 * (`polling_history_change`). Results are exact reals.
 */
module Aggregates {
  import opened Polls

  // ---------------------------------------------------------------------------
  // Sums and means
  // ---------------------------------------------------------------------------

  /** The sum of one candidate's results over some rows. */
  function Total(rows: Table, c: Candidate): real
  {
    if rows == [] then 0.0 else Total(rows[..|rows| - 1], c) + ResultOf(rows[|rows| - 1], c)
  }

  /** Summing is additive over concatenation. */
  lemma {:induction false} TotalAppend(a: Table, b: Table, c: Candidate)
    ensures Total(a + b, c) == Total(a, c) + Total(b, c)
    decreases |b|
  {
    if b != [] {
      assert (a + b)[..|a + b| - 1] == a + b[..|b| - 1];
      TotalAppend(a, b[..|b| - 1], c);
    } else {
      assert a + b == a;
    }
  }

  /** `n` copies of `x` added up. */
  function Repeat(n: nat, x: real): real
  {
    if n == 0 then 0.0 else Repeat(n - 1, x) + x
  }

  /** Adding up `n` copies of `x` is multiplying `x` by `n`. */
  lemma {:induction false} RepeatIsProduct(n: nat, x: real)
    ensures Repeat(n, x) == n as real * x
  {
    if n > 0 {
      RepeatIsProduct(n - 1, x);
      assert n as real * x == (n - 1) as real * x + x;
    }
  }

  /** If every result lies in `[lo, hi]`, the sum lies between `|rows|` copies of `lo` and `|rows|` copies of `hi`. */
  lemma {:induction false} TotalWithin(rows: Table, c: Candidate, lo: real, hi: real)
    requires forall i :: 0 <= i < |rows| ==> lo <= ResultOf(rows[i], c) <= hi
    ensures Repeat(|rows|, lo) <= Total(rows, c) <= Repeat(|rows|, hi)
  {
    if rows != [] {
      var init := rows[..|rows| - 1];
      assert forall i :: 0 <= i < |init| ==> init[i] == rows[i];
      TotalWithin(init, c, lo, hi);
    }
  }

  /** If every result lies in `[lo, hi]`, the sum lies between `|rows| * lo` and `|rows| * hi`. */
  lemma TotalBounds(rows: Table, c: Candidate, lo: real, hi: real)
    requires forall i :: 0 <= i < |rows| ==> lo <= ResultOf(rows[i], c) <= hi
    ensures |rows| as real * lo <= Total(rows, c) <= |rows| as real * hi
  {
    TotalWithin(rows, c, lo, hi);
    RepeatIsProduct(|rows|, lo);
    RepeatIsProduct(|rows|, hi);
  }

  /** Dividing by a positive count and multiplying back gives the total again. */
  lemma MeanTimesCount(total: real, n: real)
    requires n > 0.0
    ensures (total / n) * n == total
  {
  }

  /** Appending a row adds its result to the sum. */
  lemma {:induction false} TotalSnoc(rows: Table, r: Row, c: Candidate)
    ensures Total(rows + [r], c) == Total(rows, c) + ResultOf(r, c)
  {
    assert (rows + [r])[..|rows|] == rows;
  }

  /** The arithmetic mean of one candidate's results over some rows. */
  function Mean(rows: Table, c: Candidate): real
    requires |rows| > 0
  {
    Total(rows, c) / |rows| as real
  }

  // ---------------------------------------------------------------------------
  // highest_polling_candidate
  // ---------------------------------------------------------------------------

  /**
   * The largest of one candidate's results, or 0.0 when none is larger: the
   * program's scan starts from 0.0, so negative results never show.
   */
  function MaxResult(rows: Table, c: Candidate): (m: real)
    ensures m >= 0.0
    ensures forall i :: 0 <= i < |rows| ==> ResultOf(rows[i], c) <= m
    ensures m == 0.0 || exists i :: 0 <= i < |rows| && ResultOf(rows[i], c) == m
  {
    if rows == [] then 0.0
    else
      var init := rows[..|rows| - 1];
      var m := MaxResult(init, c);
      var v := ResultOf(rows[|rows| - 1], c);
      assert forall i :: 0 <= i < |init| ==> init[i] == rows[i];
      if v > m then v else m
  }

  /** The verdict of `highest_polling_candidate`: a tie, or the candidate with the highest single result. */
  datatype Label = Even | Leads(candidate: Candidate)

  /** Some Harris result is positive and beats every Trump result. */
  predicate HarrisBeatsAll(t: Table)
  {
    exists i :: 0 <= i < |t| && t[i].harris > 0.0 && forall j :: 0 <= j < |t| ==> t[j].trump < t[i].harris
  }

  /** Some Trump result is positive and beats every Harris result. */
  predicate TrumpBeatsAll(t: Table)
  {
    exists i :: 0 <= i < |t| && t[i].trump > 0.0 && forall j :: 0 <= j < |t| ==> t[j].harris < t[i].trump
  }

  /**
   * The highest single result and its holder. An empty table gives
   * `(Even, 0.0)`. Otherwise the value is the largest of 0.0 and every result
   * in the table; Harris is named exactly when one of his results is positive
   * and beats every Trump result, Trump symmetrically, and `Even` otherwise; a
   * named candidate's value is one of that candidate's results.
   */
  function Highest(t: Table): (r: (Label, real))
    ensures |t| == 0 ==> r == (Even, 0.0)
    ensures r.1 >= 0.0
    ensures forall i :: 0 <= i < |t| ==> t[i].harris <= r.1 && t[i].trump <= r.1
    ensures r.1 == 0.0 || exists i :: 0 <= i < |t| && (t[i].harris == r.1 || t[i].trump == r.1)
    ensures r.0 == Leads(Harris) <==> HarrisBeatsAll(t)
    ensures r.0 == Leads(Trump) <==> TrumpBeatsAll(t)
    ensures r.0 == Leads(Harris) ==> exists i :: 0 <= i < |t| && t[i].harris == r.1
    ensures r.0 == Leads(Trump) ==> exists i :: 0 <= i < |t| && t[i].trump == r.1
  {
    if |t| == 0 then (Even, 0.0)
    else
      var hMax := MaxResult(t, Harris);
      var tMax := MaxResult(t, Trump);
      HighestHarris(t, hMax, tMax);
      HighestHarris(SwapCandidates(t), tMax, hMax);
      if hMax == tMax then (Even, hMax)
      else if hMax > tMax then (Leads(Harris), hMax)
      else (Leads(Trump), tMax)
  }

  /** Harris's maximum exceeds Trump's exactly when some positive Harris result beats every Trump result. */
  lemma {:induction false} HighestHarris(t: Table, hMax: real, tMax: real)
    requires hMax == MaxResult(t, Harris) && tMax == MaxResult(t, Trump)
    ensures hMax > tMax <==> HarrisBeatsAll(t)
    ensures MaxResult(SwapCandidates(t), Harris) == tMax && MaxResult(SwapCandidates(t), Trump) == hMax
    ensures HarrisBeatsAll(SwapCandidates(t)) <==> TrumpBeatsAll(t)
  {
    if hMax > tMax {
      var i :| 0 <= i < |t| && t[i].harris == hMax;
      assert t[i].harris > 0.0 && forall j :: 0 <= j < |t| ==> t[j].trump < t[i].harris;
    }
    if HarrisBeatsAll(t) {
      var i :| 0 <= i < |t| && t[i].harris > 0.0 && forall j :: 0 <= j < |t| ==> t[j].trump < t[i].harris;
      assert hMax >= t[i].harris;
    }
    SwapMax(t);
  }

  /** The table with the two candidates' results exchanged in every row. */
  function SwapCandidates(t: Table): (u: Table)
    ensures |u| == |t|
    ensures forall i :: 0 <= i < |t| ==> u[i].harris == t[i].trump && u[i].trump == t[i].harris
  {
    seq(|t|, i requires 0 <= i < |t| => t[i].(harris := t[i].trump, trump := t[i].harris))
  }

  lemma {:induction false} SwapMax(t: Table)
    ensures MaxResult(SwapCandidates(t), Harris) == MaxResult(t, Trump)
    ensures MaxResult(SwapCandidates(t), Trump) == MaxResult(t, Harris)
    decreases |t|
  {
    if t != [] {
      var init := t[..|t| - 1];
      assert SwapCandidates(t)[..|t| - 1] == SwapCandidates(init);
      SwapMax(init);
    }
  }

  /** One more step of the scan: the maximum so far is replaced when the next result exceeds it. */
  lemma {:induction false} MaxResultSnoc(t: Table, i: nat, c: Candidate)
    requires i < |t|
    ensures MaxResult(t[..i + 1], c) ==
      if ResultOf(t[i], c) > MaxResult(t[..i], c) then ResultOf(t[i], c) else MaxResult(t[..i], c)
  {
    assert t[..i + 1][..i] == t[..i];
  }

  /** A positive Harris result that no other result reaches or beats is the verdict and the value. */
  lemma HarrisLeader(t: Table, i: nat)
    requires i < |t| && t[i].harris > 0.0
    requires forall j :: 0 <= j < |t| ==> t[j].harris <= t[i].harris && t[j].trump < t[i].harris
    ensures Highest(t) == (Leads(Harris), t[i].harris)
  {
    var r := Highest(t);
    assert r.0 == Leads(Harris) by {
      assert HarrisBeatsAll(t);
    }
    assert r.1 <= t[i].harris by {
      var k :| 0 <= k < |t| && t[k].harris == r.1;
      assert t[k].harris <= t[i].harris;
    }
    assert r.1 >= t[i].harris;
  }

  /**
   * A tie: a Harris result equal to a Trump result that no result exceeds
   * gives `Even` and that value, or 0.0 when the tied value is not positive.
   */
  lemma Tie(t: Table, i: nat, j: nat)
    requires i < |t| && j < |t| && t[i].harris == t[j].trump
    requires forall k :: 0 <= k < |t| ==> t[k].harris <= t[i].harris && t[k].trump <= t[i].harris
    ensures Highest(t) == (Even, if t[i].harris > 0.0 then t[i].harris else 0.0)
  {
    var v := t[i].harris;
    var r := Highest(t);
    assert r.0 == Even by {
      assert !HarrisBeatsAll(t);
      assert !TrumpBeatsAll(t);
    }
    assert r.1 == 0.0 || r.1 <= v by {
      if r.1 != 0.0 {
        var k :| 0 <= k < |t| && (t[k].harris == r.1 || t[k].trump == r.1);
      }
    }
    TopValue(r.1, v);
  }

  /** A value at least 0.0 and `v`, and either 0.0 or at most `v`, is the larger of 0.0 and `v`. */
  lemma TopValue(x: real, v: real)
    requires x >= 0.0 && x >= v && (x == 0.0 || x <= v)
    ensures x == if v > 0.0 then v else 0.0
  {
  }

  /** The program's two scans, each starting from 0.0, followed by the three-way comparison. */
  method HighestPollingCandidate(t: Table) returns (verdict: Label, value: real)
    ensures (verdict, value) == Highest(t)
  {
    if |t| == 0 {
      return Even, 0.0;
    }
    var hMax := MaxOf(t, Harris);
    var tMax := MaxOf(t, Trump);
    if hMax == tMax {
      verdict, value := Even, hMax;
    } else if hMax > tMax {
      verdict, value := Leads(Harris), hMax;
    } else {
      verdict, value := Leads(Trump), tMax;
    }
  }

  /** One of the program's two maximum loops: the running maximum of a result column, starting from 0.0. */
  method MaxOf(t: Table, c: Candidate) returns (m: real)
    ensures m == MaxResult(t, c)
  {
    m := 0.0;
    var i := 0;
    while i < |t|
      invariant 0 <= i <= |t|
      invariant m == MaxResult(t[..i], c)
    {
      MaxResultSnoc(t, i, c);
      if ResultOf(t[i], c) > m {
        m := ResultOf(t[i], c);
      }
      i := i + 1;
    }
    assert t[..|t|] == t;
  }

  // ---------------------------------------------------------------------------
  // likely_voter_polling_average
  // ---------------------------------------------------------------------------

  /** The likely-voter rows of a table, in table order. */
  function LikelyRows(t: Table): (lv: Table)
    ensures |lv| <= |t|
    ensures forall i :: 0 <= i < |lv| ==> lv[i].sampleType == LikelyVoter
  {
    if t == [] then []
    else
      var lv := LikelyRows(t[..|t| - 1]);
      if t[|t| - 1].sampleType == LikelyVoter then lv + [t[|t| - 1]] else lv
  }

  /** The likely-voter rows are rows of the table, and every row typed exactly "LV" is among them. */
  lemma {:induction false} LikelyRowsMembers(t: Table)
    ensures forall x :: x in LikelyRows(t) ==> x in t
    ensures forall i :: 0 <= i < |t| && t[i].sampleType == LikelyVoter ==> t[i] in LikelyRows(t)
    decreases |t|
  {
    if t != [] {
      var init := t[..|t| - 1];
      LikelyRowsMembers(init);
      assert forall i :: 0 <= i < |init| ==> init[i] == t[i];
      assert forall x :: x in init ==> x in t;
    }
  }

  /** The indices, in increasing order, of the rows typed exactly "LV": each such row's index occurs once. */
  function LikelyIndices(t: Table): (ix: seq<nat>)
    ensures forall j :: 0 <= j < |ix| ==> ix[j] < |t| && t[ix[j]].sampleType == LikelyVoter
    ensures forall j, k :: 0 <= j < k < |ix| ==> ix[j] < ix[k]
    ensures forall i :: 0 <= i < |t| && t[i].sampleType == LikelyVoter ==> i in ix
  {
    if t == [] then []
    else
      var init := t[..|t| - 1];
      var ix := LikelyIndices(init);
      assert forall i :: 0 <= i < |init| ==> init[i] == t[i];
      if t[|t| - 1].sampleType == LikelyVoter then ix + [|t| - 1] else ix
  }

  /**
   * The likely-voter rows are exactly the rows at the likely-voter indices, in
   * order: one entry per row typed "LV", duplicates included.
   */
  lemma {:induction false} LikelyRowsAt(t: Table)
    ensures |LikelyRows(t)| == |LikelyIndices(t)|
    ensures forall j :: 0 <= j < |LikelyRows(t)| ==> LikelyRows(t)[j] == t[LikelyIndices(t)[j]]
    decreases |t|
  {
    if t != [] {
      var init := t[..|t| - 1];
      LikelyRowsAt(init);
      assert forall i :: 0 <= i < |init| ==> init[i] == t[i];
    }
  }

  /** Extending the table by one row extends its likely-voter rows by that row exactly when it is typed "LV". */
  lemma {:induction false} LikelyRowsSnoc(t: Table, i: nat)
    requires i < |t|
    ensures t[i].sampleType == LikelyVoter ==> LikelyRows(t[..i + 1]) == LikelyRows(t[..i]) + [t[i]]
    ensures t[i].sampleType != LikelyVoter ==> LikelyRows(t[..i + 1]) == LikelyRows(t[..i])
  {
    assert t[..i + 1][..i] == t[..i];
  }

  /**
   * Each candidate's mean result over the likely-voter rows; `(0.0, 0.0)` when
   * there is none. Multiplying a mean back by the number of likely-voter rows
   * gives the candidate's total over those rows.
   */
  function LikelyVoterAverage(t: Table): (r: (real, real))
    ensures LikelyRows(t) == [] ==> r == (0.0, 0.0)
    ensures LikelyRows(t) != [] ==>
      && r.0 * |LikelyRows(t)| as real == Total(LikelyRows(t), Harris)
      && r.1 * |LikelyRows(t)| as real == Total(LikelyRows(t), Trump)
  {
    var lv := LikelyRows(t);
    if lv == [] then (0.0, 0.0)
    else
      MeanTimesCount(Total(lv, Harris), |lv| as real);
      MeanTimesCount(Total(lv, Trump), |lv| as real);
      (Mean(lv, Harris), Mean(lv, Trump))
  }

  /** With no likely-voter row the average is the default `(0.0, 0.0)`, not a division by zero. */
  lemma {:induction false} NoLikelyVoters(t: Table)
    requires forall i :: 0 <= i < |t| ==> t[i].sampleType != LikelyVoter
    ensures LikelyVoterAverage(t) == (0.0, 0.0)
    decreases |t|
  {
    if t != [] {
      var init := t[..|t| - 1];
      assert forall i :: 0 <= i < |init| ==> init[i] == t[i];
      NoLikelyVoters(init);
    }
  }

  /** Rows that are not likely-voter polls, in either table, play no part in the average. */
  lemma {:induction false} OtherRowsIrrelevant(t: Table, u: Table)
    requires |t| == |u|
    requires forall i :: 0 <= i < |t| && (t[i].sampleType == LikelyVoter || u[i].sampleType == LikelyVoter) ==> t[i] == u[i]
    ensures LikelyVoterAverage(t) == LikelyVoterAverage(u)
  {
    SameLikelyRows(t, u);
  }

  lemma {:induction false} SameLikelyRows(t: Table, u: Table)
    requires |t| == |u|
    requires forall i :: 0 <= i < |t| && (t[i].sampleType == LikelyVoter || u[i].sampleType == LikelyVoter) ==> t[i] == u[i]
    ensures LikelyRows(t) == LikelyRows(u)
    decreases |t|
  {
    if t != [] {
      var t', u' := t[..|t| - 1], u[..|u| - 1];
      assert forall i :: 0 <= i < |t'| ==> t'[i] == t[i] && u'[i] == u[i];
      SameLikelyRows(t', u');
    }
  }

  /** One candidate's entry of a `(Harris, Trump)` pair. */
  function Pick(p: (real, real), c: Candidate): real
  {
    match c
    case Harris => p.0
    case Trump => p.1
  }

  /** When every likely-voter result of a candidate lies in `[lo, hi]`, so does that candidate's average. */
  lemma {:induction false} LikelyAverageWithin(t: Table, c: Candidate, lo: real, hi: real)
    requires LikelyRows(t) != []
    requires forall i :: 0 <= i < |t| && t[i].sampleType == LikelyVoter ==> lo <= ResultOf(t[i], c) <= hi
    ensures lo <= Pick(LikelyVoterAverage(t), c) <= hi
  {
    LikelyRowsWithin(t, c, lo, hi);
    MeanWithin(LikelyRows(t), c, lo, hi);
    assert Pick(LikelyVoterAverage(t), c) == Mean(LikelyRows(t), c);
  }

  /** The mean of results that all lie in `[lo, hi]` lies there too. */
  lemma MeanWithin(rows: Table, c: Candidate, lo: real, hi: real)
    requires rows != []
    requires forall i :: 0 <= i < |rows| ==> lo <= ResultOf(rows[i], c) <= hi
    ensures lo <= Mean(rows, c) <= hi
  {
    TotalBounds(rows, c, lo, hi);
    WithinByScaling(|rows| as real, Total(rows, c), lo, hi);
  }

  lemma {:induction false} LikelyRowsWithin(t: Table, c: Candidate, lo: real, hi: real)
    requires forall i :: 0 <= i < |t| && t[i].sampleType == LikelyVoter ==> lo <= ResultOf(t[i], c) <= hi
    ensures forall i :: 0 <= i < |LikelyRows(t)| ==> lo <= ResultOf(LikelyRows(t)[i], c) <= hi
    decreases |t|
  {
    if t != [] {
      var init := t[..|t| - 1];
      assert forall i :: 0 <= i < |init| ==> init[i] == t[i];
      LikelyRowsWithin(init, c, lo, hi);
    }
  }

  /** Dividing bounds by a positive count keeps them bounds. */
  lemma WithinByScaling(n: real, total: real, lo: real, hi: real)
    requires n > 0.0
    requires n * lo <= total <= n * hi
    ensures lo <= total / n <= hi
  {
  }

  /** The program's loop: running totals and a count over the rows typed exactly "LV". */
  method LikelyVoterPollingAverage(t: Table) returns (hAvg: real, tAvg: real)
    ensures (hAvg, tAvg) == LikelyVoterAverage(t)
  {
    var hTotal := 0.0;
    var tTotal := 0.0;
    var count := 0;
    var i := 0;
    while i < |t|
      invariant 0 <= i <= |t|
      invariant count == |LikelyRows(t[..i])|
      invariant hTotal == Total(LikelyRows(t[..i]), Harris)
      invariant tTotal == Total(LikelyRows(t[..i]), Trump)
    {
      LikelyRowsSnoc(t, i);
      if t[i].sampleType == LikelyVoter {
        TotalSnoc(LikelyRows(t[..i]), t[i], Harris);
        TotalSnoc(LikelyRows(t[..i]), t[i], Trump);
        hTotal := hTotal + t[i].harris;
        tTotal := tTotal + t[i].trump;
        count := count + 1;
      }
      i := i + 1;
    }
    assert t[..|t|] == t;
    if count == 0 {
      return 0.0, 0.0;
    }
    hAvg := hTotal / count as real;
    tAvg := tTotal / count as real;
  }

  // ---------------------------------------------------------------------------
  // polling_history_change
  // ---------------------------------------------------------------------------

  /** At most this many polls are averaged at each end of the table. */
  const WindowLimit: nat := 30

  /** The window size `k` for a table of `n` rows: `min(30, n)`; never zero for a non-empty table. */
  function Window(n: nat): (k: nat)
    ensures k <= n && k <= WindowLimit
    ensures k == WindowLimit || k == n
    ensures n > 0 ==> k >= 1
    ensures n >= 2 * WindowLimit ==> 2 * k <= n
  {
    if n < WindowLimit then n else WindowLimit
  }

  /** The first `k` rows: the latest polls, as the file lists the most recent first. */
  function Latest(t: Table): Table
  {
    t[..Window(|t|)]
  }

  /** The last `k` rows: the earliest polls. */
  function Earliest(t: Table): Table
  {
    t[|t| - Window(|t|)..]
  }

  /**
   * The change from the earliest window's mean to the latest window's mean, per
   * candidate; `(0.0, 0.0)` for an empty table. Both windows hold `k` rows.
   */
  function HistoryChange(t: Table): (r: (real, real))
    ensures |t| == 0 ==> r == (0.0, 0.0)
    ensures |t| > 0 ==> |Latest(t)| == |Earliest(t)| == Window(|t|) >= 1
    ensures |t| > 0 ==>
      && r.0 == Mean(Latest(t), Harris) - Mean(Earliest(t), Harris)
      && r.1 == Mean(Latest(t), Trump) - Mean(Earliest(t), Trump)
  {
    var n := |t|;
    if n == 0 then (0.0, 0.0)
    else
      var k := Window(n) as real;
      ( (Total(t[..Window(n)], Harris) - Total(t[n - Window(n)..], Harris)) / k,
        (Total(t[..Window(n)], Trump) - Total(t[n - Window(n)..], Trump)) / k )
  }

  /** With 30 rows or fewer both windows are the whole table, so the change is exactly zero. */
  lemma {:induction false} SmallTableNoChange(t: Table)
    requires |t| <= WindowLimit
    ensures HistoryChange(t) == (0.0, 0.0)
  {
    if |t| > 0 {
      assert Latest(t) == t == Earliest(t);
    }
  }

  /** Only the rows inside the two windows matter: tables agreeing on them give the same change. */
  lemma {:induction false} OnlyWindowsMatter(t: Table, u: Table)
    requires |t| == |u|
    requires forall i :: 0 <= i < |t| && (i < Window(|t|) || i >= |t| - Window(|t|)) ==> t[i] == u[i]
    ensures HistoryChange(t) == HistoryChange(u)
  {
    if |t| > 0 {
      assert Latest(t) == Latest(u);
      assert Earliest(t) == Earliest(u);
    }
  }

  /** The table read in the opposite order. */
  function Reverse(t: Table): (u: Table)
    ensures |u| == |t|
    ensures forall i :: 0 <= i < |t| ==> u[i] == t[|t| - 1 - i]
  {
    seq(|t|, i requires 0 <= i < |t| => t[|t| - 1 - i])
  }

  lemma {:induction false} TotalReverse(t: Table, c: Candidate)
    ensures Total(Reverse(t), c) == Total(t, c)
    decreases |t|
  {
    if t != [] {
      var last := t[|t| - 1];
      var init := t[..|t| - 1];
      assert Reverse(t) == [last] + Reverse(init);
      TotalReverse(init, c);
      TotalAppend([last], Reverse(init), c);
      assert [last][..0] == [];
    }
  }

  /** Reading the polls oldest-first swaps the two windows, so every change changes sign. */
  lemma {:induction false} ReverseNegatesChange(t: Table)
    ensures HistoryChange(Reverse(t)) == (-HistoryChange(t).0, -HistoryChange(t).1)
  {
    if |t| > 0 {
      var rt := Reverse(t);
      ReverseSwapsWindows(t);
      MeanReverse(Earliest(t), Harris);
      MeanReverse(Earliest(t), Trump);
      MeanReverse(Latest(t), Harris);
      MeanReverse(Latest(t), Trump);
      assert HistoryChange(rt).0 == Mean(Latest(t), Harris) * -1.0 + Mean(Earliest(t), Harris);
    }
  }

  /** The latest window of the reversed table is the reversed earliest window, and the other way round. */
  lemma ReverseSwapsWindows(t: Table)
    ensures Latest(Reverse(t)) == Reverse(Earliest(t))
    ensures Earliest(Reverse(t)) == Reverse(Latest(t))
  {
  }

  /** Order plays no part in a mean. */
  lemma MeanReverse(rows: Table, c: Candidate)
    requires rows != []
    ensures Mean(Reverse(rows), c) == Mean(rows, c)
  {
    TotalReverse(rows, c);
  }

  /** The program's two loops: totals over rows `0..k-1` and over rows `n-k..n-1`, each divided by `k`. */
  method PollingHistoryChange(t: Table) returns (hChange: real, tChange: real)
    ensures (hChange, tChange) == HistoryChange(t)
  {
    var n := |t|;
    if n == 0 {
      return 0.0, 0.0;
    }
    var k := WindowLimit;
    if n < WindowLimit {
      k := n;
    }
    assert k == Window(n);
    var hLatest, tLatest := SumRange(t, 0, k);
    var hEarliest, tEarliest := SumRange(t, n - k, n);
    assert t[0..k] == t[..k];
    assert t[n - k..n] == t[n - k..];
    hChange := hLatest / k as real - hEarliest / k as real;
    tChange := tLatest / k as real - tEarliest / k as real;
    DifferenceOfQuotients(hLatest, hEarliest, k as real);
    DifferenceOfQuotients(tLatest, tEarliest, k as real);
  }

  /** One of the program's window loops: both candidates' sums over rows `lo` up to `hi`. */
  method SumRange(t: Table, lo: nat, hi: nat) returns (hSum: real, tSum: real)
    requires lo <= hi <= |t|
    ensures hSum == Total(t[lo..hi], Harris) && tSum == Total(t[lo..hi], Trump)
  {
    hSum, tSum := 0.0, 0.0;
    var j := lo;
    while j < hi
      invariant lo <= j <= hi
      invariant hSum == Total(t[lo..j], Harris) && tSum == Total(t[lo..j], Trump)
    {
      assert t[lo..j + 1][..j - lo] == t[lo..j];
      hSum := hSum + t[j].harris;
      tSum := tSum + t[j].trump;
      j := j + 1;
    }
  }

  /** Dividing each term by the same count is dividing their difference. */
  lemma DifferenceOfQuotients(a: real, b: real, k: real)
    requires k > 0.0
    ensures a / k - b / k == (a - b) / k
  {
  }

  // ---------------------------------------------------------------------------
  // A worked example
  // ---------------------------------------------------------------------------

  /**
   * Three polls, most recent first: an "LV" poll at 57%/40%, an "RV" poll at
   * 50%/45% and an "LV" poll at 45%/50%.
   */
  const ThreePolls: Table := [
    Row("Aug", 20, 1880, "LV", 0.57, 0.40),
    Row("Aug", 19, 1500, "RV", 0.50, 0.45),
    Row("Aug", 18, 1200, "LV", 0.45, 0.50)]

  /** Harris holds the highest single result of the three polls, 0.57. */
  lemma ThreePollsHighest()
    ensures Highest(ThreePolls) == (Leads(Harris), 0.57)
  {
    var t := ThreePolls;
    assert forall j :: 0 <= j < |t| ==> t[j].harris <= t[0].harris && t[j].trump < t[0].harris;
    HarrisLeader(t, 0);
  }

  /** The two likely-voter polls average 0.51 for Harris and 0.45 for Trump. */
  lemma ThreePollsLikelyAverage()
    ensures LikelyVoterAverage(ThreePolls) == (0.51, 0.45)
  {
    var t := ThreePolls;
    assert LikelyRows(t) == [t[0], t[2]] by {
      LikelyRowsSnoc(t, 0);
      LikelyRowsSnoc(t, 1);
      LikelyRowsSnoc(t, 2);
      assert t[..0] == [];
      assert t[..3] == t;
    }
    assert Total([t[0], t[2]], Harris) == 1.02 by {
      TotalSnoc([], t[0], Harris);
      TotalSnoc([t[0]], t[2], Harris);
    }
    assert Total([t[0], t[2]], Trump) == 0.90 by {
      TotalSnoc([], t[0], Trump);
      TotalSnoc([t[0]], t[2], Trump);
    }
  }

  /** Three polls fit in one window, so there is no change. */
  lemma ThreePollsNoChange()
    ensures HistoryChange(ThreePolls) == (0.0, 0.0)
  {
    SmallTableNoChange(ThreePolls);
  }
}
