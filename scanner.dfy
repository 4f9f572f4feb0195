/**
  agrishield.py, `run_scanner`: after alignment, every finance column is
  correlated with the crop price at lags of 0, 5 and 20 rows; the correlations
  that are defined compete on absolute value, the winner is labelled by its
  lag, and the report rows are sorted by decreasing absolute best correlation.

  Pearson's coefficient and `round(x, 4)` are floating-point numerics; both are
  parameters here (`corr` answers None where pandas answers NaN).
*/
module Scanner {
  import opened Wrappers
  import opened Align
  import opened Sorting

  /** Fewer aligned rows than this and the crop is skipped. */
  const MinRows: nat := 30

  /** The lags, in row positions, in the order the candidates are listed. */
  const Lags: seq<nat> := [0, 5, 20]

  /** The `Timing` label of each lag, in the same order. */
  const Labels: seq<string> := ["Synchronized", "Leading (1 Week)", "Leading (1 Month)"]

  /** One row of the report. `None` stands for NaN. */
  datatype ReportRow = ReportRow(
    crop: string,
    asset: string,
    best: real,
    timing: string,
    syncCorr: Option<real>,
    lag1WCorr: Option<real>,
    lag1MCorr: Option<real>)

  function Abs(x: real): real
  {
    if x < 0.0 then -x else x
  }

  // ---------------------------------------------------------------- lag pairing

  /** `merged['Price']`. */
  function Prices(m: seq<MergedRow>): (xs: seq<real>)
    ensures |xs| == |m| && forall i :: 0 <= i < |m| ==> xs[i] == m[i].price
  {
    seq(|m|, i requires 0 <= i < |m| => m[i].price)
  }

  /** `merged[asset]`, the asset in position `j`. */
  function AssetValues(m: seq<MergedRow>, j: nat): (xs: seq<real>)
    requires forall i :: 0 <= i < |m| ==> j < |m[i].assets|
    ensures |xs| == |m| && forall i :: 0 <= i < |m| ==> xs[i] == m[i].assets[j]
  {
    seq(|m|, i requires 0 <= i < |m| => m[i].assets[j])
  }

  /** A gap-free series seen as a column. */
  function Lift(xs: seq<real>): (col: Column)
    ensures |col| == |xs|
  {
    seq(|xs|, i requires 0 <= i < |xs| => Some(xs[i]))
  }

  /** `Series.shift(lag)`: every value moves `lag` rows down; the first `lag` rows become NaN. */
  function Shift(col: Column, lag: nat): (r: Column)
    ensures |r| == |col|
    ensures forall i :: 0 <= i < |col| ==> r[i] == if i < lag then None else col[i - lag]
  {
    seq(|col|, i requires 0 <= i < |col| => if i < lag then None else col[i - lag])
  }

  /** The pairs among the first `n` rows where both series have a value: what `Series.corr` correlates. */
  function ValidPairs(x: Column, y: Column, n: nat): (ps: seq<(real, real)>)
    requires |x| == |y| && n <= |x|
    ensures |ps| <= n
  {
    if n == 0 then []
    else
      ValidPairs(x, y, n - 1)
      + if x[n - 1].Some? && y[n - 1].Some? then [(x[n - 1].value, y[n - 1].value)] else []
  }

  /** The price of row `i` paired with the asset value of row `i - lag`, for `lag <= i < n`. */
  function LagPairs(price: seq<real>, asset: seq<real>, lag: nat, n: nat): seq<(real, real)>
    requires |price| == |asset| && n <= |price|
  {
    if lag <= n then seq(n - lag, k requires 0 <= k < n - lag => (price[k + lag], asset[k])) else []
  }

  lemma LagPairsStep(price: seq<real>, asset: seq<real>, lag: nat, n: nat)
    requires |price| == |asset| && 0 < n <= |price|
    ensures LagPairs(price, asset, lag, n) ==
              LagPairs(price, asset, lag, n - 1) + if lag < n then [(price[n - 1], asset[n - 1 - lag])] else []
  {
    var pre, cur := LagPairs(price, asset, lag, n - 1), LagPairs(price, asset, lag, n);
    if lag < n {
      assert |cur| == |pre| + 1;
      assert forall k :: 0 <= k < |pre| ==> cur[k] == pre[k];
      assert cur[|pre|] == (price[n - 1], asset[n - 1 - lag]);
      assert cur == pre + [(price[n - 1], asset[n - 1 - lag])];
    } else {
      assert cur == [] && pre == [];
    }
  }

  /** The last row contributes its lag pair exactly when the shifted asset has a value there. */
  lemma ShiftedPairsStep(price: seq<real>, asset: seq<real>, lag: nat, n: nat)
    requires |price| == |asset| && 0 < n <= |price|
    ensures ValidPairs(Lift(price), Shift(Lift(asset), lag), n) ==
              ValidPairs(Lift(price), Shift(Lift(asset), lag), n - 1)
              + if lag < n then [(price[n - 1], asset[n - 1 - lag])] else []
  {
    var x, y := Lift(price), Shift(Lift(asset), lag);
    assert x[n - 1] == Some(price[n - 1]);
    if lag < n {
      assert y[n - 1] == Some(asset[n - 1 - lag]);
    } else {
      assert y[n - 1] == None;
    }
  }

  lemma {:induction false} ShiftedPairs(price: seq<real>, asset: seq<real>, lag: nat, n: nat)
    requires |price| == |asset| && n <= |price|
    ensures ValidPairs(Lift(price), Shift(Lift(asset), lag), n) == LagPairs(price, asset, lag, n)
  {
    if n > 0 {
      ShiftedPairs(price, asset, lag, n - 1);
      LagPairsStep(price, asset, lag, n);
      ShiftedPairsStep(price, asset, lag, n);
    }
  }

  /** `merged['Price'].corr(merged[asset].shift(lag))`. */
  function LagCorrelation(price: seq<real>, asset: seq<real>, lag: nat, corr: seq<(real, real)> -> Option<real>): (c: Option<real>)
    requires |price| == |asset|
    ensures c == corr(LagPairs(price, asset, lag, |price|))
  {
    ShiftedPairs(price, asset, lag, |price|);
    corr(ValidPairs(Lift(price), Shift(Lift(asset), lag), |price|))
  }

  /**
    The lag-`lag` correlation is Pearson's coefficient over exactly the pairs
    (Price[i], asset[i - lag]) for `lag <= i < len(merged)`; on a table that
    passed the row threshold even the longest lag has `MinRows - 20` pairs.
  */
  lemma LagCorrelationPairs(price: seq<real>, asset: seq<real>, lag: nat, corr: seq<(real, real)> -> Option<real>)
    requires |price| == |asset|
    ensures LagCorrelation(price, asset, lag, corr) == corr(LagPairs(price, asset, lag, |price|))
    ensures lag <= |price| ==> |LagPairs(price, asset, lag, |price|)| == |price| - lag
    ensures |price| >= MinRows && lag in Lags ==> |LagPairs(price, asset, lag, |price|)| >= MinRows - 20
    ensures forall i :: lag <= i < |price| ==> LagPairs(price, asset, lag, |price|)[i - lag] == (price[i], asset[i - lag])
  {
    ShiftedPairs(price, asset, lag, |price|);
  }

  /** `[corr_0, lag_1w, lag_1m]`. */
  function Correlations(price: seq<real>, asset: seq<real>, corr: seq<(real, real)> -> Option<real>): (cs: seq<Option<real>>)
    requires |price| == |asset|
    ensures |cs| == |Lags|
    ensures forall k :: 0 <= k < |Lags| ==> cs[k] == LagCorrelation(price, asset, Lags[k], corr)
  {
    [LagCorrelation(price, asset, 0, corr), LagCorrelation(price, asset, 5, corr), LagCorrelation(price, asset, 20, corr)]
  }

  // ---------------------------------------------------------------- best candidate

  /** `max(xs, key=abs)`: scans left to right and replaces the best only on a strictly larger absolute value. */
  function MaxByAbs(xs: seq<real>): (best: real)
    requires xs != []
    ensures best in xs
    ensures forall i :: 0 <= i < |xs| ==> Abs(xs[i]) <= Abs(best)
  {
    if |xs| == 1 then xs[0]
    else
      var n := |xs| - 1;
      var b := MaxByAbs(xs[..n]);
      assert forall i :: 0 <= i < n ==> xs[..n][i] == xs[i];
      if Abs(xs[n]) > Abs(b) then xs[n] else b
  }

  /** Candidate `k` is defined, no defined candidate beats it, and every defined one before it is strictly smaller. */
  ghost predicate FirstMaximal(cs: seq<Option<real>>, k: int)
  {
    && 0 <= k < |cs| && cs[k].Some?
    && forall i :: 0 <= i < |cs| && cs[i].Some? ==>
         Abs(cs[i].value) <= Abs(cs[k].value) && (i < k ==> Abs(cs[i].value) < Abs(cs[k].value))
  }

  /** Appending a candidate replaces the best only when it is strictly larger in absolute value. */
  lemma MaxByAbsSnoc(xs: seq<real>, x: real)
    requires xs != []
    ensures MaxByAbs(xs + [x]) == if Abs(x) > Abs(MaxByAbs(xs)) then x else MaxByAbs(xs)
  {
    assert (xs + [x])[..|xs|] == xs;
  }

  /** `max(candidates, key=abs)` over the defined candidates picks the first of maximal absolute value. */
  lemma {:induction false} MaxByAbsIsFirstMaximal(cs: seq<Option<real>>)
    requires Present(cs) != []
    ensures exists k :: FirstMaximal(cs, k) && MaxByAbs(Present(cs)) == cs[k].value
  {
    var n := |cs| - 1;
    var pre := cs[..n];
    assert cs == pre + [cs[n]];
    assert forall i :: 0 <= i < n ==> pre[i] == cs[i];
    PresentSnoc(pre, cs[n]);
    if cs[n].None? {
      assert Present(cs) == Present(pre);
      MaxByAbsIsFirstMaximal(pre);
      var k :| FirstMaximal(pre, k) && MaxByAbs(Present(pre)) == pre[k].value;
      assert FirstMaximal(cs, k) && MaxByAbs(Present(cs)) == cs[k].value;
    } else if Present(pre) == [] {
      assert FirstMaximal(cs, n);
    } else {
      var x := cs[n].value;
      MaxByAbsIsFirstMaximal(pre);
      var k :| FirstMaximal(pre, k) && MaxByAbs(Present(pre)) == pre[k].value;
      MaxByAbsSnoc(Present(pre), x);
      if Abs(x) > Abs(pre[k].value) {
        assert FirstMaximal(cs, n);
      } else {
        assert FirstMaximal(cs, k);
      }
    }
  }

  /** The `Timing` label: equality tests of the best value against `corr_0`, then `lag_1w`. */
  function Timing(best: real, cs: seq<Option<real>>): (tag: string)
    requires |cs| == |Lags|
    ensures tag in Labels
  {
    if cs[0] == Some(best) then Labels[0]
    else if cs[1] == Some(best) then Labels[1]
    else Labels[2]
  }

  /** The label names the lag of the first maximal candidate, the one `max` picked. */
  lemma TimingNamesFirstMaximal(cs: seq<Option<real>>, k: int)
    requires |cs| == |Lags| && FirstMaximal(cs, k)
    ensures Timing(cs[k].value, cs) == Labels[k]
  {
  }

  /** `round(x, 4)` lifted to NaN: NaN stays NaN. */
  function RoundOpt(round: real -> real, c: Option<real>): (r: Option<real>)
    ensures r.Some? <==> c.Some?
  {
    if c.Some? then Some(round(c.value)) else None
  }

  /** The report row of one asset, or None when `candidates` is empty and the asset is skipped. */
  function ScanAsset(crop: string, name: string, price: seq<real>, asset: seq<real>,
                     corr: seq<(real, real)> -> Option<real>, round: real -> real): (row: Option<ReportRow>)
    requires |price| == |asset|
    ensures row.Some? ==> row.value.crop == crop && row.value.asset == name && row.value.timing in Labels
  {
    var cs := Correlations(price, asset, corr);
    var ds := Present(cs);
    if ds == [] then None
    else
      var best := MaxByAbs(ds);
      Some(ReportRow(crop, name, round(best), Timing(best, cs),
                     RoundOpt(round, cs[0]), RoundOpt(round, cs[1]), RoundOpt(round, cs[2])))
  }

  /** An asset gets a report row exactly when at least one of its three correlations is defined. */
  lemma ScanAssetDefined(crop: string, name: string, price: seq<real>, asset: seq<real>,
                         corr: seq<(real, real)> -> Option<real>, round: real -> real)
    requires |price| == |asset|
    ensures ScanAsset(crop, name, price, asset, corr, round).Some? <==>
              exists k :: 0 <= k < |Lags| && LagCorrelation(price, asset, Lags[k], corr).Some?
  {
    var cs := Correlations(price, asset, corr);
    assert forall k :: 0 <= k < |Lags| ==> cs[k] == LagCorrelation(price, asset, Lags[k], corr);
  }

  /**
    A report row carries, as `Best_Correlation`, the rounded first candidate of
    maximal absolute value, labelled with that candidate's lag, and the three
    rounded correlations.
  */
  lemma ScanAssetBest(crop: string, name: string, price: seq<real>, asset: seq<real>,
                      corr: seq<(real, real)> -> Option<real>, round: real -> real)
    requires |price| == |asset|
    requires ScanAsset(crop, name, price, asset, corr, round).Some?
    ensures var row, cs := ScanAsset(crop, name, price, asset, corr, round).value, Correlations(price, asset, corr);
      && (exists k :: FirstMaximal(cs, k) && row.best == round(cs[k].value) && row.timing == Labels[k])
      && row.syncCorr == RoundOpt(round, cs[0])
      && row.lag1WCorr == RoundOpt(round, cs[1])
      && row.lag1MCorr == RoundOpt(round, cs[2])
  {
    var cs := Correlations(price, asset, corr);
    MaxByAbsIsFirstMaximal(cs);
    var k :| FirstMaximal(cs, k) && MaxByAbs(Present(cs)) == cs[k].value;
    TimingNamesFirstMaximal(cs, k);
  }

  // ---------------------------------------------------------------- the report

  /** Every merged row has one value per finance column. */
  ghost predicate Aligned(m: seq<MergedRow>, cols: seq<string>)
  {
    forall i :: 0 <= i < |m| ==> |m[i].assets| == |cols|
  }

  /** The scan of finance column `j`. */
  function ScanColumn(crop: string, m: seq<MergedRow>, cols: seq<string>, j: nat,
                      corr: seq<(real, real)> -> Option<real>, round: real -> real): (row: Option<ReportRow>)
    requires Aligned(m, cols) && j < |cols|
    ensures row.Some? ==> row.value.asset == cols[j]
  {
    ScanAsset(crop, cols[j], Prices(m), AssetValues(m, j), corr, round)
  }

  function AssetOf(row: ReportRow): string
  {
    row.asset
  }

  /** The scan of every finance column, in column order. */
  function Scans(crop: string, m: seq<MergedRow>, cols: seq<string>,
                 corr: seq<(real, real)> -> Option<real>, round: real -> real): (scans: seq<Option<ReportRow>>)
    requires Aligned(m, cols)
    ensures |scans| == |cols|
    ensures forall j :: 0 <= j < |cols| ==> scans[j] == ScanColumn(crop, m, cols, j, corr, round)
  {
    seq(|cols|, j requires 0 <= j < |cols| => ScanColumn(crop, m, cols, j, corr, round))
  }

  /** The `results` list: the rows of the assets that were not skipped, in column order. */
  function CollectRows(crop: string, m: seq<MergedRow>, cols: seq<string>,
                       corr: seq<(real, real)> -> Option<real>, round: real -> real): seq<ReportRow>
    requires Aligned(m, cols)
  {
    Present(Scans(crop, m, cols, corr, round))
  }

  /**
    `results` holds the report row of exactly those assets that have one, each
    at most once when the column names are distinct.
  */
  lemma CollectRowsProvenance(crop: string, m: seq<MergedRow>, cols: seq<string>,
                              corr: seq<(real, real)> -> Option<real>, round: real -> real)
    requires Aligned(m, cols)
    ensures forall row :: row in CollectRows(crop, m, cols, corr, round) <==>
              exists j :: 0 <= j < |cols| && ScanColumn(crop, m, cols, j, corr, round) == Some(row)
    ensures (forall a, b :: 0 <= a < b < |cols| ==> cols[a] != cols[b]) ==>
              forall a, b :: 0 <= a < b < |CollectRows(crop, m, cols, corr, round)| ==>
                AssetOf(CollectRows(crop, m, cols, corr, round)[a]) != AssetOf(CollectRows(crop, m, cols, corr, round)[b])
  {
    var scans := Scans(crop, m, cols, corr, round);
    PresentProvenance(scans);
    if forall a, b :: 0 <= a < b < |cols| ==> cols[a] != cols[b] {
      assert forall j :: 0 <= j < |cols| && scans[j].Some? ==> AssetOf(scans[j].value) == cols[j];
      PresentDistinct(scans, AssetOf);
    }
  }

  /** Key of the report sort: ascending in it is descending in |Best_Correlation|. */
  function BestKey(row: ReportRow): real
  {
    -Abs(row.best)
  }

  /** The loop over `feature_cols` that appends a row for every asset that is not skipped. */
  method ScanColumns(crop: string, merged: seq<MergedRow>, cols: seq<string>,
                     corr: seq<(real, real)> -> Option<real>, round: real -> real)
    returns (results: seq<ReportRow>)
    requires Aligned(merged, cols)
    ensures results == CollectRows(crop, merged, cols, corr, round)
  {
    results := [];
    ghost var scans := Scans(crop, merged, cols, corr, round);
    var j := 0;
    while j < |cols|
      invariant 0 <= j <= |cols|
      invariant results == Present(scans[..j])
    {
      var row := ScanColumn(crop, merged, cols, j, corr, round);
      assert scans[j] == row;
      PresentPrefixStep(scans, j);
      j := j + 1;
      if row.None? {
        continue;
      }
      results := results + [row.value];
    }
    assert scans[..j] == scans;
  }

  /**
    `run_scanner`: aligns the crop series with the finance table, refuses a
    table of fewer than `MinRows` rows, scans every finance column and returns
    the collected rows sorted by decreasing absolute best correlation (ties in
    no promised order).
  */
  method RunScanner(agri: seq<PricePoint>, finance: FinanceFrame, crop: string,
                    corr: seq<(real, real)> -> Option<real>, round: real -> real)
    returns (report: seq<ReportRow>)
    requires WellFormed(finance)
    ensures |Merged(agri, finance)| < MinRows ==> report == []
    ensures |Merged(agri, finance)| >= MinRows ==>
              multiset(report) == multiset(CollectRows(crop, Merged(agri, finance), finance.columns, corr, round))
    ensures forall a, b :: 0 <= a < b < |report| ==> Abs(report[a].best) >= Abs(report[b].best)
  {
    var t := FilledJoin(LeftJoin(agri, finance));
    var merged := DropNa(t);
    assert Aligned(merged, finance.columns);
    if |merged| < MinRows {
      return [];
    }
    var results := ScanColumns(crop, merged, finance.columns, corr, round);
    if results == [] {
      return [];
    }
    report := SortBy(results, BestKey);
    assert SortedBy(report, BestKey);
  }

  // ---------------------------------------------------------------- degenerate inputs

  /**
    An assumption about Pearson on degenerate input: NaN for fewer than two pairs
    (as pandas guarantees) or when either side is constant (which holds when the
    constant's mean is computed exactly; a floating-point residue can give 0.0).
    Only the lemmas below assume it of `corr`.
  */
  ghost predicate UndefinedWhenDegenerate(corr: seq<(real, real)> -> Option<real>)
  {
    forall ps: seq<(real, real)> ::
      (|ps| < 2 || (forall i :: 0 <= i < |ps| ==> ps[i].0 == ps[0].0)
                || (forall i :: 0 <= i < |ps| ==> ps[i].1 == ps[0].1))
      ==> corr(ps).None?
  }

  /** Under that behaviour, a series that never moves has no defined correlation at any lag. */
  lemma {:induction false} ConstantSideUndefined(price: seq<real>, asset: seq<real>, lag: nat,
                                                 corr: seq<(real, real)> -> Option<real>)
    requires |price| == |asset| && UndefinedWhenDegenerate(corr)
    requires (forall i :: 0 <= i < |price| ==> price[i] == price[0])
             || (forall i :: 0 <= i < |asset| ==> asset[i] == asset[0])
    ensures LagCorrelation(price, asset, lag, corr).None?
  {
    LagCorrelationPairs(price, asset, lag, corr);
    var ps := LagPairs(price, asset, lag, |price|);
    if ps != [] {
      assert ps[0] == (price[lag], asset[0]);
      if forall i :: 0 <= i < |price| ==> price[i] == price[0] {
        assert forall i :: 0 <= i < |ps| ==> ps[i].0 == ps[0].0;
      } else {
        assert forall i :: 0 <= i < |ps| ==> ps[i].1 == ps[0].1;
      }
    }
  }

  /** An asset whose value never moves over `merged` gets no report row. */
  lemma ConstantAssetSkipped(crop: string, m: seq<MergedRow>, cols: seq<string>, j: nat,
                             corr: seq<(real, real)> -> Option<real>, round: real -> real)
    requires Aligned(m, cols) && j < |cols| && UndefinedWhenDegenerate(corr)
    requires forall i :: 0 <= i < |m| ==> m[i].assets[j] == m[0].assets[j]
    ensures ScanColumn(crop, m, cols, j, corr, round).None?
  {
    var price, asset := Prices(m), AssetValues(m, j);
    forall k | 0 <= k < |Lags|
      ensures LagCorrelation(price, asset, Lags[k], corr).None?
    {
      ConstantSideUndefined(price, asset, Lags[k], corr);
    }
    ScanAssetDefined(crop, cols[j], price, asset, corr, round);
  }

  /** A crop whose aligned price never moves gets an empty report. */
  lemma FlatPriceEmptyReport(crop: string, m: seq<MergedRow>, cols: seq<string>,
                             corr: seq<(real, real)> -> Option<real>, round: real -> real)
    requires Aligned(m, cols) && UndefinedWhenDegenerate(corr)
    requires forall i :: 0 <= i < |m| ==> m[i].price == m[0].price
    ensures CollectRows(crop, m, cols, corr, round) == []
  {
    forall j | 0 <= j < |cols|
      ensures ScanColumn(crop, m, cols, j, corr, round).None?
    {
      var price, asset := Prices(m), AssetValues(m, j);
      forall k | 0 <= k < |Lags|
        ensures LagCorrelation(price, asset, Lags[k], corr).None?
      {
        ConstantSideUndefined(price, asset, Lags[k], corr);
      }
      ScanAssetDefined(crop, cols[j], price, asset, corr, round);
    }
  }
}
