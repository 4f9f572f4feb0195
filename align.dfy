/**
  agrishield.py, the first half of `run_scanner`: the crop price series is
  left-joined with the finance table on the date index, every column is
  forward-filled down the joined rows, and every row that still has a gap is
  dropped. The joined table is kept column by column, as pandas keeps it.
*/
module Align {
  import opened Wrappers
  import opened Series

  /** One entry of the crop series: its date index and its price (NaN as None). */
  datatype PricePoint = PricePoint(date: Timestamp, price: Option<real>)

  /**
    The finance table: its asset columns, in order, and per trading date one
    optional value per column (a date-indexed frame has no repeated date).
  */
  datatype FinanceFrame = FinanceFrame(columns: seq<string>, rows: map<Timestamp, seq<Option<real>>>)

  /** Every finance row has one cell per column. */
  ghost predicate WellFormed(f: FinanceFrame)
  {
    forall d :: d in f.rows ==> |f.rows[d]| == |f.columns|
  }

  /** A column of the joined table; NaN is None. */
  type Column = seq<Option<real>>

  /** The joined table: the crop's date index, its `Price` column and one column per asset. */
  datatype Joined = Joined(dates: seq<Timestamp>, price: Column, assets: seq<Column>)

  ghost predicate Shaped(t: Joined)
  {
    && |t.price| == |t.dates|
    && forall j :: 0 <= j < |t.assets| ==> |t.assets[j]| == |t.dates|
  }

  // ---------------------------------------------------------------- left join

  /** The value finance column `j` holds on date `d`, absent when the table has no such date. */
  function FinanceCell(f: FinanceFrame, d: Timestamp, j: nat): Option<real>
    requires WellFormed(f) && j < |f.columns|
  {
    if d in f.rows then f.rows[d][j] else None
  }

  /**
    `agri_df.join(finance_df, how='left')`: one row per crop row, in crop order,
    with the crop's date and price, and the finance cells of that same date
    (absent when the finance table has no row for it).
  */
  function LeftJoin(agri: seq<PricePoint>, f: FinanceFrame): (t: Joined)
    requires WellFormed(f)
    ensures Shaped(t) && |t.dates| == |agri| && |t.assets| == |f.columns|
    ensures forall i :: 0 <= i < |agri| ==> t.dates[i] == agri[i].date && t.price[i] == agri[i].price
    ensures forall j, i :: 0 <= j < |f.columns| && 0 <= i < |agri| ==>
              t.assets[j][i] == if agri[i].date in f.rows then f.rows[agri[i].date][j] else None
  {
    Joined(seq(|agri|, i requires 0 <= i < |agri| => agri[i].date),
           seq(|agri|, i requires 0 <= i < |agri| => agri[i].price),
           seq(|f.columns|, j requires 0 <= j < |f.columns| =>
             seq(|agri|, i requires 0 <= i < |agri| => FinanceCell(f, agri[i].date, j))))
  }

  /**
    Finance rows on dates the crop series never visits play no part: two finance
    tables with the same columns that agree on the crop's dates give the same
    joined table, and so the same `merged`.
  */
  lemma OffIndexDatesIgnored(agri: seq<PricePoint>, f1: FinanceFrame, f2: FinanceFrame)
    requires WellFormed(f1) && WellFormed(f2) && f1.columns == f2.columns
    requires forall i :: 0 <= i < |agri| ==>
               (agri[i].date in f1.rows <==> agri[i].date in f2.rows)
               && (agri[i].date in f1.rows ==> f1.rows[agri[i].date] == f2.rows[agri[i].date])
    ensures LeftJoin(agri, f1) == LeftJoin(agri, f2)
    ensures Merged(agri, f1) == Merged(agri, f2)
  {
    var t1, t2 := LeftJoin(agri, f1), LeftJoin(agri, f2);
    forall j | 0 <= j < |f1.columns|
      ensures t1.assets[j] == t2.assets[j]
    {
    }
  }

  // ---------------------------------------------------------------- forward fill

  /** Forward fill of one column, carrying `last`, the latest value seen, down the rows. */
  function FfillFrom(last: Option<real>, col: Column): (r: Column)
    ensures |r| == |col|
    decreases |col|
  {
    if col == [] then []
    else
      var v := if col[0].Some? then col[0] else last;
      [v] + FfillFrom(v, col[1..])
  }

  /** `.fillna(method='ffill')` on one column. */
  function Ffill(col: Column): (r: Column)
    ensures |r| == |col|
  {
    FfillFrom(None, col)
  }

  /** Row `j` is the latest row at or before row `i` where the column has a value. */
  ghost predicate LatestPresent(col: Column, i: int, j: int)
  {
    && 0 <= j <= i < |col|
    && col[j].Some?
    && forall k :: j < k <= i ==> col[k].None?
  }

  lemma {:induction false} FfillFromCell(last: Option<real>, col: Column, i: nat)
    requires i < |col|
    ensures (forall j :: 0 <= j <= i ==> col[j].None?) ==> FfillFrom(last, col)[i] == last
    ensures forall j :: LatestPresent(col, i, j) ==> FfillFrom(last, col)[i] == col[j]
    decreases i
  {
    if i > 0 {
      var v := if col[0].Some? then col[0] else last;
      var tail := col[1..];
      FfillFromCell(v, tail, i - 1);
      assert FfillFrom(last, col)[i] == FfillFrom(v, tail)[i - 1];
      forall j | LatestPresent(col, i, j)
        ensures FfillFrom(last, col)[i] == col[j]
      {
        if j > 0 {
          assert LatestPresent(tail, i - 1, j - 1);
        } else {
          assert forall k :: 0 <= k <= i - 1 ==> tail[k] == col[k + 1];
        }
      }
    }
  }

  /**
    Forward fill, cell by cell: a cell holds the value of the latest row at or
    before it where the column had one, and is absent when the column had none
    up to there.
  */
  lemma FfillCell(col: Column, i: nat)
    requires i < |col|
    ensures (forall j :: 0 <= j <= i ==> col[j].None?) ==> Ffill(col)[i].None?
    ensures forall j :: LatestPresent(col, i, j) ==> Ffill(col)[i] == col[j]
  {
    FfillFromCell(None, col, i);
  }

  lemma {:induction false} FfillFromPresence(last: Option<real>, col: Column, i: nat)
    requires i < |col|
    ensures FfillFrom(last, col)[i].Some? <==> last.Some? || exists j :: 0 <= j <= i && col[j].Some?
    decreases i
  {
    var v := if col[0].Some? then col[0] else last;
    if i > 0 {
      var tail := col[1..];
      FfillFromPresence(v, tail, i - 1);
      assert FfillFrom(last, col)[i] == FfillFrom(v, tail)[i - 1];
      if exists j :: 0 <= j <= i && col[j].Some? {
        var j :| 0 <= j <= i && col[j].Some?;
        if j > 0 {
          assert tail[j - 1].Some?;
        }
      }
      if exists j :: 0 <= j <= i - 1 && tail[j].Some? {
        var j :| 0 <= j <= i - 1 && tail[j].Some?;
        assert col[j + 1].Some?;
      }
    }
  }

  /** A forward-filled cell has a value exactly when the column had one at or before it. */
  lemma FfillPresence(col: Column, i: nat)
    requires i < |col|
    ensures Ffill(col)[i].Some? <==> exists j :: 0 <= j <= i && col[j].Some?
  {
    FfillFromPresence(None, col, i);
  }

  /** Once forward fill has given a column a value, every later row keeps one. */
  lemma FfillStaysPresent(col: Column, i: nat, k: nat)
    requires i <= k < |col| && Ffill(col)[i].Some?
    ensures Ffill(col)[k].Some?
  {
    FfillPresence(col, i);
    FfillPresence(col, k);
  }

  /** `.fillna(method='ffill')` on the whole joined table, column by column. */
  function FilledJoin(t: Joined): (r: Joined)
    requires Shaped(t)
    ensures Shaped(r) && r.dates == t.dates && r.price == Ffill(t.price) && |r.assets| == |t.assets|
    ensures forall j :: 0 <= j < |t.assets| ==> r.assets[j] == Ffill(t.assets[j])
  {
    Joined(t.dates, Ffill(t.price), seq(|t.assets|, j requires 0 <= j < |t.assets| => Ffill(t.assets[j])))
  }

  // ---------------------------------------------------------------- dropna

  /** A row of `merged` after `dropna`: every cell has a value. */
  datatype MergedRow = MergedRow(date: Timestamp, price: real, assets: seq<real>)

  /** Row `i` of the table has no gap. */
  predicate CompleteAt(t: Joined, i: nat)
    requires Shaped(t) && i < |t.dates|
  {
    t.price[i].Some? && forall j :: 0 <= j < |t.assets| ==> t.assets[j][i].Some?
  }

  function RowAt(t: Joined, i: nat): (r: MergedRow)
    requires Shaped(t) && i < |t.dates| && CompleteAt(t, i)
    ensures r.date == t.dates[i] && Some(r.price) == t.price[i] && |r.assets| == |t.assets|
    ensures forall j :: 0 <= j < |t.assets| ==> Some(r.assets[j]) == t.assets[j][i]
  {
    MergedRow(t.dates[i], t.price[i].value, seq(|t.assets|, j requires 0 <= j < |t.assets| => t.assets[j][i].value))
  }

  /** The rows of the first `n` that `dropna` keeps, in order. */
  function CompleteRows(t: Joined, n: nat): (kept: seq<MergedRow>)
    requires Shaped(t) && n <= |t.dates|
    ensures |kept| <= n
    ensures forall r :: r in kept ==> |r.assets| == |t.assets|
  {
    if n == 0 then []
    else CompleteRows(t, n - 1) + if CompleteAt(t, n - 1) then [RowAt(t, n - 1)] else []
  }

  /** `merged.dropna(inplace=True)`. */
  method DropNa(t: Joined) returns (kept: seq<MergedRow>)
    requires Shaped(t)
    ensures kept == CompleteRows(t, |t.dates|)
  {
    kept := [];
    var i := 0;
    while i < |t.dates|
      invariant 0 <= i <= |t.dates|
      invariant kept == CompleteRows(t, i)
    {
      var complete := t.price[i].Some?;
      var j := 0;
      while j < |t.assets| && complete
        invariant 0 <= j <= |t.assets|
        invariant complete <==> t.price[i].Some? && forall q :: 0 <= q < j ==> t.assets[q][i].Some?
      {
        complete := t.assets[j][i].Some?;
        j := j + 1;
      }
      if complete {
        kept := kept + [RowAt(t, i)];
      }
      i := i + 1;
    }
  }

  /** Every complete row is kept, and every kept row is some complete row (order is `CompleteRows`' own definition). */
  lemma {:induction false} CompleteRowsProvenance(t: Joined, n: nat)
    requires Shaped(t) && n <= |t.dates|
    ensures forall i :: 0 <= i < n && CompleteAt(t, i) ==> RowAt(t, i) in CompleteRows(t, n)
    ensures forall r :: r in CompleteRows(t, n) ==> exists i :: 0 <= i < n && CompleteAt(t, i) && r == RowAt(t, i)
  {
    if n > 0 {
      CompleteRowsProvenance(t, n - 1);
    }
  }

  /** The complete rows from `s` up to `n`, in order. */
  function RowsFrom(t: Joined, s: nat, n: nat): (rs: seq<MergedRow>)
    requires Shaped(t) && s <= n <= |t.dates|
    requires forall i :: s <= i < n ==> CompleteAt(t, i)
    ensures |rs| == n - s
    ensures forall k :: 0 <= k < n - s ==> rs[k] == RowAt(t, s + k)
  {
    seq(n - s, k requires 0 <= k < n - s => RowAt(t, s + k))
  }

  /** The first complete row among the first `n`, or `n` when there is none. */
  function FirstComplete(t: Joined, n: nat): (s: nat)
    requires Shaped(t) && n <= |t.dates|
    ensures s <= n && (s < n ==> CompleteAt(t, s))
    ensures forall i :: 0 <= i < s ==> !CompleteAt(t, i)
  {
    if n == 0 then 0
    else
      var s := FirstComplete(t, n - 1);
      if s < n - 1 || CompleteAt(t, n - 1) then s else n
  }

  /** On a table where a complete row is followed only by complete rows, `dropna` removes a prefix. */
  lemma {:induction false} CompleteRowsOfMonotone(t: Joined, n: nat)
    requires Shaped(t) && n <= |t.dates|
    requires forall i, k :: 0 <= i <= k < n && CompleteAt(t, i) ==> CompleteAt(t, k)
    ensures forall i :: FirstComplete(t, n) <= i < n ==> CompleteAt(t, i)
    ensures CompleteRows(t, n) == RowsFrom(t, FirstComplete(t, n), n)
  {
    if n > 0 {
      CompleteRowsOfMonotone(t, n - 1);
      var s := FirstComplete(t, n - 1);
      if CompleteAt(t, n - 1) {
        assert CompleteRows(t, n) == RowsFrom(t, s, n - 1) + [RowAt(t, n - 1)];
      }
    }
  }

  // ---------------------------------------------------------------- merged

  /** The joined table after forward fill, before `dropna`. */
  function Filled(agri: seq<PricePoint>, f: FinanceFrame): (t: Joined)
    requires WellFormed(f)
    ensures Shaped(t) && |t.dates| == |agri| && |t.assets| == |f.columns|
  {
    FilledJoin(LeftJoin(agri, f))
  }

  /** `merged` in `run_scanner`: left join, forward fill, dropna. */
  function Merged(agri: seq<PricePoint>, f: FinanceFrame): (m: seq<MergedRow>)
    requires WellFormed(f)
    ensures |m| <= |agri|
    ensures forall r :: r in m ==> |r.assets| == |f.columns|
  {
    CompleteRows(Filled(agri, f), |agri|)
  }

  /**
    `merged` is the forward-filled join with a prefix of rows dropped: the rows
    before `s` are exactly those where some column had no value yet, and from
    `s` on every crop row is kept, in crop order, with its forward-filled price
    and asset values.
  */
  lemma MergedIsSuffix(agri: seq<PricePoint>, f: FinanceFrame)
    requires WellFormed(f)
    ensures var t, s := Filled(agri, f), FirstComplete(Filled(agri, f), |agri|);
      && |Merged(agri, f)| == |agri| - s
      && (forall i :: 0 <= i < s ==> !CompleteAt(t, i))
      && forall k :: 0 <= k < |agri| - s ==> CompleteAt(t, s + k) && Merged(agri, f)[k] == RowAt(t, s + k)
  {
    var joined := LeftJoin(agri, f);
    var t := Filled(agri, f);
    forall i, k | 0 <= i <= k < |agri| && CompleteAt(t, i)
      ensures CompleteAt(t, k)
    {
      FfillStaysPresent(joined.price, i, k);
      forall j | 0 <= j < |t.assets|
        ensures t.assets[j][k].Some?
      {
        FfillStaysPresent(joined.assets[j], i, k);
      }
    }
    CompleteRowsOfMonotone(t, |agri|);
  }
}
