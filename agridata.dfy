/**
  agridata.py: conversion between Gregorian dates and the Republic-of-China (ROC,
  Minguo) calendar strings the agricultural-products API uses, and the cleaning of
  the API's record list into a price series ordered by date.
*/
module AgriData {
  import opened Wrappers
  import opened PyText
  import opened Json
  import opened Series
  import opened Sorting

  // ---------------------------------------------------------------- calendar strings

  /** The fields of a Python `datetime` that `to_roc_date` reads. */
  datatype DateTime = DateTime(year: int, month: int, day: int)

  predicate IsLeapYear(y: int)
  {
    y % 4 == 0 && (y % 100 != 0 || y % 400 == 0)
  }

  function DaysInMonth(y: int, m: int): int
  {
    if m == 2 then (if IsLeapYear(y) then 29 else 28)
    else if m == 4 || m == 6 || m == 9 || m == 11 then 30
    else 31
  }

  /** What a Python `datetime` guarantees of its fields. */
  predicate IsCalendarDate(dt: DateTime)
  {
    && 1 <= dt.year <= 9999
    && 1 <= dt.month <= 12
    && 1 <= dt.day <= DaysInMonth(dt.year, dt.month)
  }

  /** The ROC year counts from 1912 = year 1. */
  const RocOffset: int := 1911

  /** `to_roc_date`: `f"{dt.year - 1911}.{dt.month:02d}.{dt.day:02d}"`. */
  function ToRocDate(dt: DateTime): (s: string)
    requires IsCalendarDate(dt)
    ensures |s| >= 7 && s[|s| - 6] == '.' && s[|s| - 3] == '.'
  {
    var y := dt.year - RocOffset;
    NatToStringRoundTrip(if y < 0 then -y else y);
    Pad2TwoDigits(dt.month);
    Pad2TwoDigits(dt.day);
    IntToString(y) + "." + Pad2(dt.month) + "." + Pad2(dt.day)
  }

  function AdString(y: int, m: string, d: string): string
  {
    IntToString(y + RocOffset) + "-" + m + "-" + d
  }

  /** `roc_to_ad`: None for a non-string, for a split on `.` into other than three parts, or for a year `int()` rejects. */
  function RocToAd(v: Value): (r: Option<string>)
    ensures r.Some? ==> v.Str? && |Split(v.s, '.')| == 3
  {
    if !v.Str? then None
    else
      var parts := Split(v.s, '.');
      if |parts| != 3 then None
      else
        match ParseInt(parts[0])
        case None => None
        case Some(y) => Some(AdString(y, parts[1], parts[2]))
  }

  lemma SplitRocDate(dt: DateTime)
    requires IsCalendarDate(dt)
    ensures Split(ToRocDate(dt), '.') == [IntToString(dt.year - RocOffset), Pad2(dt.month), Pad2(dt.day)]
  {
    var y, mm, dd := IntToString(dt.year - RocOffset), Pad2(dt.month), Pad2(dt.day);
    NoSeparatorInIntToString(dt.year - RocOffset, '.');
    Pad2TwoDigits(dt.month);
    Pad2TwoDigits(dt.day);
    SplitAtSeparator(y, '.', mm + "." + dd);
    SplitAtSeparator(mm, '.', dd);
    SplitNoSeparator(dd, '.');
    assert ToRocDate(dt) == y + "." + (mm + "." + dd);
  }

  /** What the three fields of a ROC date string say, read off any text that splits into them. */
  lemma RocFieldsRead(s: string, dt: DateTime)
    requires IsCalendarDate(dt)
    requires Split(s, '.') == [IntToString(dt.year - RocOffset), Pad2(dt.month), Pad2(dt.day)]
    ensures ParseInt(Split(s, '.')[0]) == Some(dt.year - RocOffset)
    ensures |Split(s, '.')[1]| == 2 && AllDigits(Split(s, '.')[1]) && DigitsValue(Split(s, '.')[1]) == dt.month
    ensures |Split(s, '.')[2]| == 2 && AllDigits(Split(s, '.')[2]) && DigitsValue(Split(s, '.')[2]) == dt.day
  {
    ParseIntOfIntToString(dt.year - RocOffset);
    Pad2TwoDigits(dt.month);
    Pad2TwoDigits(dt.day);
  }

  /**
    `to_roc_date` writes three dot-separated fields: the ROC year as `int()` reads
    it, then the month and the day as exactly two digits.
  */
  lemma ToRocDateFields(dt: DateTime)
    requires IsCalendarDate(dt)
    ensures |Split(ToRocDate(dt), '.')| == 3
    ensures ParseInt(Split(ToRocDate(dt), '.')[0]) == Some(dt.year - RocOffset)
    ensures |Split(ToRocDate(dt), '.')[1]| == 2 && AllDigits(Split(ToRocDate(dt), '.')[1])
    ensures DigitsValue(Split(ToRocDate(dt), '.')[1]) == dt.month
    ensures |Split(ToRocDate(dt), '.')[2]| == 2 && AllDigits(Split(ToRocDate(dt), '.')[2])
    ensures DigitsValue(Split(ToRocDate(dt), '.')[2]) == dt.day
  {
    SplitRocDate(dt);
    RocFieldsRead(ToRocDate(dt), dt);
  }

  /**
    `roc_to_ad` on text made of three dot-free fields `a.b.c`: the string
    `"{int(a)+1911}-{b}-{c}"` when `int(a)` succeeds, with `b` and `c` copied
    verbatim, and None when it raises.
  */
  lemma RocToAdOfFields(a: string, b: string, c: string)
    requires '.' !in a && '.' !in b && '.' !in c
    ensures ParseInt(a).Some? ==>
              RocToAd(Str(a + "." + b + "." + c)) == Some(IntToString(ParseInt(a).value + RocOffset) + "-" + b + "-" + c)
    ensures ParseInt(a).None? ==> RocToAd(Str(a + "." + b + "." + c)) == None
  {
    SplitAtSeparator(a, '.', b + "." + c);
    SplitAtSeparator(b, '.', c);
    SplitNoSeparator(c, '.');
    assert a + "." + b + "." + c == a + ['.'] + (b + ['.'] + c);
    assert Split(a + "." + b + "." + c, '.') == [a, b, c];
  }

  /** `roc_to_ad` gives None for a value that is not a string and for text without exactly two dots. */
  lemma RocToAdNeedsTwoDots(v: Value)
    requires v.Str? ==> Count(v.s, '.') != 2
    ensures RocToAd(v) == None
  {
    if v.Str? {
      SplitCount(v.s, '.');
    }
  }

  /** Round trip: `roc_to_ad(to_roc_date(dt))` is the string `f"{year}-{MM}-{DD}"` of the same date, year unpadded. */
  lemma RocRoundTrip(dt: DateTime)
    requires IsCalendarDate(dt)
    ensures RocToAd(Str(ToRocDate(dt))) == Some(IntToString(dt.year) + "-" + Pad2(dt.month) + "-" + Pad2(dt.day))
  {
    var y, mm, dd := IntToString(dt.year - RocOffset), Pad2(dt.month), Pad2(dt.day);
    SplitRocDate(dt);
    assert Split(ToRocDate(dt), '.') == [y, mm, dd];
    ParseIntOfIntToString(dt.year - RocOffset);
    assert ParseInt(y) == Some(dt.year - RocOffset);
    assert RocToAd(Str(ToRocDate(dt))) == Some(AdString(dt.year - RocOffset, mm, dd));
  }

  // ---------------------------------------------------------------- process_agri_json

  /**
    The `Date` cell `pd.to_datetime(clean_df['TransDate'].apply(roc_to_ad))` gives a
    record: NaT where the key is absent or `roc_to_ad` returned None, and
    `Unparseable` where `to_datetime` (errors='raise') rejects the rebuilt string.
  */
  datatype DateCell = NaT | At(t: Timestamp) | Unparseable

  /** `toDatetime` stands for `pd.to_datetime` on one string; None means it raises. */
  function DateCellOf(rec: Record, toDatetime: string -> Option<Timestamp>): (cell: DateCell)
    ensures cell.At? ==> "TransDate" in rec && RocToAd(rec["TransDate"]).Some?
    ensures cell.Unparseable? ==> "TransDate" in rec && RocToAd(rec["TransDate"]).Some?
  {
    match Get(rec, "TransDate")
    case None => NaT
    case Some(v) =>
      match RocToAd(v)
      case None => NaT
      case Some(s) =>
        match toDatetime(s)
        case None => Unparseable
        case Some(t) => At(t)
  }

  /**
    `pd.to_numeric(clean_df['Avg_Price'], errors='coerce')` for one record; `toNumeric`
    stands for the parser. An absent or null `Avg_Price` is NaN in the frame, and
    `dropna` removes that row whatever the parser makes of it.
  */
  function PriceOf(rec: Record, toNumeric: Value -> Option<real>): (price: Option<real>)
    ensures price.Some? ==> "Avg_Price" in rec && rec["Avg_Price"] != Null
  {
    match Get(rec, "Avg_Price")
    case None => None
    case Some(Null) => None
    case Some(v) => toNumeric(v)
  }

  /** One row of the returned series: its date index and its price. */
  datatype Observation = Observation(date: Timestamp, price: real)

  function DateKey(o: Observation): real
  {
    o.date as real
  }

  /** `"key" in pd.DataFrame(records).columns`: some record carries the key. */
  predicate HasColumn(records: seq<Record>, key: string)
  {
    exists i :: 0 <= i < |records| && key in records[i]
  }

  /** The checks at the top of `process_agri_json` that decide whether there is a table to clean at all. */
  predicate HasTable(payload: Payload)
  {
    && payload.data.Some?
    && |payload.data.value| > 0
    && HasColumn(payload.data.value, "TransDate")
    && HasColumn(payload.data.value, "Avg_Price")
  }

  predicate Survives(rec: Record, toDatetime: string -> Option<Timestamp>, toNumeric: Value -> Option<real>)
  {
    DateCellOf(rec, toDatetime).At? && PriceOf(rec, toNumeric).Some?
  }

  /** `clean_df['Date']` before `to_datetime` raises, one cell per record. */
  function DateColumn(records: seq<Record>, toDatetime: string -> Option<Timestamp>): (col: seq<DateCell>)
    ensures |col| == |records|
  {
    seq(|records|, i requires 0 <= i < |records| => DateCellOf(records[i], toDatetime))
  }

  /** `clean_df['Price']`, one cell per record. */
  function PriceColumn(records: seq<Record>, toNumeric: Value -> Option<real>): (col: seq<Option<real>>)
    ensures |col| == |records|
  {
    seq(|records|, i requires 0 <= i < |records| => PriceOf(records[i], toNumeric))
  }

  /** `dropna` on the two new columns: the rows with both a date and a price, in row order. */
  function Surviving(dates: seq<DateCell>, prices: seq<Option<real>>): seq<Observation>
    requires |dates| == |prices|
  {
    if dates == [] then []
    else
      var n := |dates| - 1;
      Surviving(dates[..n], prices[..n])
      + if dates[n].At? && prices[n].Some? then [Observation(dates[n].t, prices[n].value)] else []
  }

  /** The rows `dropna` keeps, in record order, before the sort. */
  function Cleaned(records: seq<Record>, toDatetime: string -> Option<Timestamp>, toNumeric: Value -> Option<real>)
    : seq<Observation>
  {
    Surviving(DateColumn(records, toDatetime), PriceColumn(records, toNumeric))
  }

  lemma {:induction false} SurvivingProvenance(dates: seq<DateCell>, prices: seq<Option<real>>)
    requires |dates| == |prices|
    ensures |Surviving(dates, prices)| <= |dates|
    ensures forall o :: o in Surviving(dates, prices) ==>
              exists i :: 0 <= i < |dates| && dates[i].At? && prices[i].Some?
                && o == Observation(dates[i].t, prices[i].value)
    ensures forall i :: 0 <= i < |dates| && dates[i].At? && prices[i].Some? ==>
              Observation(dates[i].t, prices[i].value) in Surviving(dates, prices)
  {
    if dates != [] {
      var n := |dates| - 1;
      SurvivingProvenance(dates[..n], prices[..n]);
      assert forall i :: 0 <= i < n ==> dates[..n][i] == dates[i] && prices[..n][i] == prices[i];
    }
  }

  lemma {:induction false} SurvivingNothingKept(dates: seq<DateCell>, prices: seq<Option<real>>)
    requires |dates| == |prices|
    requires forall i :: 0 <= i < |dates| ==> !(dates[i].At? && prices[i].Some?)
    ensures Surviving(dates, prices) == []
  {
    if dates != [] {
      var n := |dates| - 1;
      SurvivingNothingKept(dates[..n], prices[..n]);
    }
  }

  /**
    Every cleaned row comes from one record whose date converted and whose price is
    numeric, every such record gives a row, and there are at most as many rows as records.
  */
  lemma CleanedProvenance(records: seq<Record>, toDatetime: string -> Option<Timestamp>,
                          toNumeric: Value -> Option<real>)
    ensures |Cleaned(records, toDatetime, toNumeric)| <= |records|
    ensures forall o :: o in Cleaned(records, toDatetime, toNumeric) ==>
              exists i :: 0 <= i < |records| && Survives(records[i], toDatetime, toNumeric)
                && o == Observation(DateCellOf(records[i], toDatetime).t, PriceOf(records[i], toNumeric).value)
    ensures forall i :: 0 <= i < |records| && Survives(records[i], toDatetime, toNumeric) ==>
              Observation(DateCellOf(records[i], toDatetime).t, PriceOf(records[i], toNumeric).value)
                in Cleaned(records, toDatetime, toNumeric)
  {
    var dates, prices := DateColumn(records, toDatetime), PriceColumn(records, toNumeric);
    SurvivingProvenance(dates, prices);
    assert forall i :: 0 <= i < |records| ==>
      dates[i] == DateCellOf(records[i], toDatetime) && prices[i] == PriceOf(records[i], toNumeric);
  }

  /**
    The column checks never hide a row: when either column is absent from every
    record, no record could have survived `dropna` anyway.
  */
  lemma MissingColumnCleansToEmpty(records: seq<Record>, toDatetime: string -> Option<Timestamp>,
                                   toNumeric: Value -> Option<real>)
    requires !HasColumn(records, "TransDate") || !HasColumn(records, "Avg_Price")
    ensures Cleaned(records, toDatetime, toNumeric) == []
  {
    var dates, prices := DateColumn(records, toDatetime), PriceColumn(records, toNumeric);
    assert forall i :: 0 <= i < |records| ==> !(dates[i].At? && prices[i].Some?);
    SurvivingNothingKept(dates, prices);
  }

  /** `clean_df.dropna(inplace=True)`: keeps, in order, the rows holding both a date and a price. */
  method DropNa(dates: seq<DateCell>, prices: seq<Option<real>>) returns (clean: seq<Observation>)
    requires |dates| == |prices|
    ensures clean == Surviving(dates, prices)
  {
    clean := [];
    var k := 0;
    while k < |dates|
      invariant 0 <= k <= |dates|
      invariant clean == Surviving(dates[..k], prices[..k])
    {
      assert dates[..k + 1][..k] == dates[..k];
      assert prices[..k + 1][..k] == prices[..k];
      if dates[k].At? && prices[k].Some? {
        clean := clean + [Observation(dates[k].t, prices[k].value)];
      }
      k := k + 1;
    }
    assert dates[..k] == dates && prices[..k] == prices;
  }

  /** Some record's rebuilt date string is one `pd.to_datetime` rejects. */
  predicate SomeDateUnparseable(records: seq<Record>, toDatetime: string -> Option<Timestamp>)
  {
    exists i :: 0 <= i < |records| && DateColumn(records, toDatetime)[i].Unparseable?
  }

  /** The error `process_agri_json` lets escape: `pd.to_datetime` rejecting a rebuilt date string. */
  datatype ProcessError = DateParseError

  /**
    `process_agri_json`: the price series of the records whose date converts and
    whose price is numeric, ordered by date; empty when there is no `Data`, it is
    empty, or a column is missing; an error when `to_datetime` rejects a date string.
  */
  method ProcessAgriJson(payload: Payload, toDatetime: string -> Option<Timestamp>, toNumeric: Value -> Option<real>)
    returns (r: Result<seq<Observation>, ProcessError>)
    ensures !HasTable(payload) ==> r == Success([])
    ensures HasTable(payload) ==>
              (r.Failure? <==> SomeDateUnparseable(payload.data.value, toDatetime))
    ensures HasTable(payload) && r.Success? ==>
              multiset(r.value) == multiset(Cleaned(payload.data.value, toDatetime, toNumeric))
    ensures r.Success? ==> SortedBy(r.value, DateKey)
  {
    if payload.data.None? || |payload.data.value| == 0 {
      return Success([]);
    }
    var records := payload.data.value;
    if !HasColumn(records, "TransDate") || !HasColumn(records, "Avg_Price") {
      return Success([]);
    }
    // clean_df['Date'] and clean_df['Price']
    var dates := DateColumn(records, toDatetime);
    var prices := PriceColumn(records, toNumeric);
    r := CleanColumns(dates, prices);
  }

  /**
    The rest of `process_agri_json` once the `Date` and `Price` columns are built:
    `to_datetime` raising, `dropna`, then indexing by date and sorting.
  */
  method CleanColumns(dates: seq<DateCell>, prices: seq<Option<real>>)
    returns (r: Result<seq<Observation>, ProcessError>)
    requires |dates| == |prices|
    ensures r.Failure? <==> exists i :: 0 <= i < |dates| && dates[i].Unparseable?
    ensures r.Success? ==> multiset(r.value) == multiset(Surviving(dates, prices))
    ensures r.Success? ==> SortedBy(r.value, DateKey)
  {
    // to_datetime raises on the first rebuilt string it rejects
    var i := 0;
    while i < |dates|
      invariant 0 <= i <= |dates|
      invariant forall k :: 0 <= k < i ==> !dates[k].Unparseable?
    {
      if dates[i].Unparseable? {
        return Failure(DateParseError);
      }
      i := i + 1;
    }
    var clean := DropNa(dates, prices);
    // set_index('Date'); sort_index()
    clean := SortBy(clean, DateKey);
    r := Success(clean);
  }
}
