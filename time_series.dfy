/** `time_series_analyzer.py`: the Redfin price table over months, its
    growth rates and the summary of its latest month. */
module TimeSeries {
  import opened Common
  import opened Tables

  const RegionLabel := "Region"

  // ------------------------------------------------------------- loading

  /** The loaded table, column by column: `regions` is the index, `dates`
      the column labels, `columns[j][i]` the price of region `i` in month
      `j`, missing where the cell does not read as a number. */
  datatype PriceTable = PriceTable(regions: seq<RawCell>, dates: seq<RawCell>, columns: seq<seq<Option<real>>>)

  predicate WellShaped(t: PriceTable)
  {
    |t.columns| == |t.dates| && forall j :: 0 <= j < |t.columns| ==> |t.columns[j]| == |t.regions|
  }

  /** One cell through `str.replace('$', '')`, `str.replace('K', '000')`
      and `to_numeric(errors='coerce')`. */
  function ParseCell(c: RawCell): (x: Option<real>)
    ensures c.None? ==> x.None?
  {
    match c
    case None => None
    case Some(s) => ParseDecimal(PriceText(s))
  }

  /** A price written in thousands reads as that many thousands. */
  lemma ParseCellOfThousands(n: nat)
    ensures ParseCell(Some("$" + NatToString(n) + "K")) == Some((n * 1000) as real)
  {
    PriceTextOfThousands(n);
  }

  /** The first of the `n` labels that is `name`. */
  function FirstLabel(labels: seq<RawCell>, n: nat, name: string, from: nat): (r: Option<nat>)
    requires from <= n
    ensures r.Some? ==> from <= r.value < n && CellAt(labels, r.value) == Some(name) &&
                        forall k :: from <= k < r.value ==> CellAt(labels, k) != Some(name)
    ensures r.None? ==> forall k :: from <= k < n ==> CellAt(labels, k) != Some(name)
    decreases n - from
  {
    if from == n then None
    else if CellAt(labels, from) == Some(name) then Some(from)
    else FirstLabel(labels, n, name, from + 1)
  }

  /** Where `set_index('Region')` finds its column once row 0 has become
      the header. */
  function RegionPosition(f: Frame): Option<nat>
    requires f.rows != []
  {
    FirstLabel(f.rows[0], |f.header|, RegionLabel, 0)
  }

  /** The source column of data column `j`: the region column drops out. */
  function DataColumn(j: nat, pos: nat): nat
  {
    if j < pos then j else j + 1
  }

  /** The data columns are the other columns, in their order, each once. */
  lemma DataColumnsSkipRegion(n: nat, pos: nat)
    requires pos < n
    ensures forall j :: 0 <= j < n - 1 ==> DataColumn(j, pos) < n && DataColumn(j, pos) != pos
    ensures forall j, j' :: 0 <= j < j' < n - 1 ==> DataColumn(j, pos) < DataColumn(j', pos)
    ensures forall k :: 0 <= k < n && k != pos ==> DataIndex(k, pos) < n - 1 && DataColumn(DataIndex(k, pos), pos) == k
  {
  }

  /** The data column that source column `k` becomes. */
  function DataIndex(k: nat, pos: nat): nat
    requires k != pos
  {
    if k < pos then k else k - 1
  }

  function ParsedColumn(data: seq<seq<RawCell>>, k: nat): (col: seq<Option<real>>)
    ensures |col| == |data| && forall i :: 0 <= i < |data| ==> col[i] == ParseCell(CellAt(data[i], k))
  {
    seq(|data|, i requires 0 <= i < |data| => ParseCell(CellAt(data[i], k)))
  }

  /** What `load_redfin_data` makes of the file's table: no rows raises
      IndexError at `iloc[0]`, no "Region" label raises KeyError at
      `set_index`. Otherwise row 0 gives the labels, the later rows the
      data, and the region column becomes the index. */
  function RedfinTable(f: Frame): (r: Result<PriceTable>)
    ensures f.rows == [] ==> r == Err(IndexError)
    ensures f.rows != [] && RegionPosition(f).None? ==> r == Err(KeyError(RegionLabel))
    ensures r.Ok? ==> f.rows != [] && RegionPosition(f).Some? && WellShaped(r.value)
  {
    if f.rows == [] then Err(IndexError)
    else match RegionPosition(f)
      case None => Err(KeyError(RegionLabel))
      case Some(pos) =>
        var data := f.rows[1..];
        Ok(PriceTable(
          seq(|data|, i requires 0 <= i < |data| => CellAt(data[i], pos)),
          seq(|f.header| - 1, j requires 0 <= j < |f.header| - 1 => CellAt(f.rows[0], DataColumn(j, pos))),
          seq(|f.header| - 1, j requires 0 <= j < |f.header| - 1 => ParsedColumn(data, DataColumn(j, pos)))))
  }

  /** Cell by cell: the index holds the region column of rows 1.., the
      labels come from row 0, and each price is its source cell parsed. */
  lemma RedfinTableCells(f: Frame, i: nat, j: nat)
    requires RedfinTable(f).Ok?
    ensures var t := RedfinTable(f).value;
            var pos := RegionPosition(f).value;
            |t.regions| == |f.rows| - 1 && |t.dates| == |f.header| - 1 &&
            (i < |t.regions| ==> t.regions[i] == CellAt(f.rows[1 + i], pos)) &&
            (j < |t.dates| ==> t.dates[j] == CellAt(f.rows[0], DataColumn(j, pos))) &&
            (i < |t.regions| && j < |t.dates| ==> t.columns[j][i] == ParseCell(CellAt(f.rows[1 + i], DataColumn(j, pos))))
  {
    var pos := RegionPosition(f).value;
    if i < |f.rows| - 1 {
      assert f.rows[1..][i] == f.rows[1 + i];
    }
  }

  /** The loader: the labels and data after the header shift, the region
      column as the index, then the other columns parsed. */
  method LoadRedfinData(f: Frame) returns (r: Result<PriceTable>)
    ensures r == RedfinTable(f)
  {
    if f.rows == [] {
      return Err(IndexError);
    }
    var found := FirstLabel(f.rows[0], |f.header|, RegionLabel, 0);
    if found.None? {
      return Err(KeyError(RegionLabel));
    }
    var data := f.rows[1..];
    var regions := seq(|data|, i requires 0 <= i < |data| => CellAt(data[i], found.value));
    var dates, columns := DataColumns(f.rows[0], data, |f.header|, found.value);
    ghost var expected := RedfinTable(f).value;
    assert dates == expected.dates;
    assert columns == expected.columns;
    r := Ok(PriceTable(regions, dates, columns));
  }

  /** The loop over the `n` columns that replaces each with its parsed
      prices, skipping the region column at `pos` that became the index. */
  method DataColumns(labels: seq<RawCell>, data: seq<seq<RawCell>>, n: nat, pos: nat)
    returns (dates: seq<RawCell>, columns: seq<seq<Option<real>>>)
    requires pos < n
    ensures |dates| == |columns| == n - 1
    ensures forall j :: 0 <= j < n - 1 ==> dates[j] == CellAt(labels, DataColumn(j, pos))
    ensures forall j :: 0 <= j < n - 1 ==> columns[j] == ParsedColumn(data, DataColumn(j, pos))
  {
    dates, columns := [], [];
    var k := 0;
    while k < n
      invariant 0 <= k <= n
      invariant |dates| == |columns| == if k <= pos then k else k - 1
      invariant forall j :: 0 <= j < |dates| ==> dates[j] == CellAt(labels, DataColumn(j, pos))
      invariant forall j :: 0 <= j < |columns| ==> columns[j] == ParsedColumn(data, DataColumn(j, pos))
    {
      if k != pos {
        dates := dates + [CellAt(labels, k)];
        columns := columns + [ParsedColumn(data, k)];
      }
      k := k + 1;
    }
  }

  // -------------------------------------------------------------- growth

  /** A percentage change as pandas computes it on floats: missing when an
      operand is missing or both are zero, infinite from a zero base. */
  datatype Pct = Missing | Finite(r: real) | PlusInfinity | MinusInfinity

  /** `(latest / base - 1) * 100`, the `pct_change` of one pair. */
  function PctChange(latest: Option<real>, base: Option<real>): (g: Pct)
    ensures g.Missing? <==> latest.None? || base.None? || (base.value == 0.0 && latest.value == 0.0)
    ensures g.Finite? ==> latest.Some? && base.Some? && base.value != 0.0 &&
                          base.value * (1.0 + g.r / 100.0) == latest.value
    ensures g.PlusInfinity? <==> latest.Some? && base.Some? && base.value == 0.0 && latest.value > 0.0
    ensures g.MinusInfinity? <==> latest.Some? && base.Some? && base.value == 0.0 && latest.value < 0.0
  {
    match (latest, base)
    case (Some(l), Some(b)) =>
      if b == 0.0 then
        (if l > 0.0 then PlusInfinity else if l < 0.0 then MinusInfinity else Missing)
      else
        var q := l / b;
        assert b * q == l;
        Finite((q - 1.0) * 100.0)
    case _ => Missing
  }

  /** From a positive base, the growth is positive exactly when the price
      rose. */
  lemma GrowthSign(latest: real, base: real)
    requires base > 0.0
    ensures PctChange(Some(latest), Some(base)).Finite?
    ensures PctChange(Some(latest), Some(base)).r > 0.0 <==> latest > base
    ensures PctChange(Some(latest), Some(base)).r == 0.0 <==> latest == base
  {
    var g := PctChange(Some(latest), Some(base)).r;
    assert base * (1.0 + g / 100.0) == latest;
    if g > 0.0 {
      assert base * (g / 100.0) > 0.0;
    } else if g < 0.0 {
      assert base * (g / 100.0) < 0.0;
    }
  }

  /** From 100,000 to 110,000 is ten per cent. */
  lemma GrowthExample()
    ensures PctChange(Some(110000.0), Some(100000.0)) == Finite(10.0)
  {
    assert 110000.0 / 100000.0 == 1.1;
  }

  datatype GrowthRow = GrowthRow(region: RawCell, mom: Pct, yoy: Pct)

  /** `calculate_growth_rates`: for each region, the growth of the last
      month over the one before and over the one twelve months earlier;
      missing when that month does not exist. No month at all raises
      IndexError at `iloc[:, -1]`. */
  function GrowthRates(t: PriceTable): (r: Result<seq<GrowthRow>>)
    requires WellShaped(t)
    ensures r.Err? <==> t.columns == []
    ensures r.Err? ==> r.error == IndexError
    ensures r.Ok? ==>
              var n := |t.columns|;
              |r.value| == |t.regions| &&
              forall i :: 0 <= i < |t.regions| ==>
                r.value[i].region == t.regions[i] &&
                r.value[i].mom == (if n >= 2 then PctChange(t.columns[n - 1][i], t.columns[n - 2][i]) else Missing) &&
                r.value[i].yoy == (if n >= 13 then PctChange(t.columns[n - 1][i], t.columns[n - 13][i]) else Missing)
  {
    if t.columns == [] then Err(IndexError)
    else
      var n := |t.columns|;
      Ok(seq(|t.regions|, i requires 0 <= i < |t.regions| =>
        GrowthRow(t.regions[i],
                  PctChange(t.columns[n - 1][i], Earlier(t, n - 1, 1, i)),
                  PctChange(t.columns[n - 1][i], Earlier(t, n - 1, 12, i)))))
  }

  /** The price `periods` months before month `j`; missing before the
      first month, where `pct_change` has no earlier value. */
  function Earlier(t: PriceTable, j: nat, periods: nat, i: nat): (x: Option<real>)
    requires WellShaped(t) && j < |t.columns| && i < |t.regions|
    ensures j < periods ==> x.None?
    ensures j >= periods ==> x == t.columns[j - periods][i]
  {
    if j < periods then None else t.columns[j - periods][i]
  }

  /** A finite month-over-month growth recovers the last price from the one
      before it. */
  lemma MonthOverMonthInverse(t: PriceTable, i: nat)
    requires WellShaped(t) && GrowthRates(t).Ok? && i < |t.regions|
    requires GrowthRates(t).value[i].mom.Finite?
    ensures var n := |t.columns|;
            n >= 2 && t.columns[n - 2][i].Some? && t.columns[n - 1][i].Some? &&
            t.columns[n - 2][i].value * (1.0 + GrowthRates(t).value[i].mom.r / 100.0) == t.columns[n - 1][i].value
  {
  }

  /** Fewer than thirteen months leave every year-over-year growth
      missing. */
  lemma YearOverYearNeedsThirteenMonths(t: PriceTable, i: nat)
    requires WellShaped(t) && GrowthRates(t).Ok? && i < |t.regions|
    ensures GrowthRates(t).value[i].yoy != Missing ==> |t.columns| >= 13
  {
  }

  // ---------------------------------------------------------- statistics

  /** The present values of a column, in order (`dropna`). */
  function Present(col: seq<Option<real>>): (xs: seq<real>)
    ensures |xs| <= |col|
    ensures forall x :: x in xs <==> Some(x) in col
  {
    if col == [] then []
    else
      var rest := Present(col[1..]);
      assert forall x :: Some(x) in col <==> col[0] == Some(x) || Some(x) in col[1..] by {
        assert col == [col[0]] + col[1..];
      }
      if col[0].Some? then [col[0].value] + rest else rest
  }

  /** `idx` lists, increasing, exactly the positions from `s` on of the
      present cells of `col`, and `xs` holds their values in that order. */
  predicate PresentAt(col: seq<Option<real>>, s: nat, idx: seq<nat>, xs: seq<real>)
  {
    && |idx| == |xs|
    && (forall a, b :: 0 <= a < b < |idx| ==> idx[a] < idx[b])
    && (forall j :: 0 <= j < |idx| ==> s <= idx[j] < |col| && col[idx[j]] == Some(xs[j]))
    && (forall i :: s <= i < |col| && col[i].Some? ==> i in idx)
  }

  /** `dropna` from position `s` on keeps order and repetitions. */
  lemma {:induction false} PresentSelectsFrom(col: seq<Option<real>>, s: nat) returns (idx: seq<nat>)
    requires s <= |col|
    ensures PresentAt(col, s, idx, Present(col[s..]))
    decreases |col| - s
  {
    if s == |col| {
      idx := [];
    } else {
      var rest := PresentSelectsFrom(col, s + 1);
      var tail := Present(col[s + 1..]);
      assert col[s..][1..] == col[s + 1..];
      if col[s].Some? {
        assert Present(col[s..]) == [col[s].value] + tail;
        idx := [s] + rest;
        PresentKeep(col, s, rest, tail);
      } else {
        assert Present(col[s..]) == tail;
        idx := rest;
        PresentSkip(col, s, rest, tail);
      }
    }
  }

  /** A present cell at `s` goes in front of the selection from `s + 1`. */
  lemma PresentKeep(col: seq<Option<real>>, s: nat, rest: seq<nat>, tail: seq<real>)
    requires s < |col| && col[s].Some? && PresentAt(col, s + 1, rest, tail)
    ensures PresentAt(col, s, [s] + rest, [col[s].value] + tail)
  {
    var idx := [s] + rest;
    forall j | 0 < j < |idx| ensures idx[j] == rest[j - 1] && ([col[s].value] + tail)[j] == tail[j - 1] {}
  }

  /** A missing cell at `s` adds nothing to the selection from `s + 1`. */
  lemma PresentSkip(col: seq<Option<real>>, s: nat, rest: seq<nat>, tail: seq<real>)
    requires s < |col| && col[s].None? && PresentAt(col, s + 1, rest, tail)
    ensures PresentAt(col, s, rest, tail)
  {
  }

  /** The whole column: `Present(col)` is the present values in their
      positions' order, one per present cell. */
  lemma PresentSelects(col: seq<Option<real>>) returns (idx: seq<nat>)
    ensures PresentAt(col, 0, idx, Present(col))
  {
    idx := PresentSelectsFrom(col, 0);
    assert col[0..] == col;
  }

  /** A column with no present value is all missing. */
  lemma {:induction false} NothingPresent(col: seq<Option<real>>)
    requires Present(col) == []
    ensures forall i :: 0 <= i < |col| ==> col[i].None?
  {
    if col != [] {
      NothingPresent(col[1..]);
      forall i | 0 <= i < |col| ensures col[i].None? {
        if i > 0 { assert col[i] == col[1..][i - 1]; }
      }
    }
  }

  function Sum(xs: seq<real>): real
  {
    if xs == [] then 0.0 else xs[0] + Sum(xs[1..])
  }

  function Max(xs: seq<real>): (m: real)
    requires xs != []
    ensures m in xs && forall x :: x in xs ==> x <= m
  {
    if |xs| == 1 then xs[0]
    else
      var m := Max(xs[1..]);
      assert forall x :: x in xs ==> x == xs[0] || x in xs[1..] by {
        assert xs == [xs[0]] + xs[1..];
      }
      if xs[0] >= m then xs[0] else m
  }

  function Min(xs: seq<real>): (m: real)
    requires xs != []
    ensures m in xs && forall x :: x in xs ==> m <= x
  {
    if |xs| == 1 then xs[0]
    else
      var m := Min(xs[1..]);
      assert forall x :: x in xs ==> x == xs[0] || x in xs[1..] by {
        assert xs == [xs[0]] + xs[1..];
      }
      if xs[0] <= m then xs[0] else m
  }

  /** The sum lies between the count times the least value and the count
      times the greatest. */
  lemma {:induction false} SumBounds(xs: seq<real>, lo: real, hi: real)
    requires forall x :: x in xs ==> lo <= x <= hi
    ensures |xs| as real * lo <= Sum(xs) <= |xs| as real * hi
  {
    if xs != [] {
      assert forall x :: x in xs[1..] ==> x in xs;
      SumBounds(xs[1..], lo, hi);
      assert xs[0] in xs;
      var n := |xs[1..]| as real;
      assert |xs| as real == n + 1.0;
      OneMore(n, lo);
      OneMore(n, hi);
    }
  }

  /** One more copy of `x`: `(n + 1) * x == x + n * x`. */
  lemma OneMore(n: real, x: real)
    ensures (n + 1.0) * x == x + n * x
  {
  }

  /** The mean of the values lies between their minimum and maximum. */
  lemma MeanBetweenMinAndMax(xs: seq<real>)
    requires xs != []
    ensures Min(xs) <= Sum(xs) / |xs| as real <= Max(xs)
  {
    MeanBounds(xs, Min(xs), Max(xs));
  }

  /** Bounds on every value bound the mean. */
  lemma MeanBounds(xs: seq<real>, lo: real, hi: real)
    requires xs != [] && forall x :: x in xs ==> lo <= x <= hi
    ensures lo <= Sum(xs) / |xs| as real <= hi
  {
    SumBounds(xs, lo, hi);
    DivideBounds(Sum(xs), |xs| as real, lo, hi);
  }

  lemma DivideBounds(s: real, n: real, lo: real, hi: real)
    requires n > 0.0 && n * lo <= s <= n * hi
    ensures lo <= s / n <= hi
  {
    assert s / n - lo == (s - n * lo) / n;
    assert hi - s / n == (n * hi - s) / n;
  }

  datatype Stats = Stats(start: RawCell, end: RawCell, regionCount: nat,
                         average: Option<real>, maximum: Option<real>, minimum: Option<real>)

  /** The statistics of `display_summary_stats`: first and last month,
      number of regions, and mean, maximum and minimum of the present
      prices of the last month (missing, as NaN, when there are none). No
      month raises IndexError at `columns[0]`. */
  function SummaryStats(t: PriceTable): (r: Result<Stats>)
    requires WellShaped(t)
    ensures r.Err? <==> t.dates == []
    ensures r.Err? ==> r.error == IndexError
    ensures r.Ok? ==> r.value.start == t.dates[0] && r.value.end == t.dates[|t.dates| - 1]
    ensures r.Ok? ==> r.value.regionCount == |t.regions|
    ensures r.Ok? ==>
              var last := t.columns[|t.columns| - 1];
              var s := r.value;
              (s.average.Some? <==> exists i :: 0 <= i < |last| && last[i].Some?) &&
              (s.average.Some? ==> s.average.value == Sum(Present(last)) / |Present(last)| as real) &&
              s.maximum.Some? == s.average.Some? && s.minimum.Some? == s.average.Some? &&
              (s.average.Some? ==> s.minimum.value <= s.average.value <= s.maximum.value) &&
              (s.average.Some? ==> Some(s.maximum.value) in last && Some(s.minimum.value) in last) &&
              (forall i :: 0 <= i < |last| && last[i].Some? && s.average.Some? ==>
                 s.minimum.value <= last[i].value <= s.maximum.value)
  {
    if t.dates == [] then Err(IndexError)
    else
      var last := t.columns[|t.columns| - 1];
      var xs := Present(last);
      if xs == [] then
        NothingPresent(last);
        Ok(Stats(t.dates[0], t.dates[|t.dates| - 1], |t.regions|, None, None, None))
      else
        MeanBetweenMinAndMax(xs);
        assert Some(xs[0]) in last;
        var i :| 0 <= i < |last| && last[i] == Some(xs[0]);
        assert forall k :: 0 <= k < |last| && last[k].Some? ==> last[k].value in xs;
        Ok(Stats(t.dates[0], t.dates[|t.dates| - 1], |t.regions|,
                 Some(Sum(xs) / |xs| as real), Some(Max(xs)), Some(Min(xs))))
  }

  // ------------------------------------------------------------- results

  /** One row of the saved analysis: the region, its latest price and its
      two growth rates. */
  datatype ResultRow = ResultRow(state: RawCell, latestPrice: Option<real>, mom: Pct, yoy: Pct)

  /** `analyze_time_series` without its files and plots: load, summarise,
      compute the growth rates and assemble one result row per region. */
  method AnalyzeTimeSeries(f: Frame) returns (r: Result<(Stats, seq<ResultRow>)>)
    ensures RedfinTable(f).Err? ==> r == Err(RedfinTable(f).error)
    ensures RedfinTable(f).Ok? && RedfinTable(f).value.dates == [] ==> r == Err(IndexError)
    ensures r.Ok? <==> RedfinTable(f).Ok? && RedfinTable(f).value.dates != []
    ensures r.Ok? ==>
              RedfinTable(f).Ok? &&
              var t := RedfinTable(f).value;
              var n := |t.columns|;
              n > 0 && SummaryStats(t) == Ok(r.value.0) && |r.value.1| == |t.regions| &&
              forall i :: 0 <= i < |t.regions| ==>
                r.value.1[i].state == t.regions[i] &&
                r.value.1[i].latestPrice == t.columns[n - 1][i] &&
                r.value.1[i].mom == GrowthRates(t).value[i].mom &&
                r.value.1[i].yoy == GrowthRates(t).value[i].yoy
  {
    var loaded := LoadRedfinData(f);
    if loaded.Err? {
      return Err(loaded.error);
    }
    var t := loaded.value;
    var stats := SummaryStats(t);
    if stats.Err? {
      return Err(stats.error);
    }
    var growth := GrowthRates(t);
    return Ok((stats.value, ResultRows(t, growth.value)));
  }

  /** The `results` frame: by position, the index, the last month's column
      and the two growth columns. */
  function ResultRows(t: PriceTable, growth: seq<GrowthRow>): (rows: seq<ResultRow>)
    requires WellShaped(t) && |t.columns| > 0 && |growth| == |t.regions|
    ensures |rows| == |t.regions|
    ensures forall i :: 0 <= i < |t.regions| ==>
              rows[i] == ResultRow(t.regions[i], t.columns[|t.columns| - 1][i], growth[i].mom, growth[i].yoy)
  {
    seq(|t.regions|, i requires 0 <= i < |t.regions| =>
      ResultRow(t.regions[i], t.columns[|t.columns| - 1][i], growth[i].mom, growth[i].yoy))
  }
}
