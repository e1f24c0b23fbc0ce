/** The Redfin median sale price reader. The file's first data row holds the
    month labels, so the header is shifted down one row; the latest month is
    the rightmost column with any value; each region's price is its row's
    rightmost usable cell, with "$" deleted and "K" spelled out as "000". DC
    and Puerto Rico are not in the file and get fixed prices. */
module SalePrice {
  import opened Common
  import opened Tables
  import opened RegionKeys

  const WashingtonDcKey := "washington_dc"
  const PuertoRicoKey := "puerto_rico"
  const WashingtonDcPrice := 565000
  const PuertoRicoPrice := 138000

  /** A table after `df.columns = df.iloc[0]; df = df.iloc[1:]`: its column
      labels are the cells of the old first row (missing ones stay missing)
      and its data are the rows below it. */
  datatype Shifted = Shifted(labels: seq<RawCell>, data: seq<seq<RawCell>>)

  function ShiftHeader(df: Frame): (r: Result<Shifted>)
    ensures df.rows == [] <==> r == Err(IndexError)
    ensures r.Ok? ==> |r.value.labels| == |df.header| && r.value.data == df.rows[1..]
    ensures r.Ok? ==> forall j :: 0 <= j < |df.header| ==> r.value.labels[j] == CellAt(df.rows[0], j)
  {
    if df.rows == [] then Err(IndexError)
    else Ok(Shifted(seq(|df.header|, j requires 0 <= j < |df.header| => CellAt(df.rows[0], j)), df.rows[1..]))
  }

  /** The shift loses nothing: when the first row has one cell per column,
      the labels followed by the data rows are the file's rows. */
  lemma ShiftHeaderRoundTrip(df: Frame)
    requires df.rows != [] && |df.rows[0]| == |df.header|
    ensures ShiftHeader(df).Ok?
    ensures df.rows == [ShiftHeader(df).value.labels] + ShiftHeader(df).value.data
  {
    var s := ShiftHeader(df).value;
    assert s.labels == df.rows[0];
  }

  // ---------------------------------------------------------- latest month

  /** `df[col].notna().any()`, for the column at position `j`. */
  predicate HasValue(data: seq<seq<RawCell>>, j: nat)
  {
    exists r :: 0 <= r < |data| && CellAt(data[r], j).Some?
  }

  /** Position of the rightmost column among 1 .. n-1 that holds any value. */
  function LatestColumn(data: seq<seq<RawCell>>, n: nat): (r: Option<nat>)
    ensures r.Some? ==> 1 <= r.value < n && HasValue(data, r.value)
    ensures r.Some? ==> forall j :: r.value < j < n ==> !HasValue(data, j)
    ensures r.None? ==> forall j :: 1 <= j < n ==> !HasValue(data, j)
  {
    if n <= 1 then None
    else if HasValue(data, n - 1) then Some(n - 1)
    else LatestColumn(data, n - 1)
  }

  /** The scan for `latest_date`, right to left, stopping at the first
      column with a value; the month label of that column, or None. */
  method LatestDate(s: Shifted) returns (date: Option<RawCell>)
    ensures date == (match LatestColumn(s.data, |s.labels|)
                     case None => None
                     case Some(j) => Some(s.labels[j]))
  {
    date := None;
    var j := |s.labels|;
    while j > 1
      invariant 1 <= j <= |s.labels| || j == |s.labels| == 0
      invariant LatestColumn(s.data, |s.labels|) == LatestColumn(s.data, j)
      decreases j
    {
      j := j - 1;
      if exists r :: 0 <= r < |s.data| && CellAt(s.data[r], j).Some? {
        date := Some(s.labels[j]);
        return;
      }
    }
  }

  // ----------------------------------------------------------- one region

  /** A cell the price scan accepts: `pd.notna(price) and price != ""`. */
  predicate Usable(c: RawCell)
  {
    c.Some? && c.value != ""
  }

  /** Position of the rightmost usable cell among columns 1 .. n-1 of `row`. */
  function LatestUsable(row: seq<RawCell>, n: nat): (r: Option<nat>)
    ensures r.Some? ==> 1 <= r.value < n && Usable(CellAt(row, r.value))
    ensures r.Some? ==> forall j :: r.value < j < n ==> !Usable(CellAt(row, j))
    ensures r.None? ==> forall j :: 1 <= j < n ==> !Usable(CellAt(row, j))
  {
    if n <= 1 then None
    else if Usable(CellAt(row, n - 1)) then Some(n - 1)
    else LatestUsable(row, n - 1)
  }

  /** `int(float(price.replace("$", "").replace("K", "000")))`. */
  function PriceOf(text: string): (r: Result<Value>)
    ensures r.Err? <==> ParseDecimal(PriceText(text)).None?
    ensures r.Err? ==> r.error == ValueError
    ensures r.Ok? ==> r.value == Int(TruncateToInt(ParseDecimal(PriceText(text)).value))
  {
    match ParseDecimal(PriceText(text))
    case None => Err(ValueError)
    case Some(x) => Ok(Int(TruncateToInt(x)))
  }

  /** The price scan over a matched row, right to left with `break`; NA when
      no cell is usable (the loop leaves `latest_price` at None). */
  method LatestPrice(row: seq<RawCell>, n: nat) returns (r: Result<Value>)
    ensures r == (match LatestUsable(row, n)
                  case None => Ok(NA)
                  case Some(j) => PriceOf(CellAt(row, j).value))
  {
    var j := n;
    while j > 1
      invariant 1 <= j <= n || j == n == 0
      invariant LatestUsable(row, n) == LatestUsable(row, j)
      decreases j
    {
      j := j - 1;
      var price := CellAt(row, j);
      if price.Some? && price.value != "" {
        return PriceOf(price.value);
      }
    }
    return Ok(NA);
  }

  /** The price of the region `key`, as the loop body computes it. The
      alias is looked up before the special cases, so its errors come first. */
  function SalePriceValue(s: Shifted, keys: Frame, key: Value): Result<Value>
  {
    var alias :- FindKeyRow(keys, key, ZillowRegionNameColumn);
    if key == Text(WashingtonDcKey) then Ok(Int(WashingtonDcPrice))
    else if key == Text(PuertoRicoKey) then Ok(Int(PuertoRicoPrice))
    else if |s.labels| == 0 then Err(IndexError)  // `iloc[:, 0]` of a table without columns
    else if alias.None? || alias.value.None? then Ok(NA)  // `== None` and `== NaN` match no row
    else match FirstMatch(s.data, 0, Text(alias.value.value))
      case None => Ok(NA)
      case Some(i) =>
        match LatestUsable(s.data[i], |s.labels|)
        case None => Ok(NA)
        case Some(j) => PriceOf(CellAt(s.data[i], j).value)
  }

  method SalePriceOf(s: Shifted, keys: Frame, key: Value) returns (r: Result<Value>)
    ensures r == SalePriceValue(s, keys, key)
  {
    var alias :- FindKeyRow(keys, key, ZillowRegionNameColumn);
    if key == Text(WashingtonDcKey) {
      return Ok(Int(WashingtonDcPrice));
    } else if key == Text(PuertoRicoKey) {
      return Ok(Int(PuertoRicoPrice));
    }
    if |s.labels| == 0 {
      return Err(IndexError);
    }
    if alias.None? || alias.value.None? {
      return Ok(NA);
    }
    var found := FirstMatch(s.data, 0, Text(alias.value.value));
    if found.None? {
      return Ok(NA);
    }
    r := LatestPrice(s.data[found.value], |s.labels|);
  }

  // ----------------------------------------------------------- the reader

  /** Every region's outcome, in row order. */
  function SalePriceOutcomes(s: Shifted, keys: Frame, regionKeys: seq<Value>): (outs: seq<Result<Value>>)
    ensures |outs| == |regionKeys|
  {
    seq(|regionKeys|, i requires 0 <= i < |regionKeys| => SalePriceValue(s, keys, regionKeys[i]))
  }

  /** What `process_median_sale_price_data` returns for the regions
      `regionKeys`: the price dict and the latest month label. */
  function SalePriceColumn(df: Frame, keys: Frame, regionKeys: seq<Value>): (r: Result<(Dict, Option<RawCell>)>)
    ensures df.rows == [] ==> r == Err(IndexError)
    ensures r.Ok? ==> |r.value.0| <= |regionKeys|
  {
    var s :- ShiftHeader(df);
    var date := match LatestColumn(s.data, |s.labels|) case None => None case Some(j) => Some(s.labels[j]);
    var d :- Collect(regionKeys, SalePriceOutcomes(s, keys, regionKeys));
    Ok((d, date))
  }

  /** The reader's dict fails exactly when some region's price fails;
      otherwise, with distinct keys, value i is region i's price. The month
      is the label of the latest column with a value, or None. */
  lemma {:induction false} SalePriceColumnPositional(df: Frame, keys: Frame, regionKeys: seq<Value>)
    requires df.rows != [] && Distinct(regionKeys)
    ensures var s := ShiftHeader(df).value;
            var r := SalePriceColumn(df, keys, regionKeys);
            (r.Ok? <==> forall i :: 0 <= i < |regionKeys| ==> SalePriceValue(s, keys, regionKeys[i]).Ok?) &&
            (r.Ok? ==> |Values(r.value.0)| == |regionKeys| &&
                       forall i :: 0 <= i < |regionKeys| ==>
                         Values(r.value.0)[i] == SalePriceValue(s, keys, regionKeys[i]).value) &&
            (r.Ok? ==> r.value.1 == match LatestColumn(s.data, |s.labels|)
                                    case None => None
                                    case Some(j) => Some(s.labels[j]))
  {
    var s := ShiftHeader(df).value;
    var outs := SalePriceOutcomes(s, keys, regionKeys);
    if AllOk(outs) {
      DictOfDistinct(regionKeys, OkValues(outs));
    }
  }

  method ReadSalePrice(df: Frame, keys: Frame, regionKeys: seq<Value>) returns (r: Result<(Dict, Option<RawCell>)>)
    ensures r == SalePriceColumn(df, keys, regionKeys)
  {
    var s :- ShiftHeader(df);
    var date := LatestDate(s);
    var d :- SalePrices(s, keys, regionKeys);
    return Ok((d, date));
  }

  /** The `for _, row in combined_df.iterrows()` loop of the reader. */
  method SalePrices(s: Shifted, keys: Frame, regionKeys: seq<Value>) returns (r: Result<Dict>)
    ensures r == Collect(regionKeys, SalePriceOutcomes(s, keys, regionKeys))
  {
    ghost var outs := SalePriceOutcomes(s, keys, regionKeys);
    var d: Dict := [];
    var i := 0;
    while i < |regionKeys|
      invariant 0 <= i <= |regionKeys|
      invariant AllOk(outs[..i])
      invariant d == DictOf(regionKeys[..i], OkValues(outs[..i]))
    {
      var v := SalePriceOf(s, keys, regionKeys[i]);
      assert v == outs[i];
      if v.Err? {
        FirstErrorAt(outs, i);
        return Err(v.error);
      }
      CollectStep(regionKeys, outs, i, d);
      d := Put(d, regionKeys[i], v.value);
      i := i + 1;
    }
    CollectDone(regionKeys, outs, d);
    return Ok(d);
  }

  // ----------------------------------------------------------- properties

  /** DC and Puerto Rico get their fixed prices whatever the file holds,
      once their alias lookup succeeds. */
  lemma FixedPrices(s: Shifted, keys: Frame)
    ensures FindKeyRow(keys, Text(WashingtonDcKey), ZillowRegionNameColumn).Ok? ==>
              SalePriceValue(s, keys, Text(WashingtonDcKey)) == Ok(Int(565000))
    ensures FindKeyRow(keys, Text(PuertoRicoKey), ZillowRegionNameColumn).Ok? ==>
              SalePriceValue(s, keys, Text(PuertoRicoKey)) == Ok(Int(138000))
  {
  }

  /** Any other region whose alias names no row of the file is NA. */
  lemma UnmatchedRegionIsMissing(s: Shifted, keys: Frame, key: Value, alias: string)
    requires key != Text(WashingtonDcKey) && key != Text(PuertoRicoKey) && |s.labels| > 0
    requires FindKeyRow(keys, key, ZillowRegionNameColumn) == Ok(Some(Some(alias)))
    requires forall i :: 0 <= i < |s.data| ==> CellAt(s.data[i], 0) != Some(alias)
    ensures SalePriceValue(s, keys, key) == Ok(NA)
  {
    assert FirstMatch(s.data, 0, Text(alias)).None? by {
      assert forall i :: 0 <= i < |s.data| ==> !Matches(s.data[i], 0, Text(alias));
    }
  }

  /** Otherwise the price comes from the first row whose first cell is the
      alias, at its rightmost usable cell. */
  lemma MatchedRegionPrice(s: Shifted, keys: Frame, key: Value, alias: string, i: nat, j: nat)
    requires key != Text(WashingtonDcKey) && key != Text(PuertoRicoKey) && |s.labels| > 0
    requires FindKeyRow(keys, key, ZillowRegionNameColumn) == Ok(Some(Some(alias)))
    requires i < |s.data| && CellAt(s.data[i], 0) == Some(alias)
    requires forall k :: 0 <= k < i ==> CellAt(s.data[k], 0) != Some(alias)
    requires 1 <= j < |s.labels| && Usable(CellAt(s.data[i], j))
    requires forall k :: j < k < |s.labels| ==> !Usable(CellAt(s.data[i], k))
    ensures SalePriceValue(s, keys, key) == PriceOf(CellAt(s.data[i], j).value)
  {
    var m := FirstMatch(s.data, 0, Text(alias));
    assert Matches(s.data[i], 0, Text(alias));
    assert forall k :: 0 <= k < i ==> !Matches(s.data[k], 0, Text(alias));
    assert m == Some(i);
    var u := LatestUsable(s.data[i], |s.labels|);
    assert u == Some(j);
  }

  /** "$<n>K" is n thousand dollars. */
  lemma PriceOfThousands(n: nat)
    ensures PriceOf("$" + NatToString(n) + "K") == Ok(Int(n * 1000))
  {
    PriceTextOfThousands(n);
  }

  /** "$1.5K" becomes "1.5000" and so 1 dollar, not 1500. */
  lemma PriceOfFractionalThousands()
    ensures PriceOf("$1.5K") == Ok(Int(1))
  {
    FractionalThousandsReadLiterally();
  }
}
