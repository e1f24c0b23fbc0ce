/** The two census readers: total population and median household income per
    region. Both select the label rows matching a needle, then, region by
    region, look up the region's census name, read the column named after it
    in the first selected row, strip the thousands separators and parse an
    integer. The first failing region aborts the whole reader. */
module CensusReaders {
  import opened Common
  import opened Tables
  import opened RegionKeys

  const LabelColumn := "Label (Grouping)"
  const PopulationNeedle := "Total population"
  const PopulationSuffix := "!!Estimate"
  const IncomeNeedle := "Households"
  const IncomeSuffix := "!!Median income (dollars)!!Estimate"

  /** `df[df[LabelColumn].str.contains(needle, na=False)]`: the rows whose
      label contains the needle; a missing label counts as no match. */
  predicate LabelMatches(row: seq<RawCell>, l: nat, needle: string)
  {
    CellAt(row, l).Some? && Contains(CellAt(row, l).value, needle)
  }

  function SelectRows(rows: seq<seq<RawCell>>, l: nat, needle: string): (r: seq<seq<RawCell>>)
    ensures |r| <= |rows|
    ensures forall i :: 0 <= i < |r| ==> LabelMatches(r[i], l, needle)
  {
    if rows == [] then []
    else (if LabelMatches(rows[0], l, needle) then [rows[0]] else []) + SelectRows(rows[1..], l, needle)
  }

  /** The row `.iloc[0]` reads is the first row whose label matches, and
      there is none exactly when no label matches. */
  lemma {:induction false} SelectRowsFirst(rows: seq<seq<RawCell>>, l: nat, needle: string)
    ensures SelectRows(rows, l, needle) == [] <==> forall i :: 0 <= i < |rows| ==> !LabelMatches(rows[i], l, needle)
    ensures forall i :: 0 <= i < |rows| && LabelMatches(rows[i], l, needle) &&
                        (forall j :: 0 <= j < i ==> !LabelMatches(rows[j], l, needle)) ==>
                          SelectRows(rows, l, needle)[0] == rows[i]
  {
    if rows != [] {
      SelectRowsFirst(rows[1..], l, needle);
      forall i | 0 < i < |rows| ensures rows[1..][i - 1] == rows[i] {}
    }
  }

  /** One region's value: `int(processed_df[alias + suffix].iloc[0].replace(",", ""))`
      where `alias` is the region's `zillow_region_name`. */
  function CensusValue(header: seq<string>, selected: seq<seq<RawCell>>, keys: Frame, key: Value, suffix: string)
    : (r: Result<Value>)
    ensures r.Ok? ==> r.value.Int?
  {
    var alias :- FindKeyRow(keys, key, ZillowRegionNameColumn);
    if alias.None? || alias.value.None? then
      Err(TypeError)  // None + str, or NaN + str
    else
      var column := alias.value.value + suffix;
      match ColumnIndex(header, column)
      case None => Err(KeyError(column))
      case Some(c) =>
        if selected == [] then Err(IndexError)
        else match CellAt(selected[0], c)
          case None => Err(AttributeError)  // NaN has no `.replace`
          case Some(text) =>
            match ParseInt(Replace(text, ',', ""))
            case None => Err(ValueError)
            case Some(n) => Ok(Int(n))
  }

  /** What a census reader returns for the regions `regionKeys` (the
      `key_row` column of the combined table, in row order). */
  function CensusColumn(df: Frame, keys: Frame, regionKeys: seq<Value>, needle: string, suffix: string)
    : (r: Result<Dict>)
    ensures LabelColumn !in df.header ==> r == Err(KeyError(LabelColumn))
    ensures r.Ok? ==> |r.value| <= |regionKeys|
  {
    match ColumnIndex(df.header, LabelColumn)
    case None => Err(KeyError(LabelColumn))
    case Some(l) =>
      var selected := SelectRows(df.rows, l, needle);
      Collect(regionKeys, seq(|regionKeys|, i requires 0 <= i < |regionKeys| =>
                                CensusValue(df.header, selected, keys, regionKeys[i], suffix)))
  }

  method ReadCensus(df: Frame, keys: Frame, regionKeys: seq<Value>, needle: string, suffix: string)
      returns (r: Result<Dict>)
    ensures r == CensusColumn(df, keys, regionKeys, needle, suffix)
  {
    var labelAt := ColumnIndex(df.header, LabelColumn);
    if labelAt.None? {
      return Err(KeyError(LabelColumn));
    }
    var l := labelAt.value;
    var selected := SelectRows(df.rows, l, needle);
    var outs := seq(|regionKeys|, i requires 0 <= i < |regionKeys| =>
                      CensusValue(df.header, selected, keys, regionKeys[i], suffix));
    r := FillDict(regionKeys, outs);
  }

  /** `process_census_population_data`. */
  method ReadPopulation(df: Frame, keys: Frame, regionKeys: seq<Value>) returns (r: Result<Dict>)
    ensures r == CensusColumn(df, keys, regionKeys, PopulationNeedle, PopulationSuffix)
  {
    r := ReadCensus(df, keys, regionKeys, PopulationNeedle, PopulationSuffix);
  }

  /** `process_median_household_income_data`. */
  method ReadIncome(df: Frame, keys: Frame, regionKeys: seq<Value>) returns (r: Result<Dict>)
    ensures r == CensusColumn(df, keys, regionKeys, IncomeNeedle, IncomeSuffix)
  {
    r := ReadCensus(df, keys, regionKeys, IncomeNeedle, IncomeSuffix);
  }

  /** A region with a census name whose column, in the first selected row,
      holds a count printed with thousands separators reads as that count. */
  lemma CensusValueOfCount(header: seq<string>, selected: seq<seq<RawCell>>, keys: Frame, key: Value,
                           suffix: string, alias: string, n: nat)
    requires FindKeyRow(keys, key, ZillowRegionNameColumn) == Ok(Some(Some(alias)))
    requires alias + suffix in header && selected != []
    requires CellAt(selected[0], ColumnIndex(header, alias + suffix).value) == Some(WithThousandsSeparators(n))
    ensures CensusValue(header, selected, keys, key, suffix) == Ok(Int(n))
  {
    StripThousandsSeparators(n);
    ParseIntOfIntToString(n);
  }

  /** The error cases of one region's value once its census name `alias` is
      known: KeyError for a missing `alias + suffix` column, IndexError when
      no label row was selected, AttributeError for a missing cell and
      ValueError when the text without commas is not an integer. It reads as
      an integer exactly when none of these happens. */
  lemma CensusValueErrors(header: seq<string>, selected: seq<seq<RawCell>>, keys: Frame, key: Value,
                          suffix: string, alias: string)
    requires FindKeyRow(keys, key, ZillowRegionNameColumn) == Ok(Some(Some(alias)))
    ensures var r := CensusValue(header, selected, keys, key, suffix);
            var column := alias + suffix;
            (column !in header ==> r == Err(KeyError(column))) &&
            (column in header && selected == [] ==> r == Err(IndexError)) &&
            (column in header && selected != [] ==>
               var cell := CellAt(selected[0], ColumnIndex(header, column).value);
               (cell.None? ==> r == Err(AttributeError)) &&
               (cell.Some? && ParseInt(Replace(cell.value, ',', "")).None? ==> r == Err(ValueError)) &&
               (cell.Some? && ParseInt(Replace(cell.value, ',', "")).Some? ==>
                  r == Ok(Int(ParseInt(Replace(cell.value, ',', "")).value))))
  {
  }

  /** A `find_key_row` that raises (no `zillow_region_name` column) makes the
      region's value raise the same exception. */
  lemma CensusValueLookupError(header: seq<string>, selected: seq<seq<RawCell>>, keys: Frame, key: Value,
                               suffix: string)
    requires FindKeyRow(keys, key, ZillowRegionNameColumn).Err?
    ensures CensusValue(header, selected, keys, key, suffix) == Err(FindKeyRow(keys, key, ZillowRegionNameColumn).error)
  {
  }

  /** A region without a census name (`find_key_row` returned None, or a
      missing cell) raises TypeError; the reader then fails too, with the
      first failing region's error (`CensusColumnPositional`). */
  lemma CensusValueWithoutAlias(header: seq<string>, selected: seq<seq<RawCell>>, keys: Frame, key: Value,
                                suffix: string)
    requires FindKeyRow(keys, key, ZillowRegionNameColumn) in {Ok(None), Ok(Some(None))}
    ensures CensusValue(header, selected, keys, key, suffix) == Err(TypeError)
  {
  }

  /** The reader's dict fails exactly when some region fails, with the first
      failing region's error; otherwise, with distinct keys, value i belongs
      to region i. */
  lemma {:induction false} CensusColumnPositional(df: Frame, keys: Frame, regionKeys: seq<Value>, needle: string,
                                                  suffix: string)
    requires LabelColumn in df.header && Distinct(regionKeys)
    ensures var selected := SelectRows(df.rows, ColumnIndex(df.header, LabelColumn).value, needle);
            var r := CensusColumn(df, keys, regionKeys, needle, suffix);
            (r.Ok? <==> forall i :: 0 <= i < |regionKeys| ==>
                          CensusValue(df.header, selected, keys, regionKeys[i], suffix).Ok?) &&
            (r.Ok? ==> |Values(r.value)| == |regionKeys| &&
                       forall i :: 0 <= i < |regionKeys| ==>
                         Values(r.value)[i] == CensusValue(df.header, selected, keys, regionKeys[i], suffix).value)
  {
    var l := ColumnIndex(df.header, LabelColumn).value;
    var selected := SelectRows(df.rows, l, needle);
    var outs := seq(|regionKeys|, i requires 0 <= i < |regionKeys| =>
                      CensusValue(df.header, selected, keys, regionKeys[i], suffix));
    if AllOk(outs) {
      DictOfDistinct(regionKeys, OkValues(outs));
    }
  }
}
