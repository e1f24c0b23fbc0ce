/** `process_csv_files`: the shared output table and the stages that fill it,
    column by column, in the order the program runs them. */
module Pipeline {
  import opened Common
  import opened Tables
  import opened RegionKeys
  import opened CensusReaders
  import opened SalePrice
  import opened Ranking
  import opened Affordability
  import opened Blurbs

  /** The thirteen output columns. */
  datatype Column =
    | KeyRow
    | CensusPopulation | PopulationRank | PopulationBlurbColumn
    | MedianHouseholdIncome | MedianHouseholdIncomeRank | MedianHouseholdIncomeBlurb
    | MedianSalePrice | MedianSalePriceRank | MedianSalePriceBlurb
    | HouseAffordabilityRatio | HouseAffordabilityRatioRank | HouseAffordabilityRatioBlurb

  const AllColumns: set<Column> := {
    KeyRow,
    CensusPopulation, PopulationRank, PopulationBlurbColumn,
    MedianHouseholdIncome, MedianHouseholdIncomeRank, MedianHouseholdIncomeBlurb,
    MedianSalePrice, MedianSalePriceRank, MedianSalePriceBlurb,
    HouseAffordabilityRatio, HouseAffordabilityRatioRank, HouseAffordabilityRatioBlurb
  }

  lemma AllColumnsComplete(c: Column)
    ensures c in AllColumns
  {
  }

  function Missing(n: nat): (r: seq<Value>)
    ensures |r| == n && forall i :: 0 <= i < n ==> r[i] == NA
  {
    seq(n, _ => NA)
  }

  predicate AllMissing(col: seq<Value>)
  {
    forall i :: 0 <= i < |col| ==> col[i] == NA
  }

  /** Every column of an `n`-row table freshly indexed by its first column
      assignment: all missing. */
  function Blank(n: nat): (m: map<Column, seq<Value>>)
    ensures forall c: Column :: c in m && m[c] == Missing(n)
  {
    var m := map c | c in AllColumns :: Missing(n);
    assert forall c: Column :: c in m by {
      forall c: Column ensures c in m { AllColumnsComplete(c); }
    }
    m
  }

  /** `combined_df`: a row count and one column of that length per output column. */
  class CombinedTable {
    var rowCount: nat
    var cells: map<Column, seq<Value>>

    ghost predicate Valid()
      reads this
    {
      forall c: Column :: c in cells && |cells[c]| == rowCount
    }

    function Get(c: Column): (col: seq<Value>)
      reads this
      requires Valid()
      ensures |col| == rowCount
    {
      cells[c]
    }

    /** `pd.DataFrame(columns=output_columns)`: no rows. */
    constructor ()
      ensures Valid() && rowCount == 0
      ensures forall c: Column :: cells[c] == []
    {
      rowCount := 0;
      cells := Blank(0);
    }

    /** `combined_df[c] = values` as `combine_data` does it for a Series
        (`data.values`, by position). A table without rows takes the length
        of the values and its other columns become missing; otherwise the
        length must match, or pandas raises ValueError and nothing changes. */
    method SetColumn(c: Column, values: seq<Value>) returns (ok: bool)
      modifies this
      requires Valid()
      ensures Valid()
      ensures ok <==> old(rowCount) == 0 || |values| == old(rowCount)
      ensures ok ==> rowCount == |values| && cells[c] == values
      ensures ok ==> forall d :: d != c ==> cells[d] == if old(rowCount) == 0 then Missing(|values|) else old(cells[d])
      ensures !ok ==> rowCount == old(rowCount) && cells == old(cells)
    {
      if rowCount == 0 {
        rowCount := |values|;
        cells := Blank(|values|)[c := values];
        ok := true;
      } else if |values| == rowCount {
        cells := cells[c := values];
        ok := true;
      } else {
        ok := false;
      }
    }
  }

  /** A column assignment to a table whose rows are already fixed by the
      region column: values computed from that column are never longer, so
      the row count stays, and the assignment succeeds exactly when the
      lengths agree. */
  method Assign(table: CombinedTable, c: Column, values: seq<Value>) returns (ok: bool)
    modifies table
    requires table.Valid() && |values| <= table.rowCount
    ensures table.Valid() && table.rowCount == old(table.rowCount)
    ensures ok <==> |values| == table.rowCount
    ensures table.cells == if ok then old(table.cells)[c := values] else old(table.cells)
  {
    ghost var before := table.cells;
    ok := table.SetColumn(c, values);
    forall d | d != c ensures table.cells[d] == before[d] {
      if ok && old(table.rowCount) == 0 {
        assert before[d] == [] && table.cells[d] == Missing(0);
      }
    }
    if ok {
      assert table.cells.Keys == before[c := values].Keys by {
        forall d: Column ensures d in table.cells && d in before { }
      }
    }
  }

  // ------------------------------------------------------------- the files

  /** An input file: its name and what `read_csv` makes of it (an error when
      reading raised). */
  datatype InputFile = InputFile(name: string, contents: Result<Frame>)

  predicate IsKeysFile(f: InputFile)
  {
    Contains(f.name, "KEYS")
  }

  /** `keys_df` after the KEYS loop: the last KEYS file that was read, even
      when its processing then failed; None when the variable was never set. */
  function LastKeys(files: seq<InputFile>): (keys: Option<Frame>)
  {
    if files == [] then None
    else
      var f := files[|files| - 1];
      if IsKeysFile(f) && f.contents.Ok? then Some(f.contents.value) else LastKeys(files[..|files| - 1])
  }

  function TextColumn(keys: seq<string>): (col: seq<Value>)
    ensures |col| == |keys| && forall i :: 0 <= i < |keys| ==> col[i] == Text(keys[i])
  {
    seq(|keys|, i requires 0 <= i < |keys| => Text(keys[i]))
  }

  /** What the KEYS loop makes of one file: the filtered keys as a column.
      None for a file that is not a KEYS file, was not read, or whose
      filter raised. */
  function KeysRead(f: InputFile): Option<seq<Value>>
  {
    if IsKeysFile(f) && f.contents.Ok? && ProcessKeys(f.contents.value).Ok? then
      Some(TextColumn(ProcessKeys(f.contents.value).value))
    else None
  }

  /** The region column after the KEYS loop over `files`: each filtered
      KEYS file is assigned in turn; the first non-empty one fixes the row
      count, and a later one of another length raises ValueError in
      `combine_data` and is skipped. */
  function KeyColumnAfter(files: seq<InputFile>): seq<Value>
  {
    if files == [] then []
    else
      var before := KeyColumnAfter(files[..|files| - 1]);
      var r := KeysRead(files[|files| - 1]);
      if r.Some? && (before == [] || |r.value| == |before|) then r.value else before
  }

  /** The region column came from a KEYS file in the list: it is the
      filter's output for that file's table. */
  predicate KeysFrom(files: seq<InputFile>, col: seq<Value>)
  {
    exists i :: 0 <= i < |files| && KeysRead(files[i]) == Some(col)
  }

  /** A region column with rows is the filter's output of one of the KEYS
      files. */
  lemma {:induction false} KeyColumnFromKeysFile(files: seq<InputFile>)
    ensures KeyColumnAfter(files) != [] ==> KeysFrom(files, KeyColumnAfter(files))
  {
    if files != [] {
      var n := |files| - 1;
      var before := KeyColumnAfter(files[..n]);
      if KeyColumnAfter(files) == before && before != [] {
        KeyColumnFromKeysFile(files[..n]);
        var j :| 0 <= j < n && KeysRead(files[..n][j]) == Some(before);
        assert files[..n][j] == files[j];
      }
    }
  }

  /** Without a KEYS file that is read and filtered the table has no rows. */
  lemma {:induction false} KeyColumnWithoutKeysFile(files: seq<InputFile>)
    requires forall j :: 0 <= j < |files| ==> KeysRead(files[j]).None?
    ensures KeyColumnAfter(files) == []
  {
    if files != [] {
      KeyColumnWithoutKeysFile(files[..|files| - 1]);
    }
  }

  /** The usual run, with one KEYS file that is read and filtered: the
      region column is exactly that file's filtered keys. */
  lemma {:induction false} KeyColumnOfOnlyKeysFile(files: seq<InputFile>, k: nat)
    requires k < |files| && KeysRead(files[k]).Some?
    requires forall j :: 0 <= j < |files| && j != k ==> KeysRead(files[j]).None?
    ensures KeyColumnAfter(files) == KeysRead(files[k]).value
  {
    var n := |files| - 1;
    if k == n {
      KeyColumnWithoutKeysFile(files[..n]);
    } else {
      KeyColumnOfOnlyKeysFile(files[..n], k);
    }
  }

  /** The KEYS loop: read, filter and assign the `key_row` column, skipping a
      file whose step raised. */
  method LoadKeys(table: CombinedTable, files: seq<InputFile>) returns (keys: Option<Frame>)
    modifies table
    requires table.Valid() && table.rowCount == 0 && forall c: Column :: table.cells[c] == []
    ensures table.Valid() && keys == LastKeys(files)
    ensures table.cells[KeyRow] == KeyColumnAfter(files)
    ensures forall c :: c != KeyRow ==> AllMissing(table.cells[c])
  {
    keys := None;
    var i := 0;
    while i < |files|
      invariant 0 <= i <= |files|
      invariant table.Valid() && keys == LastKeys(files[..i])
      invariant table.cells[KeyRow] == KeyColumnAfter(files[..i])
      invariant forall c :: c != KeyRow ==> AllMissing(table.cells[c])
    {
      assert files[..i + 1][..i] == files[..i];
      var f := files[i];
      if Contains(f.name, "KEYS") && f.contents.Ok? {
        keys := Some(f.contents.value);
        var processed := ProcessKeys(f.contents.value);
        if processed.Ok? {
          var _ := SetKeyColumn(table, TextColumn(processed.value));
        }
      }
      i := i + 1;
    }
    assert files[..i] == files;
  }

  /** `combined_df['key_row'] = ...` while every other column is still
      missing: they stay missing, and the column is assigned unless its
      length does not fit the rows of an earlier KEYS file. */
  method SetKeyColumn(table: CombinedTable, col: seq<Value>) returns (ok: bool)
    modifies table
    requires table.Valid() && forall c :: c != KeyRow ==> AllMissing(table.cells[c])
    ensures table.Valid() && forall c :: c != KeyRow ==> AllMissing(table.cells[c])
    ensures ok <==> old(table.rowCount) == 0 || |col| == old(table.rowCount)
    ensures ok ==> table.rowCount == |col| && table.cells[KeyRow] == col
    ensures !ok ==> table.rowCount == old(table.rowCount) && table.cells == old(table.cells)
  {
    ghost var before := table.cells;
    ok := table.SetColumn(KeyRow, col);
    forall c | c != KeyRow ensures AllMissing(table.cells[c]) {
      if table.cells[c] != before[c] {
        assert table.cells[c] == Missing(table.rowCount);
      }
    }
  }

  /** The columns the source readers fill. */
  predicate IsReaderColumn(c: Column)
  {
    c == CensusPopulation || c == MedianHouseholdIncome || c == MedianSalePrice
  }

  /** What the data loop's reader makes of one file, before `combine_data`:
      the column it fills and the `.values` of its Series, and for the sale
      price reader also `redfin_date`. */
  datatype SourceRead = Skipped | Read(column: Column, values: seq<Value>, date: Option<RawCell>)

  /** The reader chosen by the file's name (population before income before
      sale price), run on `keys_df` and the region column. A KEYS file, a
      file that was not read or matches no reader, an unset `keys_df`
      (NameError) and a reader that raised are all skipped. */
  function ReadOf(f: InputFile, keys: Option<Frame>, regionKeys: seq<Value>): (r: SourceRead)
    ensures r.Read? ==> IsReaderColumn(r.column) && |r.values| <= |regionKeys|
    ensures r.Read? ==> !IsKeysFile(f) && f.contents.Ok? && keys.Some?
  {
    if IsKeysFile(f) || f.contents.Err? || keys.None? then Skipped
    else if Contains(f.name, "CENSUS_POPULATION") then
      match CensusColumn(f.contents.value, keys.value, regionKeys, PopulationNeedle, PopulationSuffix)
      case Ok(d) => Read(CensusPopulation, Values(d), None)
      case Err(_) => Skipped
    else if Contains(f.name, "CENSUS_MHI_STATE") then
      match CensusColumn(f.contents.value, keys.value, regionKeys, IncomeNeedle, IncomeSuffix)
      case Ok(d) => Read(MedianHouseholdIncome, Values(d), None)
      case Err(_) => Skipped
    else if Contains(f.name, "REDFIN_MEDIAN_SALE_PRICE") then
      match SalePriceColumn(f.contents.value, keys.value, regionKeys)
      case Ok(p) => Read(MedianSalePrice, Values(p.0), p.1)
      case Err(_) => Skipped
    else Skipped
  }

  /** The reader filled column `c` with one value per region; a shorter
      Series makes `combine_data` raise ValueError. */
  predicate Fills(r: SourceRead, c: Column, n: nat)
  {
    r.Read? && r.column == c && |r.values| == n
  }

  /** The readers' outputs for the files, in the loop's order. */
  function ReadsOf(files: seq<InputFile>, keys: Option<Frame>, regionKeys: seq<Value>): (outputs: seq<SourceRead>)
    ensures |outputs| == |files| && forall i :: 0 <= i < |files| ==> outputs[i] == ReadOf(files[i], keys, regionKeys)
  {
    seq(|files|, i requires 0 <= i < |files| => ReadOf(files[i], keys, regionKeys))
  }

  /** Reader column `c` of an `n`-row table after the data loop has seen
      the reader outputs `outputs`: the values of the last output that filled it,
      `init` when none did. */
  function ColumnAfter(outputs: seq<SourceRead>, n: nat, c: Column, init: seq<Value>): seq<Value>
  {
    if outputs == [] then init
    else if Fills(outputs[|outputs| - 1], c, n) then outputs[|outputs| - 1].values
    else ColumnAfter(outputs[..|outputs| - 1], n, c, init)
  }

  /** `redfin_date` after the data loop: the month of the last sale price
      reader that returned, whether or not its column then fit; None when
      none did. */
  function DateAfter(outputs: seq<SourceRead>): Option<RawCell>
  {
    if outputs == [] then None
    else
      var r := outputs[|outputs| - 1];
      if r.Read? && r.column == MedianSalePrice then r.date else DateAfter(outputs[..|outputs| - 1])
  }

  /** One more file: its output fills a column or sets the date, or the fold
      is as before. */
  lemma AfterStep(outputs: seq<SourceRead>, i: nat, n: nat)
    requires i < |outputs|
    ensures forall c, init :: ColumnAfter(outputs[..i + 1], n, c, init) ==
              if Fills(outputs[i], c, n) then outputs[i].values else ColumnAfter(outputs[..i], n, c, init)
    ensures DateAfter(outputs[..i + 1]) ==
              if outputs[i].Read? && outputs[i].column == MedianSalePrice then outputs[i].date else DateAfter(outputs[..i])
  {
    var prefix := outputs[..i + 1];
    assert prefix != [] && prefix[..|prefix| - 1] == outputs[..i] && prefix[|prefix| - 1] == outputs[i];
    forall c, init ensures ColumnAfter(prefix, n, c, init) ==
                             if Fills(outputs[i], c, n) then outputs[i].values else ColumnAfter(outputs[..i], n, c, init)
    {
    }
  }

  /** The column holds the output of the last file that filled it: later
      files with other readers, failing readers or misfitting Series leave
      it alone. */
  lemma {:induction false} SourcesLastFill(outputs: seq<SourceRead>, n: nat, c: Column, init: seq<Value>, i: nat)
    requires i < |outputs| && Fills(outputs[i], c, n)
    requires forall j :: i < j < |outputs| ==> !Fills(outputs[j], c, n)
    ensures ColumnAfter(outputs, n, c, init) == outputs[i].values
  {
    var m := |outputs| - 1;
    if i < m {
      assert outputs[..m][i] == outputs[i];
      assert forall j :: i < j < m ==> outputs[..m][j] == outputs[j];
      SourcesLastFill(outputs[..m], n, c, init, i);
    }
  }

  /** A column that no file filled keeps its value from before the loop. */
  lemma {:induction false} SourcesNoFill(outputs: seq<SourceRead>, n: nat, c: Column, init: seq<Value>)
    requires forall j :: 0 <= j < |outputs| ==> !Fills(outputs[j], c, n)
    ensures ColumnAfter(outputs, n, c, init) == init
  {
    if outputs != [] {
      var m := |outputs| - 1;
      assert forall j :: 0 <= j < m ==> outputs[..m][j] == outputs[j];
      SourcesNoFill(outputs[..m], n, c, init);
    }
  }

  /** The date is the month of the last sale price reader that returned. */
  lemma {:induction false} SourcesLastDate(outputs: seq<SourceRead>, i: nat)
    requires i < |outputs| && outputs[i].Read? && outputs[i].column == MedianSalePrice
    requires forall j :: i < j < |outputs| ==> !(outputs[j].Read? && outputs[j].column == MedianSalePrice)
    ensures DateAfter(outputs) == outputs[i].date
  {
    var m := |outputs| - 1;
    if i < m {
      assert outputs[..m][i] == outputs[i];
      assert forall j :: i < j < m ==> outputs[..m][j] == outputs[j];
      SourcesLastDate(outputs[..m], i);
    }
  }

  /** The data loop: each non-KEYS file is read and dispatched on its name;
      a reader that raises, or a column that does not fit, skips the file.
      Returns `redfin_date`, set whenever the sale price reader returned. */
  method ReadSources(table: CombinedTable, files: seq<InputFile>, keys: Option<Frame>) returns (date: Option<RawCell>)
    modifies table
    requires table.Valid()
    ensures table.Valid() && table.rowCount == old(table.rowCount)
    ensures forall c :: !IsReaderColumn(c) ==> table.cells[c] == old(table.cells[c])
    ensures var outputs := ReadsOf(files, keys, old(table.cells[KeyRow]));
            SourcesRead(old(table.cells), table.cells, outputs, table.rowCount) && date == DateAfter(outputs)
  {
    ghost var outputs := ReadsOf(files, keys, table.cells[KeyRow]);
    ghost var init := table.cells;
    date := None;
    for i := 0 to |files|
      invariant table.Valid() && table.rowCount == old(table.rowCount)
      invariant forall c :: !IsReaderColumn(c) ==> table.cells[c] == init[c]
      invariant SourcesRead(init, table.cells, outputs[..i], table.rowCount)
      invariant date == DateAfter(outputs[..i])
    {
      date := ReadFile(table, files[i], keys, date, outputs[i]);
      AfterStep(outputs, i, table.rowCount);
    }
    assert outputs[..|files|] == outputs;
  }

  /** The three reader columns of `cells` are the fold of `outputs` over
      their values in `init`. */
  predicate SourcesRead(init: map<Column, seq<Value>>, cells: map<Column, seq<Value>>, outputs: seq<SourceRead>, n: nat)
    requires forall c: Column :: c in init && c in cells
  {
    cells[CensusPopulation] == ColumnAfter(outputs, n, CensusPopulation, init[CensusPopulation]) &&
    cells[MedianHouseholdIncome] == ColumnAfter(outputs, n, MedianHouseholdIncome, init[MedianHouseholdIncome]) &&
    cells[MedianSalePrice] == ColumnAfter(outputs, n, MedianSalePrice, init[MedianSalePrice])
  }

  /** One pass of the data loop: the file's reader, whose output is `r`,
      then `combine_data` of its Series into the reader's column. */
  method ReadFile(table: CombinedTable, f: InputFile, keys: Option<Frame>, dateBefore: Option<RawCell>, ghost r: SourceRead)
      returns (date: Option<RawCell>)
    modifies table
    requires table.Valid() && r == ReadOf(f, keys, table.cells[KeyRow])
    ensures table.Valid() && table.rowCount == old(table.rowCount)
    ensures (table.cells == if r.Read? && |r.values| == old(table.rowCount) then old(table.cells)[r.column := r.values]
                            else old(table.cells)) &&
            date == if r.Read? && r.column == MedianSalePrice then r.date else dateBefore
  {
    date := dateBefore;
    if !Contains(f.name, "KEYS") && f.contents.Ok? && keys.Some? {
      var df := f.contents.value;
      var regionKeys := table.Get(KeyRow);
      if Contains(f.name, "CENSUS_POPULATION") {
        var r := ReadPopulation(df, keys.value, regionKeys);
        if r.Ok? {
          var _ := Assign(table, CensusPopulation, Values(r.value));
        }
      } else if Contains(f.name, "CENSUS_MHI_STATE") {
        var r := ReadIncome(df, keys.value, regionKeys);
        if r.Ok? {
          var _ := Assign(table, MedianHouseholdIncome, Values(r.value));
        }
      } else if Contains(f.name, "REDFIN_MEDIAN_SALE_PRICE") {
        var r := ReadSalePrice(df, keys.value, regionKeys);
        if r.Ok? {
          date := r.value.1;
          var _ := Assign(table, MedianSalePrice, Values(r.value.0));
        }
      }
    }
  }

  // ---------------------------------------------------------------- ranks

  predicate IsRankColumn(c: Column)
  {
    c == PopulationRank || c == MedianHouseholdIncomeRank || c == MedianSalePriceRank
  }

  /** The rank stage. A rank Series has the table's index, so each
      assignment fits. */
  method ComputeRanks(table: CombinedTable)
    modifies table
    requires table.Valid()
    ensures table.Valid() && table.rowCount == old(table.rowCount)
    ensures RankedAgree(RankedOf(table.cells))
    ensures forall c :: !IsRankColumn(c) ==> table.cells[c] == old(table.cells[c])
  {
    var _ := table.SetColumn(PopulationRank, RankColumn(table.Get(CensusPopulation), false));
    var _ := table.SetColumn(MedianHouseholdIncomeRank, RankColumn(table.Get(MedianHouseholdIncome), false));
    var _ := table.SetColumn(MedianSalePriceRank, RankColumn(table.Get(MedianSalePrice), false));
  }

  // --------------------------------------------------------------- blurbs

  /** One blurb generator and its `combine_data`: the dict of blurbs keyed
      by region assigned by position. A lookup error or a dict that does not
      fit the table (a repeated region key) leaves the table as it was. */
  method AddBlurbColumn(table: CombinedTable, kind: BlurbKind, keys: Frame, rankColumn: Column, blurbColumn: Column)
      returns (err: Option<Error>)
    modifies table
    requires table.Valid() && blurbColumn != KeyRow && blurbColumn != rankColumn
    ensures table.Valid() && table.rowCount == old(table.rowCount)
    ensures err.Some? ==> table.cells == old(table.cells)
    ensures err.None? ==> table.cells == old(table.cells)[blurbColumn := table.cells[blurbColumn]] &&
                          BlurbsAt(kind, keys, old(table.Get(KeyRow)), old(table.Get(rankColumn)), table.Get(blurbColumn))
    ensures var outs := BlurbOutcomes(kind, keys, old(table.Get(KeyRow)), old(table.Get(rankColumn)));
            (err.None? <==> BlurbsFitIn(old(table.cells), kind, keys, rankColumn)) &&
            (!AllOk(outs) ==> err == Some(FirstError(outs))) &&
            (AllOk(outs) && !Distinct(old(table.Get(KeyRow))) ==> err == Some(ValueError))
  {
    var regionKeys := table.Get(KeyRow);
    var ranks := table.Get(rankColumn);
    var r := BlurbColumn(kind, keys, regionKeys, ranks);
    if r.Err? {
      return Some(r.error);
    }
    var ok := Assign(table, blurbColumn, r.value);
    if !ok {
      return Some(ValueError);
    }
    return None;
  }

  /** A blurb generator followed by `.values`: the blurbs of the dict in
      insertion order, or the exception of the first region that raised.
      They line up with the regions exactly when the dict has one entry per
      region. */
  method BlurbColumn(kind: BlurbKind, keys: Frame, regionKeys: seq<Value>, ranks: seq<Value>)
      returns (r: Result<seq<Value>>)
    requires |regionKeys| == |ranks|
    ensures r.Err? <==> !AllOk(BlurbOutcomes(kind, keys, regionKeys, ranks))
    ensures r.Err? ==> r.error == FirstError(BlurbOutcomes(kind, keys, regionKeys, ranks))
    ensures r.Ok? ==> |r.value| <= |regionKeys|
    ensures r.Ok? && |r.value| == |regionKeys| ==> BlurbsAt(kind, keys, regionKeys, ranks, r.value)
    ensures (r.Ok? && |r.value| == |regionKeys|) <==> BlurbsFit(kind, keys, regionKeys, ranks)
  {
    var d := ProcessBlurbs(kind, keys, regionKeys, ranks);
    if d.Err? {
      return Err(d.error);
    }
    var outs := BlurbOutcomes(kind, keys, regionKeys, ranks);
    if |Values(d.value)| == |regionKeys| {
      CollectFits(regionKeys, outs);
    }
    if Distinct(regionKeys) {
      DictOfDistinct(regionKeys, OkValues(outs));
    }
    return Ok(Values(d.value));
  }

  /** Row by row, `values` holds what each outcome returned, and none of
      them raised. */
  predicate RowsOk(outs: seq<Result<Value>>, values: seq<Value>)
  {
    |values| == |outs| && forall i :: 0 <= i < |outs| ==> outs[i] == Ok(values[i])
  }

  /** Row by row, `blurbs` holds the blurb generated for each region and its
      rank. */
  predicate BlurbsAt(kind: BlurbKind, keys: Frame, regionKeys: seq<Value>, ranks: seq<Value>, blurbs: seq<Value>)
    requires |regionKeys| == |ranks|
  {
    RowsOk(BlurbOutcomes(kind, keys, regionKeys, ranks), blurbs)
  }

  /** A generator and its `combine_data` go through: no region's lookup
      raises, and the regions are distinct, so the dict has one blurb per
      row. */
  predicate BlurbsFit(kind: BlurbKind, keys: Frame, regionKeys: seq<Value>, ranks: seq<Value>)
    requires |regionKeys| == |ranks|
  {
    AllOk(BlurbOutcomes(kind, keys, regionKeys, ranks)) && Distinct(regionKeys)
  }

  /** `BlurbsFit` for the ranks held in `rankColumn`. */
  predicate BlurbsFitIn(cells: map<Column, seq<Value>>, kind: BlurbKind, keys: Frame, rankColumn: Column)
    requires forall c: Column :: c in cells
  {
    |cells[rankColumn]| == |cells[KeyRow]| && BlurbsFit(kind, keys, cells[KeyRow], cells[rankColumn])
  }

  /** The blurb stage goes through on a table with these cells: each of its
      three generators fits. */
  predicate BlurbStageFits(cells: map<Column, seq<Value>>, keys: Frame, date: Option<RawCell>)
    requires forall c: Column :: c in cells
  {
    BlurbsFitIn(cells, PopulationKind, keys, PopulationRank) &&
    BlurbsFitIn(cells, IncomeKind, keys, MedianHouseholdIncomeRank) &&
    BlurbsFitIn(cells, SalePriceKind(date), keys, MedianSalePriceRank)
  }

  /** `BlurbsFitIn` reads only the region column and the rank column. */
  lemma BlurbsFitKept(before: map<Column, seq<Value>>, after: map<Column, seq<Value>>, kind: BlurbKind, keys: Frame, rankColumn: Column)
    requires forall c: Column :: c in before && c in after
    requires after[KeyRow] == before[KeyRow] && after[rankColumn] == before[rankColumn]
    ensures BlurbsFitIn(after, kind, keys, rankColumn) == BlurbsFitIn(before, kind, keys, rankColumn)
  {
  }

  /** Once the first generator has run, the blurb stage goes through exactly
      when it fitted and the other two fit the table it left. */
  lemma BlurbStageSplit(before: map<Column, seq<Value>>, after: map<Column, seq<Value>>, keys: Frame, date: Option<RawCell>)
    requires forall c: Column :: c in before && c in after
    requires after[KeyRow] == before[KeyRow]
    requires after[MedianHouseholdIncomeRank] == before[MedianHouseholdIncomeRank]
    requires after[MedianSalePriceRank] == before[MedianSalePriceRank]
    ensures BlurbStageFits(before, keys, date) <==>
              BlurbsFitIn(before, PopulationKind, keys, PopulationRank) &&
              BlurbsFitIn(after, IncomeKind, keys, MedianHouseholdIncomeRank) &&
              BlurbsFitIn(after, SalePriceKind(date), keys, MedianSalePriceRank)
  {
    BlurbsFitKept(before, after, IncomeKind, keys, MedianHouseholdIncomeRank);
    BlurbsFitKept(before, after, SalePriceKind(date), keys, MedianSalePriceRank);
  }

  /** Row by row: a blurb column of the generator holds, in row `i`, the
      blurb generated for region `i` and its rank. */
  lemma BlurbsAtRow(kind: BlurbKind, keys: Frame, regionKeys: seq<Value>, ranks: seq<Value>, blurbs: seq<Value>, i: nat)
    requires |regionKeys| == |ranks| && BlurbsAt(kind, keys, regionKeys, ranks, blurbs) && i < |regionKeys|
    ensures |blurbs| == |regionKeys|
    ensures BlurbValue(kind, keys, regionKeys[i], ranks[i]) == Ok(blurbs[i])
  {
  }

  /** The blurb stage, outside any handler: an unset `keys_df` raises
      NameError before the first generator runs, and the first generator
      that raises stops the stage. */
  method AddBlurbs(table: CombinedTable, keys: Option<Frame>, date: Option<RawCell>) returns (err: Option<Error>)
    modifies table
    requires table.Valid()
    ensures table.Valid() && table.rowCount == old(table.rowCount)
    ensures forall c :: !IsBlurbColumn(c) ==> table.cells[c] == old(table.cells[c])
    ensures keys.None? ==> err == Some(NameError) && table.cells == old(table.cells)
    ensures err.None? ==> keys.Some? && BlurbsDone(table.cells, keys.value, date)
    ensures err.None? <==> keys.Some? && BlurbStageFits(old(table.cells), keys.value, date)
  {
    if keys.None? {
      return Some(NameError);
    }
    ghost var before := table.cells;
    err := AddBlurbColumn(table, PopulationKind, keys.value, PopulationRank, PopulationBlurbColumn);
    if err.Some? {
      return;
    }
    ghost var populated := table.cells;
    BlurbStageSplit(before, populated, keys.value, date);
    err := AddLaterBlurbs(table, keys.value, date);
    BlurbStageFrame(before, populated, table.cells);
    if err.None? {
      BlurbsDoneOf(before, populated, table.cells, keys.value, date);
    }
  }

  /** The three generators of the blurb stage change only the blurb columns. */
  lemma BlurbStageFrame(before: map<Column, seq<Value>>, populated: map<Column, seq<Value>>, after: map<Column, seq<Value>>)
    requires forall c: Column :: c in before && c in after && c in populated
    requires populated == before[PopulationBlurbColumn := populated[PopulationBlurbColumn]]
    requires forall c :: c != MedianHouseholdIncomeBlurb && c != MedianSalePriceBlurb ==> after[c] == populated[c]
    ensures forall c :: !IsBlurbColumn(c) ==> after[c] == before[c]
  {
  }

  /** The three generators of the blurb stage, one after the other, leave
      `BlurbsDone`. */
  lemma BlurbsDoneOf(before: map<Column, seq<Value>>, populated: map<Column, seq<Value>>, after: map<Column, seq<Value>>,
                     keys: Frame, date: Option<RawCell>)
    requires forall c: Column :: c in before && c in after && c in populated
    requires |before[PopulationRank]| == |before[KeyRow]| == |after[MedianHouseholdIncomeRank]| == |after[MedianSalePriceRank]|
    requires populated == before[PopulationBlurbColumn := populated[PopulationBlurbColumn]]
    requires forall c :: c != MedianHouseholdIncomeBlurb && c != MedianSalePriceBlurb ==> after[c] == populated[c]
    requires BlurbsAt(PopulationKind, keys, before[KeyRow], before[PopulationRank], populated[PopulationBlurbColumn])
    requires BlurbsAt(IncomeKind, keys, after[KeyRow], after[MedianHouseholdIncomeRank], after[MedianHouseholdIncomeBlurb])
    requires BlurbsAt(SalePriceKind(date), keys, after[KeyRow], after[MedianSalePriceRank], after[MedianSalePriceBlurb])
    ensures BlurbsDone(after, keys, date)
  {
    assert after[KeyRow] == before[KeyRow] && after[PopulationRank] == before[PopulationRank];
    assert after[PopulationBlurbColumn] == populated[PopulationBlurbColumn];
  }

  /** The income and sale price generators of the blurb stage. */
  method AddLaterBlurbs(table: CombinedTable, keys: Frame, date: Option<RawCell>) returns (err: Option<Error>)
    modifies table
    requires table.Valid()
    ensures table.Valid() && table.rowCount == old(table.rowCount)
    ensures forall c :: c != MedianHouseholdIncomeBlurb && c != MedianSalePriceBlurb ==> table.cells[c] == old(table.cells[c])
    ensures err.None? ==>
              BlurbsAt(IncomeKind, keys, table.Get(KeyRow), table.Get(MedianHouseholdIncomeRank), table.Get(MedianHouseholdIncomeBlurb)) &&
              BlurbsAt(SalePriceKind(date), keys, table.Get(KeyRow), table.Get(MedianSalePriceRank), table.Get(MedianSalePriceBlurb))
    ensures err.None? <==>
              BlurbsFitIn(old(table.cells), IncomeKind, keys, MedianHouseholdIncomeRank) &&
              BlurbsFitIn(old(table.cells), SalePriceKind(date), keys, MedianSalePriceRank)
  {
    ghost var before := table.cells;
    err := AddBlurbColumn(table, IncomeKind, keys, MedianHouseholdIncomeRank, MedianHouseholdIncomeBlurb);
    if err.Some? {
      return;
    }
    BlurbsFitKept(before, table.cells, SalePriceKind(date), keys, MedianSalePriceRank);
    err := AddBlurbColumn(table, SalePriceKind(date), keys, MedianSalePriceRank, MedianSalePriceBlurb);
  }

  predicate IsBlurbColumn(c: Column)
  {
    c == PopulationBlurbColumn || c == MedianHouseholdIncomeBlurb || c == MedianSalePriceBlurb
  }

  /** The three blurb columns of the blurb stage, each generated row by row
      from the region and its rank. */
  predicate BlurbsDone(cells: map<Column, seq<Value>>, keys: Frame, date: Option<RawCell>)
    requires forall c: Column :: c in cells
  {
    var regions := cells[KeyRow];
    |cells[PopulationRank]| == |regions| && |cells[MedianHouseholdIncomeRank]| == |regions| &&
    |cells[MedianSalePriceRank]| == |regions| &&
    BlurbsAt(PopulationKind, keys, regions, cells[PopulationRank], cells[PopulationBlurbColumn]) &&
    BlurbsAt(IncomeKind, keys, regions, cells[MedianHouseholdIncomeRank], cells[MedianHouseholdIncomeBlurb]) &&
    BlurbsAt(SalePriceKind(date), keys, regions, cells[MedianSalePriceRank], cells[MedianSalePriceBlurb])
  }

  /** Columns other than the affordability ones keep the blurb stage's
      result. */
  lemma BlurbsKept(before: map<Column, seq<Value>>, after: map<Column, seq<Value>>, keys: Frame, date: Option<RawCell>)
    requires forall c: Column :: c in before && c in after
    requires forall c :: !IsAffordabilityColumn(c) ==> after[c] == before[c]
    requires BlurbsDone(before, keys, date)
    ensures BlurbsDone(after, keys, date)
  {
    assert after[KeyRow] == before[KeyRow];
    assert after[PopulationRank] == before[PopulationRank] && after[PopulationBlurbColumn] == before[PopulationBlurbColumn];
    assert after[MedianHouseholdIncomeRank] == before[MedianHouseholdIncomeRank];
    assert after[MedianHouseholdIncomeBlurb] == before[MedianHouseholdIncomeBlurb];
    assert after[MedianSalePriceRank] == before[MedianSalePriceRank] && after[MedianSalePriceBlurb] == before[MedianSalePriceBlurb];
  }

  // ----------------------------------------------------------- final stage

  predicate IsAffordabilityColumn(c: Column)
  {
    c == HouseAffordabilityRatio || c == HouseAffordabilityRatioRank || c == HouseAffordabilityRatioBlurb
  }

  /** Row by row, a present ratio has a present price and income. */
  predicate RatioBacked(ratios: seq<Value>, prices: seq<Value>, incomes: seq<Value>)
  {
    |ratios| == |prices| == |incomes| &&
    forall i :: 0 <= i < |ratios| ==> !ratios[i].NA? ==> !prices[i].NA? && !incomes[i].NA?
  }

  /** The handled block goes through on a table with these cells: the ratio
      of every row can be computed, and the affordability generator fits
      the ascending rank of those ratios. */
  predicate RatioStageFits(cells: map<Column, seq<Value>>, keys: Frame, date: Option<RawCell>)
    requires forall c: Column :: c in cells
  {
    var regions, prices, incomes := cells[KeyRow], cells[MedianSalePrice], cells[MedianHouseholdIncome];
    |prices| == |incomes| == |regions| &&
    var ratio := RatioColumn(prices, incomes);
    ratio.Ok? && BlurbsFit(AffordabilityKind(date), keys, regions, RankColumn(ratio.value, true))
  }

  /** The handled block: ratio, its ascending rank and its blurb. The ratio
      and the rank are assigned directly (their index is the table's); an
      exception stops the block and leaves what was already assigned. */
  method FinalStage(table: CombinedTable, keys: Frame, date: Option<RawCell>) returns (err: Option<Error>)
    modifies table
    requires table.Valid()
    ensures table.Valid() && table.rowCount == old(table.rowCount)
    ensures var ratio := RatioColumn(old(table.Get(MedianSalePrice)), old(table.Get(MedianHouseholdIncome)));
            if ratio.Err? then
              err == Some(ratio.error) && table.cells == old(table.cells)
            else
              var withRatio := old(table.cells)[HouseAffordabilityRatio := ratio.value]
                                              [HouseAffordabilityRatioRank := RankColumn(ratio.value, true)];
              (err.Some? ==> table.cells == withRatio) &&
              (err.None? ==> table.cells == withRatio[HouseAffordabilityRatioBlurb := table.cells[HouseAffordabilityRatioBlurb]] &&
                             BlurbsAt(AffordabilityKind(date), keys, table.Get(KeyRow),
                                      table.Get(HouseAffordabilityRatioRank), table.Get(HouseAffordabilityRatioBlurb)))
    ensures err.None? <==> RatioStageFits(old(table.cells), keys, date)
  {
    var ratio := RatioColumn(table.Get(MedianSalePrice), table.Get(MedianHouseholdIncome));
    if ratio.Err? {
      return Some(ratio.error);
    }
    var _ := Assign(table, HouseAffordabilityRatio, ratio.value);
    var _ := Assign(table, HouseAffordabilityRatioRank, RankColumn(ratio.value, true));
    err := AddBlurbColumn(table, AffordabilityKind(date), keys, HouseAffordabilityRatioRank, HouseAffordabilityRatioBlurb);
  }

  /** A ratio column that came out of the ratio stage is backed by its
      inputs; so is one that is still all missing. */
  lemma RatioColumnBacked(prices: seq<Value>, incomes: seq<Value>)
    requires |prices| == |incomes| && RatioColumn(prices, incomes).Ok?
    ensures RatioBacked(RatioColumn(prices, incomes).value, prices, incomes)
  {
    forall i | 0 <= i < |prices|
      ensures !RatioColumn(prices, incomes).value[i].NA? ==> !prices[i].NA? && !incomes[i].NA?
    {
      RatioPresence(prices, incomes, i);
    }
  }

  /** After the handled block the ratio column is either the ratio stage's
      output or, when that raised, still all missing: backed either way. */
  lemma RatioStageBacked(prices: seq<Value>, incomes: seq<Value>, before: seq<Value>, after: seq<Value>)
    requires |prices| == |incomes| == |before| && AllMissing(before)
    requires RatioColumn(prices, incomes).Ok? ==> after == RatioColumn(prices, incomes).value
    requires RatioColumn(prices, incomes).Err? ==> after == before
    ensures RatioBacked(after, prices, incomes)
  {
    if RatioColumn(prices, incomes).Ok? {
      RatioColumnBacked(prices, incomes);
    }
  }

  /** The blurb stage leaves the columns the handled block reads. */
  lemma RatioStageKept(before: map<Column, seq<Value>>, after: map<Column, seq<Value>>, keys: Frame, date: Option<RawCell>)
    requires forall c: Column :: c in before && c in after
    requires forall c :: !IsBlurbColumn(c) ==> after[c] == before[c]
    ensures RatioStageFits(after, keys, date) == RatioStageFits(before, keys, date)
  {
    assert after[KeyRow] == before[KeyRow];
    assert after[MedianSalePrice] == before[MedianSalePrice] && after[MedianHouseholdIncome] == before[MedianHouseholdIncome];
  }

  // -------------------------------------------------------------- the run

  /** How `process_csv_files` ends: the table saved, the handled block
      stopped by an exception, or an exception propagated to the caller. */
  datatype Outcome = Saved | FinalStageFailed(error: Error) | Raised(error: Error)

  /** The three value columns and their rank columns. */
  datatype Ranked = Ranked(population: seq<Value>, populationRank: seq<Value>,
                           income: seq<Value>, incomeRank: seq<Value>,
                           price: seq<Value>, priceRank: seq<Value>)

  function RankedOf(cells: map<Column, seq<Value>>): Ranked
    requires forall c: Column :: c in cells
  {
    Ranked(cells[CensusPopulation], cells[PopulationRank],
           cells[MedianHouseholdIncome], cells[MedianHouseholdIncomeRank],
           cells[MedianSalePrice], cells[MedianSalePriceRank])
  }

  /** Each rank column is the descending rank of its value column. */
  predicate RankedAgree(r: Ranked)
  {
    r.populationRank == RankColumn(r.population, false) &&
    r.incomeRank == RankColumn(r.income, false) &&
    r.priceRank == RankColumn(r.price, false)
  }

  ghost predicate RanksAgree(table: CombinedTable)
    reads table
    requires table.Valid()
  {
    RankedAgree(RankedOf(table.cells))
  }

  /** The affordability columns after the handled block: the ratio of price
      over income, its ascending rank, and the blurb of each region and its
      rank. */
  ghost predicate RatioDone(table: CombinedTable, keys: Frame, date: Option<RawCell>)
    reads table
    requires table.Valid()
  {
    var ratio := RatioColumn(table.Get(MedianSalePrice), table.Get(MedianHouseholdIncome));
    ratio.Ok? && table.Get(HouseAffordabilityRatio) == ratio.value &&
    table.Get(HouseAffordabilityRatioRank) == RankColumn(ratio.value, true) &&
    BlurbsAt(AffordabilityKind(date), keys, table.Get(KeyRow),
             table.Get(HouseAffordabilityRatioRank), table.Get(HouseAffordabilityRatioBlurb))
  }

  /** The handled block together with what it leaves in the ratio column:
      when the ratio stage raised, the column is still all missing. */
  method HandledBlock(table: CombinedTable, keys: Frame, date: Option<RawCell>) returns (err: Option<Error>)
    modifies table
    requires table.Valid() && AllMissing(table.Get(HouseAffordabilityRatio))
    ensures table.Valid() && table.rowCount == old(table.rowCount)
    ensures forall c :: !IsAffordabilityColumn(c) ==> table.cells[c] == old(table.cells[c])
    ensures RatioBacked(table.Get(HouseAffordabilityRatio), table.Get(MedianSalePrice), table.Get(MedianHouseholdIncome))
    ensures err.None? ==> RatioDone(table, keys, date)
    ensures err.None? <==> RatioStageFits(old(table.cells), keys, date)
  {
    ghost var prices, incomes, ratios := table.Get(MedianSalePrice), table.Get(MedianHouseholdIncome), table.Get(HouseAffordabilityRatio);
    err := FinalStage(table, keys, date);
    RatioStageBacked(prices, incomes, ratios, table.Get(HouseAffordabilityRatio));
  }

  /** The stages after the rank stage: the blurbs, then the handled block.
      Neither touches the region column, the value columns or their ranks. */
  method FinishRun(table: CombinedTable, keys: Option<Frame>, date: Option<RawCell>) returns (outcome: Outcome)
    modifies table
    requires table.Valid() && AllMissing(table.Get(HouseAffordabilityRatio))
    ensures table.Valid() && table.rowCount == old(table.rowCount)
    ensures forall c :: !IsBlurbColumn(c) && !IsAffordabilityColumn(c) ==> table.cells[c] == old(table.cells[c])
    ensures keys.None? ==> outcome == Raised(NameError)
    ensures !outcome.Raised? ==>
              keys.Some? && BlurbsDone(table.cells, keys.value, date) &&
              RatioBacked(table.Get(HouseAffordabilityRatio), table.Get(MedianSalePrice), table.Get(MedianHouseholdIncome))
    ensures outcome == Saved ==> RatioDone(table, keys.value, date)
    ensures outcome.Raised? <==> !(keys.Some? && BlurbStageFits(old(table.cells), keys.value, date))
    ensures outcome == Saved <==>
              keys.Some? && BlurbStageFits(old(table.cells), keys.value, date) &&
              RatioStageFits(old(table.cells), keys.value, date)
  {
    var err := AddBlurbs(table, keys, date);
    if err.Some? {
      return Raised(err.value);
    }
    ghost var blurbed := table.cells;
    RatioStageKept(old(table.cells), blurbed, keys.value, date);
    err := HandledBlock(table, keys.value, date);
    BlurbsKept(blurbed, table.cells, keys.value, date);
    if err.Some? {
      return FinalStageFailed(err.value);
    }
    return Saved;
  }

  /** The region column and the reader columns as the two loading loops
      leave a fresh table: the KEYS loop's column and, for each reader
      column, the last fitting output of its reader over the files (all
      missing when there is none). */
  predicate Loaded(cells: map<Column, seq<Value>>, files: seq<InputFile>)
    requires forall c: Column :: c in cells
  {
    var regions := KeyColumnAfter(files);
    var outputs := ReadsOf(files, LastKeys(files), regions);
    cells[KeyRow] == regions &&
    cells[CensusPopulation] == ColumnAfter(outputs, |regions|, CensusPopulation, Missing(|regions|)) &&
    cells[MedianHouseholdIncome] == ColumnAfter(outputs, |regions|, MedianHouseholdIncome, Missing(|regions|)) &&
    cells[MedianSalePrice] == ColumnAfter(outputs, |regions|, MedianSalePrice, Missing(|regions|))
  }

  /** `redfin_date` after the data loop over the files. */
  function LoadedDate(files: seq<InputFile>): Option<RawCell>
  {
    DateAfter(ReadsOf(files, LastKeys(files), KeyColumnAfter(files)))
  }

  /** A column of missing values is `Missing` of its length. */
  lemma AllMissingIsMissing(col: seq<Value>)
    requires AllMissing(col)
    ensures col == Missing(|col|)
  {
  }

  /** Stages that leave the region and reader columns alone keep what the
      loading loops put there. */
  lemma LoadedKept(before: map<Column, seq<Value>>, after: map<Column, seq<Value>>, files: seq<InputFile>)
    requires forall c: Column :: c in before && c in after
    requires after[KeyRow] == before[KeyRow] && after[CensusPopulation] == before[CensusPopulation]
    requires after[MedianHouseholdIncome] == before[MedianHouseholdIncome] && after[MedianSalePrice] == before[MedianSalePrice]
    requires Loaded(before, files)
    ensures Loaded(after, files)
  {
  }

  /** The readers and the rank stage leave the region column and the ratio
      column as they were; the rank stage leaves the reader columns. */
  lemma SourcesAndRanksKeep(loaded: map<Column, seq<Value>>, read: map<Column, seq<Value>>, ranked: map<Column, seq<Value>>)
    requires forall c: Column :: c in loaded && c in read && c in ranked
    requires forall c :: !IsReaderColumn(c) ==> read[c] == loaded[c]
    requires forall c :: !IsRankColumn(c) ==> ranked[c] == read[c]
    ensures ranked[KeyRow] == loaded[KeyRow] && ranked[HouseAffordabilityRatio] == loaded[HouseAffordabilityRatio]
    ensures ranked[CensusPopulation] == read[CensusPopulation] && ranked[MedianHouseholdIncome] == read[MedianHouseholdIncome]
    ensures ranked[MedianSalePrice] == read[MedianSalePrice]
  {
  }

  /** The stages up to the rank stage, on a fresh table. */
  method PrepareTable(files: seq<InputFile>) returns (table: CombinedTable, keys: Option<Frame>, date: Option<RawCell>)
    ensures fresh(table) && table.Valid() && keys == LastKeys(files)
    ensures Loaded(table.cells, files) && date == LoadedDate(files)
    ensures RanksAgree(table) && AllMissing(table.Get(HouseAffordabilityRatio))
  {
    table := new CombinedTable();
    keys := LoadKeys(table, files);
    ghost var loaded := table.cells;
    AllMissingIsMissing(loaded[CensusPopulation]);
    AllMissingIsMissing(loaded[MedianHouseholdIncome]);
    AllMissingIsMissing(loaded[MedianSalePrice]);
    date := ReadSources(table, files, keys);
    ghost var read := table.cells;
    assert Loaded(read, files);
    ComputeRanks(table);
    SourcesAndRanksKeep(loaded, read, table.cells);
    LoadedKept(read, table.cells, files);
  }

  /** The stages after the rank stage leave the region column, the value
      columns and their ranks as they were. */
  lemma LaterStagesKeep(before: map<Column, seq<Value>>, after: map<Column, seq<Value>>)
    requires forall c: Column :: c in before && c in after
    requires forall c :: !IsBlurbColumn(c) && !IsAffordabilityColumn(c) ==> after[c] == before[c]
    ensures after[KeyRow] == before[KeyRow] && RankedOf(after) == RankedOf(before)
  {
  }

  /** The whole run over the listed files, in the program's stage order. */
  method ProcessCsvFiles(files: seq<InputFile>) returns (table: CombinedTable, outcome: Outcome)
    ensures fresh(table) && table.Valid()
    ensures files == [] ==> outcome == Raised(NoInputFiles)
    ensures files != [] && LastKeys(files).None? ==> outcome == Raised(NameError)
    ensures Loaded(table.cells, files)
    ensures table.rowCount > 0 ==> KeysFrom(files, table.Get(KeyRow))
    ensures !outcome.Raised? ==>
              LastKeys(files).Some? && RanksAgree(table) &&
              BlurbsDone(table.cells, LastKeys(files).value, LoadedDate(files)) &&
              RatioBacked(table.Get(HouseAffordabilityRatio), table.Get(MedianSalePrice), table.Get(MedianHouseholdIncome))
    ensures outcome == Saved ==> RatioDone(table, LastKeys(files).value, LoadedDate(files))
    ensures files != [] ==> RanksAgree(table)
    ensures outcome == Saved <==>
              files != [] && LastKeys(files).Some? &&
              BlurbStageFits(table.cells, LastKeys(files).value, LoadedDate(files)) &&
              RatioStageFits(table.cells, LastKeys(files).value, LoadedDate(files))
  {
    KeyColumnFromKeysFile(files);
    if files == [] {
      table := new CombinedTable();
      return table, Raised(NoInputFiles);
    }
    var keys, date;
    table, keys, date := PrepareTable(files);
    ghost var prepared := table.cells;
    outcome := FinishRun(table, keys, date);
    LaterStagesKeep(prepared, table.cells);
    LoadedKept(prepared, table.cells, files);
  }
}
