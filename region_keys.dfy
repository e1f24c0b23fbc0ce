/** The region keys table: which regions the output covers (one row per
    state, DC and Puerto Rico), and the lookup of a region's names in the
    other sources. */
module RegionKeys {
  import opened Common
  import opened Tables

  const KeyRowColumn := "key_row"
  const RegionTypeColumn := "region_type"
  const AlternativeNameColumn := "alternative_name"
  const ZillowRegionNameColumn := "zillow_region_name"
  const StateType := "state"

  // -------------------------------------------------------- the keys filter

  predicate IsStateRow(row: seq<RawCell>, t: nat)
  {
    CellAt(row, t) == Some(StateType)
  }

  predicate Unquoted(key: string)
  {
    '\'' !in key
  }

  /** Every state row has a key. Otherwise `str.contains` yields a missing
      mask entry there and `~` on it raises TypeError. */
  predicate StateKeysPresent(rows: seq<seq<RawCell>>, t: nat, k: nat)
  {
    forall i :: 0 <= i < |rows| && IsStateRow(rows[i], t) ==> CellAt(rows[i], k).Some?
  }

  /** Whether the filter keeps a row whose type and key columns are `t` and `k`. */
  predicate Kept(row: seq<RawCell>, t: nat, k: nat)
  {
    IsStateRow(row, t) && CellAt(row, k).Some? && Unquoted(CellAt(row, k).value)
  }

  function KeptKeys(rows: seq<seq<RawCell>>, t: nat, k: nat): seq<string>
  {
    if rows == [] then []
    else (if Kept(rows[0], t, k) then [CellAt(rows[0], k).value] else []) + KeptKeys(rows[1..], t, k)
  }

  /** `process_keys_data`: drop `alternative_name`, keep the rows whose
      `region_type` is "state", drop those whose `key_row` holds an
      apostrophe, and return the `key_row` column. */
  function ProcessKeys(keys: Frame): (r: Result<seq<string>>)
    ensures AlternativeNameColumn !in keys.header ==> r == Err(KeyError(AlternativeNameColumn))
    ensures AlternativeNameColumn in keys.header && RegionTypeColumn !in keys.header ==>
              r == Err(KeyError(RegionTypeColumn))
    ensures AlternativeNameColumn in keys.header && RegionTypeColumn in keys.header && KeyRowColumn !in keys.header ==>
              r == Err(KeyError(KeyRowColumn))
    ensures r.Ok? || r == Err(TypeError) ==>
              AlternativeNameColumn in keys.header && RegionTypeColumn in keys.header && KeyRowColumn in keys.header
    ensures r.Ok? || r == Err(TypeError) ==>
              var t, k := ColumnIndex(keys.header, RegionTypeColumn).value, ColumnIndex(keys.header, KeyRowColumn).value;
              (r.Ok? <==> StateKeysPresent(keys.rows, t, k)) && (r.Ok? ==> r.value == KeptKeys(keys.rows, t, k))
  {
    if ColumnIndex(keys.header, AlternativeNameColumn).None? then Err(KeyError(AlternativeNameColumn))
    else if ColumnIndex(keys.header, RegionTypeColumn).None? then Err(KeyError(RegionTypeColumn))
    else if ColumnIndex(keys.header, KeyRowColumn).None? then Err(KeyError(KeyRowColumn))
    else
      var t, k := ColumnIndex(keys.header, RegionTypeColumn).value, ColumnIndex(keys.header, KeyRowColumn).value;
      if StateKeysPresent(keys.rows, t, k) then Ok(KeptKeys(keys.rows, t, k)) else Err(TypeError)
  }

  /** `idx` lists, in increasing order, exactly the rows from row `s` on
      that the filter keeps, and `keys` holds their keys. */
  predicate SelectsFrom(rows: seq<seq<RawCell>>, t: nat, k: nat, s: nat, idx: seq<nat>, keys: seq<string>)
  {
    && |idx| == |keys|
    && (forall a, b :: 0 <= a < b < |idx| ==> idx[a] < idx[b])
    && (forall j :: 0 <= j < |idx| ==>
          s <= idx[j] < |rows| && Kept(rows[idx[j]], t, k) && keys[j] == CellAt(rows[idx[j]], k).value)
    && (forall i :: s <= i < |rows| && Kept(rows[i], t, k) ==> i in idx)
  }

  /** The filter selects: the kept keys of the rows from `s` on are the keys
      of exactly the kept rows, in their original order. */
  lemma {:induction false} KeptKeysSelectFrom(rows: seq<seq<RawCell>>, t: nat, k: nat, s: nat) returns (idx: seq<nat>)
    requires s <= |rows|
    ensures SelectsFrom(rows, t, k, s, idx, KeptKeys(rows[s..], t, k))
    decreases |rows| - s
  {
    if s == |rows| {
      idx := [];
    } else {
      var rest := KeptKeysSelectFrom(rows, t, k, s + 1);
      assert rows[s..][1..] == rows[s + 1..];
      if Kept(rows[s], t, k) {
        idx := [s] + rest;
        assert KeptKeys(rows[s..], t, k) == [CellAt(rows[s], k).value] + KeptKeys(rows[s + 1..], t, k);
        assert forall j :: 0 < j < |idx| ==> idx[j] == rest[j - 1];
      } else {
        idx := rest;
        assert KeptKeys(rows[s..], t, k) == KeptKeys(rows[s + 1..], t, k);
      }
    }
  }

  /** The whole table: `idx` lists the kept rows. */
  lemma KeptKeysSelect(rows: seq<seq<RawCell>>, t: nat, k: nat) returns (idx: seq<nat>)
    ensures SelectsFrom(rows, t, k, 0, idx, KeptKeys(rows, t, k))
  {
    idx := KeptKeysSelectFrom(rows, t, k, 0);
    assert rows[0..] == rows;
  }

  /** A key is in the filter's output if and only if some kept row holds it. */
  lemma KeptKeysMembership(rows: seq<seq<RawCell>>, t: nat, k: nat, key: string)
    ensures key in KeptKeys(rows, t, k) <==>
              exists i :: 0 <= i < |rows| && Kept(rows[i], t, k) && CellAt(rows[i], k) == Some(key)
  {
    var idx := KeptKeysSelect(rows, t, k);
    var kept := KeptKeys(rows, t, k);
    if key in kept {
      var j :| 0 <= j < |kept| && kept[j] == key;
      assert Kept(rows[idx[j]], t, k) && CellAt(rows[idx[j]], k) == Some(key);
    }
    if exists i :: 0 <= i < |rows| && Kept(rows[i], t, k) && CellAt(rows[i], k) == Some(key) {
      var i :| 0 <= i < |rows| && Kept(rows[i], t, k) && CellAt(rows[i], k) == Some(key);
      var j :| 0 <= j < |idx| && idx[j] == i;
      assert kept[j] == key;
    }
  }

  // ------------------------------------------------------------ the lookup

  /** Row `row` is a match for `key` in the keys table's key column `k`
      (`keys_df["key_row"] == key`); a missing cell matches nothing. */
  predicate Matches(row: seq<RawCell>, k: nat, key: Value)
  {
    key.Text? && CellAt(row, k) == Some(key.s)
  }

  function FirstMatch(rows: seq<seq<RawCell>>, k: nat, key: Value): (r: Option<nat>)
    ensures r.Some? ==> r.value < |rows| && Matches(rows[r.value], k, key)
    ensures r.Some? ==> forall j :: 0 <= j < r.value ==> !Matches(rows[j], k, key)
    ensures r.None? ==> forall j :: 0 <= j < |rows| ==> !Matches(rows[j], k, key)
  {
    if rows == [] then None
    else if Matches(rows[0], k, key) then Some(0)
    else match FirstMatch(rows[1..], k, key)
      case None => None
      case Some(j) =>
        assert forall i :: 1 <= i <= j ==> rows[i] == rows[1..][i - 1];
        Some(j + 1)
  }

  /** `find_key_row(keys_df, key, column)`: the cell in `column` of the first
      keys row whose `key_row` equals `key`, Python's None (`Ok(None)`) when
      no row matches. The column is only looked up once a row matched. */
  function FindKeyRow(keys: Frame, key: Value, column: string): (r: Result<Option<RawCell>>)
    ensures KeyRowColumn !in keys.header ==> r == Err(KeyError(KeyRowColumn))
    ensures KeyRowColumn in keys.header ==>
              var k := ColumnIndex(keys.header, KeyRowColumn).value;
              ((forall i :: 0 <= i < |keys.rows| ==> !Matches(keys.rows[i], k, key)) <==> r == Ok(None))
  {
    match ColumnIndex(keys.header, KeyRowColumn)
    case None => Err(KeyError(KeyRowColumn))
    case Some(k) =>
      match FirstMatch(keys.rows, k, key)
      case None => Ok(None)
      case Some(i) =>
        match ColumnIndex(keys.header, column)
        case None => Err(KeyError(column))
        case Some(c) => Ok(Some(CellAt(keys.rows[i], c)))
  }

  /** When row `i` is the first match, the lookup reads `column` of that row,
      or raises KeyError when the keys table has no such column. */
  lemma FindKeyRowFirst(keys: Frame, key: Value, column: string, i: nat)
    requires KeyRowColumn in keys.header
    requires var k := ColumnIndex(keys.header, KeyRowColumn).value;
             i < |keys.rows| && Matches(keys.rows[i], k, key) &&
             forall j :: 0 <= j < i ==> !Matches(keys.rows[j], k, key)
    ensures FindKeyRow(keys, key, column) ==
              if column in keys.header
              then Ok(Some(CellAt(keys.rows[i], ColumnIndex(keys.header, column).value)))
              else Err(KeyError(column))
  {
    var k := ColumnIndex(keys.header, KeyRowColumn).value;
    assert FirstMatch(keys.rows, k, key) == Some(i);
  }

  /** Concrete instance: the lookup returns the first of two rows with the
      same key, and ignores rows the keys filter would drop. */
  lemma FindKeyRowTakesFirst()
    ensures var keys := Frame([KeyRowColumn, RegionTypeColumn, ZillowRegionNameColumn],
                              [[Some("texas"), Some("county"), Some("Harris")],
                               [Some("texas"), Some(StateType), Some("Texas")]]);
            FindKeyRow(keys, Text("texas"), ZillowRegionNameColumn) == Ok(Some(Some("Harris")))
  {
  }
}
