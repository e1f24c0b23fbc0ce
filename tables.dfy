/** The shapes of data the pipeline handles: a table as read from a delimited
    file, the cells of the combined output table, and the insertion-ordered
    dictionaries that the per-region loops fill before a column is assigned. */
module Tables {
  import opened Common

  /** A cell as read from a file: its text, or missing (pandas NaN). */
  type RawCell = Option<string>

  /** A file as `read_csv` returns it: the column labels of its first line and
      the data rows below. A row shorter than the header reads as missing in
      its last columns, which `CellAt` expresses. */
  datatype Frame = Frame(header: seq<string>, rows: seq<seq<RawCell>>)

  function CellAt(row: seq<RawCell>, j: nat): RawCell
  {
    if j < |row| then row[j] else None
  }

  /** Position of the column labelled `name` (`df[name]`); None is pandas' KeyError. */
  function ColumnIndex(header: seq<string>, name: string): (r: Option<nat>)
    ensures r.Some? ==> r.value < |header| && header[r.value] == name
    ensures r.Some? ==> forall k :: 0 <= k < r.value ==> header[k] != name
    ensures r.None? <==> name !in header
  {
    if header == [] then None
    else if header[0] == name then Some(0)
    else match ColumnIndex(header[1..], name)
      case None => None
      case Some(k) => Some(k + 1)
  }

  /** A cell of the combined output table. Ranks and blurbs are text, counts
      and prices integers, the affordability ratio a decimal; NA is every
      missing marker pandas uses there (NaN, None, pd.NA). */
  datatype Value = NA | Text(s: string) | Int(i: int) | Dec(r: real)

  /** The number a numeric cell holds, if any. */
  function AsNumber(v: Value): (x: Option<real>)
    ensures x.Some? <==> v.Int? || v.Dec?
  {
    match v
    case Int(i) => Some(i as real)
    case Dec(r) => Some(r)
    case _ => None
  }

  /** f-string rendering of a text-valued cell; the missing marker prints as
      "nan". Only key and rank cells are rendered, and both hold text. */
  function TextOf(v: Value): string
  {
    if v.Text? then v.s else "nan"
  }

  /** f-string rendering of an optional raw cell: Python's None prints
      "None", a missing (NaN) cell "nan". */
  function RenderCell(c: Option<RawCell>): string
  {
    match c
    case None => "None"
    case Some(None) => "nan"
    case Some(Some(s)) => s
  }

  // ------------------------------------------------------------ dictionaries

  /** A Python dict from region key to value: pairs in insertion order. */
  type Dict = seq<(Value, Value)>

  function IndexOfKey(d: Dict, k: Value): (r: Option<nat>)
    ensures r.Some? ==> r.value < |d| && d[r.value].0 == k
    ensures r.None? ==> forall i :: 0 <= i < |d| ==> d[i].0 != k
  {
    if d == [] then None
    else if d[0].0 == k then Some(0)
    else match IndexOfKey(d[1..], k)
      case None => None
      case Some(i) => Some(i + 1)
  }

  /** `d[k] = v`: an existing key keeps its position and takes the new value,
      a new key goes last. */
  function Put(d: Dict, k: Value, v: Value): (r: Dict)
    ensures IndexOfKey(d, k).Some? ==> |r| == |d|
    ensures IndexOfKey(d, k).None? ==> |r| == |d| + 1
  {
    match IndexOfKey(d, k)
    case Some(i) => d[i := (k, v)]
    case None => d + [(k, v)]
  }

  /** `d.values()` in order, which is what `pd.Series(d).values` hands to the
      column assignment. */
  function Values(d: Dict): (r: seq<Value>)
    ensures |r| == |d| && forall i :: 0 <= i < |d| ==> r[i] == d[i].1
  {
    seq(|d|, i requires 0 <= i < |d| => d[i].1)
  }

  /** The dict left by assigning `d[keys[i]] = vals[i]` for i = 0, 1, ... in turn. */
  function DictOf(keys: seq<Value>, vals: seq<Value>): Dict
    requires |keys| == |vals|
  {
    if keys == [] then []
    else Put(DictOf(keys[..|keys| - 1], vals[..|vals| - 1]), keys[|keys| - 1], vals[|vals| - 1])
  }

  predicate Distinct(keys: seq<Value>)
  {
    forall i, j :: 0 <= i < j < |keys| ==> keys[i] != keys[j]
  }

  /** With distinct keys the dict holds one pair per row, in row order, so its
      values line up with the rows of the table they were computed from. */
  lemma {:induction false} DictOfDistinct(keys: seq<Value>, vals: seq<Value>)
    requires |keys| == |vals| && Distinct(keys)
    ensures |DictOf(keys, vals)| == |keys|
    ensures forall i :: 0 <= i < |keys| ==> DictOf(keys, vals)[i] == (keys[i], vals[i])
    ensures Values(DictOf(keys, vals)) == vals
  {
    if keys != [] {
      var n := |keys| - 1;
      var prefix, vprefix := keys[..n], vals[..n];
      assert Distinct(prefix);
      DictOfDistinct(prefix, vprefix);
      var d := DictOf(prefix, vprefix);
      assert forall i :: 0 <= i < |d| ==> d[i].0 != keys[n];
      assert IndexOfKey(d, keys[n]).None?;
    }
  }

  /** Only distinct keys give a dict with one pair per row: a repeated key
      collapses into one entry, and the shorter `.values` no longer fit the
      table they were computed from. */
  lemma {:induction false} DictOfFullLength(keys: seq<Value>, vals: seq<Value>)
    requires |keys| == |vals| && |DictOf(keys, vals)| == |keys|
    ensures Distinct(keys)
  {
    if keys != [] {
      var n := |keys| - 1;
      var prefix, vprefix := keys[..n], vals[..n];
      var d := DictOf(prefix, vprefix);
      DictOfLength(prefix, vprefix);
      assert |d| == n && IndexOfKey(d, keys[n]).None?;
      DictOfFullLength(prefix, vprefix);
      DictOfDistinct(prefix, vprefix);
      forall a, b | 0 <= a < b < |keys| ensures keys[a] != keys[b] {
        if b < n {
          assert prefix[a] == keys[a] && prefix[b] == keys[b];
        } else {
          assert d[a].0 == keys[a];
        }
      }
    }
  }

  lemma {:induction false} DictOfLength(keys: seq<Value>, vals: seq<Value>)
    requires |keys| == |vals|
    ensures |DictOf(keys, vals)| <= |keys|
  {
    if keys != [] {
      DictOfLength(keys[..|keys| - 1], vals[..|vals| - 1]);
    }
  }

  // --------------------------------------------------- per-row outcomes

  predicate AllOk(outs: seq<Result<Value>>)
  {
    forall i :: 0 <= i < |outs| ==> outs[i].Ok?
  }

  function OkValues(outs: seq<Result<Value>>): (r: seq<Value>)
    requires AllOk(outs)
    ensures |r| == |outs| && forall i :: 0 <= i < |outs| ==> r[i] == outs[i].value
  {
    seq(|outs|, i requires 0 <= i < |outs| => outs[i].value)
  }

  /** The exception raised by the first failing row. */
  function FirstError(outs: seq<Result<Value>>): (e: Error)
    requires !AllOk(outs)
    ensures exists i :: 0 <= i < |outs| && outs[i] == Err(e) && forall j :: 0 <= j < i ==> outs[j].Ok?
  {
    if outs[0].Err? then outs[0].error
    else
      var e := FirstError(outs[1..]);
      assert exists i :: 0 <= i < |outs| - 1 && outs[1..][i] == Err(e) && forall j :: 0 <= j < i ==> outs[1..][j].Ok?;
      var i :| 0 <= i < |outs| - 1 && outs[1..][i] == Err(e) && forall j :: 0 <= j < i ==> outs[1..][j].Ok?;
      assert outs[i + 1] == Err(e);
      e
  }

  /** What a `for _, row in combined_df.iterrows(): d[row["key_row"]] = ...`
      loop leaves: the dict of all rows, or the exception of the first
      failing row. */
  function Collect(keys: seq<Value>, outs: seq<Result<Value>>): (r: Result<Dict>)
    requires |keys| == |outs|
    ensures r.Ok? <==> AllOk(outs)
    ensures r.Ok? ==> |r.value| <= |keys|
  {
    if AllOk(outs) then
      DictOfLength(keys, OkValues(outs));
      Ok(DictOf(keys, OkValues(outs)))
    else Err(FirstError(outs))
  }

  /** A dict whose values fill a column of the same length holds every
      row's value at that row's position. */
  lemma CollectFits(keys: seq<Value>, outs: seq<Result<Value>>)
    requires |keys| == |outs| && Collect(keys, outs).Ok? && |Collect(keys, outs).value| == |keys|
    ensures AllOk(outs) && Distinct(keys) && Values(Collect(keys, outs).value) == OkValues(outs)
  {
    DictOfFullLength(keys, OkValues(outs));
    DictOfDistinct(keys, OkValues(outs));
  }

  /** The loop itself: fill the dict row by row, stopping at the first row
      whose value could not be computed. */
  method FillDict(keys: seq<Value>, outs: seq<Result<Value>>) returns (r: Result<Dict>)
    requires |keys| == |outs|
    ensures r == Collect(keys, outs)
  {
    var d: Dict := [];
    var i := 0;
    while i < |keys|
      invariant 0 <= i <= |keys|
      invariant AllOk(outs[..i])
      invariant d == DictOf(keys[..i], OkValues(outs[..i]))
    {
      if outs[i].Err? {
        FirstErrorAt(outs, i);
        return Err(outs[i].error);
      }
      CollectStep(keys, outs, i, d);
      d := Put(d, keys[i], outs[i].value);
      i := i + 1;
    }
    CollectDone(keys, outs, d);
    return Ok(d);
  }

  /** One more successful row extends the dict by one assignment. */
  lemma CollectStep(keys: seq<Value>, outs: seq<Result<Value>>, i: nat, d: Dict)
    requires |keys| == |outs| && i < |keys| && outs[i].Ok?
    requires AllOk(outs[..i]) && d == DictOf(keys[..i], OkValues(outs[..i]))
    ensures AllOk(outs[..i + 1])
    ensures Put(d, keys[i], outs[i].value) == DictOf(keys[..i + 1], OkValues(outs[..i + 1]))
  {
    assert keys[..i + 1][..i] == keys[..i];
    assert outs[..i + 1][..i] == outs[..i];
    assert OkValues(outs[..i + 1])[..i] == OkValues(outs[..i]);
  }

  /** After the last row the dict is the outcome of the whole loop. */
  lemma CollectDone(keys: seq<Value>, outs: seq<Result<Value>>, d: Dict)
    requires |keys| == |outs| && AllOk(outs[..|outs|]) && d == DictOf(keys[..|keys|], OkValues(outs[..|outs|]))
    ensures Collect(keys, outs) == Ok(d)
  {
    assert keys[..|keys|] == keys && outs[..|outs|] == outs;
  }

  lemma FirstErrorAt(outs: seq<Result<Value>>, i: nat)
    requires i < |outs| && outs[i].Err? && AllOk(outs[..i])
    ensures !AllOk(outs) && FirstError(outs) == outs[i].error
  {
    var e := FirstError(outs);
    var k :| 0 <= k < |outs| && outs[k] == Err(e) && forall j :: 0 <= j < k ==> outs[j].Ok?;
    forall j | 0 <= j < i ensures outs[j].Ok? { assert outs[..i][j] == outs[j]; }
  }
}
