/** `get_df_for_plotting` (utils.py): validates its arguments, groups the
    records by `x` (and `hue`), aggregates `y` per group and writes the
    results into a dense table whose columns are the distinct `x` values and
    whose rows are the distinct `hue` values, or one row named after `x`. */
module Plotting {
  import opened Wrappers
  import opened Frames

  /** `labels_dict`: the Spanish caption of each calendar dimension. */
  const Labels: map<string, string> := map[
    "year" := "A\U{F1}o",
    "month" := "Mes",
    "day" := "Dia del mes",
    "hour" := "Hora del dia",
    "dayofweek" := "Dia de la semana",
    "weekofyear" := "Semana del a\U{F1}o",
    "quarter" := "Trimestre",
    "year_week" := "A\U{F1}o-semana",
    "year_month" := "A\U{F1}o-mes"]

  datatype AggOp = Count | Sum | Mean

  /** How a group becomes a cell: aggregated (`is_grouped=False`), or the one
      row the caller already grouped (`is_grouped=True`). */
  datatype Mode = Aggregate(op: AggOp) | Pregrouped

  datatype PlotError =
    | BadX             // ValueError: x empty
    | BadY             // ValueError: y empty
    | MissingColumn    // KeyError: x, hue or y is not a column
    | DuplicateColumn  // x, hue and y are not three different columns
    | Unorderable      // TypeError: `sorted` over a column mixing kinds
    | BadAggOp         // ValueError: agg_op empty
    | UnknownAggOp     // AttributeError: agg_op names no supported aggregation
    | NotNumeric       // TypeError: sum or mean over a non-integer column
    | DuplicateKey     // a pre-grouped frame with two rows for one cell
    | MissingLabel     // KeyError: no `labels_dict` entry for x

  /** The result: row labels, column labels, and one row of cells per row
      label; `None` is NaN. */
  datatype Table = Table(index: seq<Value>, columns: seq<Value>, cells: seq<seq<Option<real>>>)

  /** `if hue:` — None and the empty string both mean no hue. */
  predicate HasHue(hue: Option<string>) {
    hue.Some? && hue.value != ""
  }

  /** `cols = [x, y] if not hue else [x, hue, y]`. */
  function PlotColumns(x: string, y: string, hue: Option<string>): seq<string> {
    if HasHue(hue) then [x, hue.value, y] else [x, y]
  }

  predicate Distinct<T(==)>(s: seq<T>) {
    forall a, b :: 0 <= a < b < |s| ==> s[a] != s[b]
  }

  /** The hue of every record; without a hue every record is in row `0`. */
  function HueValues(data: map<string, seq<Value>>, height: nat, hue: Option<string>): (hs: seq<Value>)
    requires HasHue(hue) ==> hue.value in data
  {
    if HasHue(hue) then data[hue.value] else seq(height, _ => Int(0))
  }

  /** The records of group (`v`, `h`). */
  function GroupMask(xs: seq<Value>, hs: seq<Value>, v: Value, h: Value): (m: seq<bool>)
    requires |xs| == |hs|
    ensures |m| == |xs| && forall k :: 0 <= k < |xs| ==> m[k] == (xs[k] == v && hs[k] == h)
  {
    seq(|xs|, k requires 0 <= k < |xs| => xs[k] == v && hs[k] == h)
  }

  /** The sum of the integers of `ys` at the rows `mask` marks. */
  function MaskedSum(ys: seq<Value>, mask: seq<bool>): int
    requires |ys| == |mask| && AllInt(ys)
  {
    if |ys| == 0 then 0
    else MaskedSum(ys[..|ys| - 1], mask[..|mask| - 1]) + (if mask[|mask| - 1] then ys[|ys| - 1].i else 0)
  }

  predicate ModeFits(mode: Mode, ys: seq<Value>) {
    mode == Aggregate(Count) || AllInt(ys)
  }

  /** The value a group puts in its cell: its size (`count`), the sum of its
      `y` (`sum`, and the single row's `y` when pre-grouped) or their quotient
      (`mean`). */
  function GroupValue(mode: Mode, xs: seq<Value>, hs: seq<Value>, ys: seq<Value>, v: Value, h: Value): real
    requires |xs| == |hs| == |ys| && ModeFits(mode, ys)
  {
    var mask := GroupMask(xs, hs, v, h);
    match mode
    case Aggregate(Count) => CountTrue(mask) as real
    case Aggregate(Sum) => MaskedSum(ys, mask) as real
    case Aggregate(Mean) => if CountTrue(mask) == 0 then 0.0 else MaskedSum(ys, mask) as real / CountTrue(mask) as real
    case Pregrouped => MaskedSum(ys, mask) as real
  }

  /** Cell (`h`, `v`) of the result: the group's value when the group has
      records, otherwise 0 with `zfill` and NaN without. */
  function SpecCell(mode: Mode, xs: seq<Value>, hs: seq<Value>, ys: seq<Value>, v: Value, h: Value, zfill: bool): Option<real>
    requires |xs| == |hs| == |ys| && ModeFits(mode, ys)
  {
    if CountTrue(GroupMask(xs, hs, v, h)) > 0 then Some(GroupValue(mode, xs, hs, ys, v, h))
    else if zfill then Some(0.0)
    else None
  }

  function SpecCells(mode: Mode, xs: seq<Value>, hs: seq<Value>, ys: seq<Value>,
                     rows: seq<Value>, cols: seq<Value>, zfill: bool): (cells: seq<seq<Option<real>>>)
    requires |xs| == |hs| == |ys| && ModeFits(mode, ys)
    ensures |cells| == |rows| && forall i :: 0 <= i < |rows| ==> |cells[i]| == |cols|
  {
    seq(|rows|, i requires 0 <= i < |rows| =>
      seq(|cols|, j requires 0 <= j < |cols| => SpecCell(mode, xs, hs, ys, cols[j], rows[i], zfill)))
  }

  /** No two records fall into the same cell. */
  predicate UniqueKeys(xs: seq<Value>, hs: seq<Value>)
    requires |xs| == |hs|
  {
    forall a, b :: 0 <= a < b < |xs| ==> !(xs[a] == xs[b] && hs[a] == hs[b])
  }

  /** The checks on `is_grouped` and `agg_op`, and the aggregation they select. */
  function ChooseMode(isGrouped: bool, aggOp: string, xs: seq<Value>, hs: seq<Value>, ys: seq<Value>): (r: Result<Mode, PlotError>)
    requires |xs| == |hs|
    ensures r.Ok? ==> ModeFits(r.value, ys)
  {
    if isGrouped then
      if !UniqueKeys(xs, hs) then Err(DuplicateKey)
      else if !AllInt(ys) then Err(NotNumeric)
      else Ok(Pregrouped)
    else if aggOp == "" then Err(BadAggOp)
    else if aggOp == "count" then Ok(Aggregate(Count))
    else if aggOp == "sum" || aggOp == "mean" then
      if !AllInt(ys) then Err(NotNumeric)
      else Ok(Aggregate(if aggOp == "sum" then Sum else Mean))
    else Err(UnknownAggOp)
  }

  /** What `get_df_for_plotting(df, x, y, hue, is_grouped, agg_op, zfill)`
      returns or raises, stated group by group. */
  function Pivot(data: map<string, seq<Value>>, height: nat, x: string, y: string, hue: Option<string>,
                 isGrouped: bool, aggOp: string, zfill: bool): Result<Table, PlotError>
    requires forall c :: c in data ==> |data[c]| == height
  {
    if x == "" then Err(BadX)
    else if y == "" then Err(BadY)
    else if exists c :: c in PlotColumns(x, y, hue) && c !in data then Err(MissingColumn)
    else if !Distinct(PlotColumns(x, y, hue)) then Err(DuplicateColumn)
    else PivotColumns(x, data[x], HueValues(data, height, hue), data[y], HasHue(hue), isGrouped, aggOp, zfill)
  }

  /** The part of `get_df_for_plotting` after the columns are picked: `xs`,
      `hs` and `ys` are the `x`, hue and `y` columns. */
  function PivotColumns(x: string, xs: seq<Value>, hs: seq<Value>, ys: seq<Value>, hasHue: bool,
                        isGrouped: bool, aggOp: string, zfill: bool): Result<Table, PlotError>
    requires |xs| == |hs| == |ys|
  {
    if !Homogeneous(xs) || !Homogeneous(hs) then Err(Unorderable)
    else match ChooseMode(isGrouped, aggOp, xs, hs, ys)
      case Err(e) => Err(e)
      case Ok(mode) =>
        if !hasHue && x !in Labels then Err(MissingLabel)
        else
          var cols := SortedDistinct(xs);
          var rows := if hasHue then SortedDistinct(hs) else [Int(0)];
          var index := if hasHue then rows else [Str(Labels[x])];
          Ok(Table(index, cols, SpecCells(mode, xs, hs, ys, rows, cols, zfill)))
  }

  // ---------------------------------------------------------------------
  // The imperative version: group, fill cell by cell, zero-fill
  // ---------------------------------------------------------------------

  /** The index of the grouped frame: each (x, hue) pair that occurs, once. */
  function GroupKeys(xs: seq<Value>, hs: seq<Value>): (keys: seq<(Value, Value)>)
    requires |xs| == |hs|
    ensures Distinct(keys)
    ensures forall p :: p in keys <==> exists k :: 0 <= k < |xs| && xs[k] == p.0 && hs[k] == p.1
  {
    if |xs| == 0 then []
    else
      var n := |xs| - 1;
      var prev := GroupKeys(xs[..n], hs[..n]);
      var p := (xs[n], hs[n]);
      assert forall q: (Value, Value) :: (exists k :: 0 <= k < n && xs[..n][k] == q.0 && hs[..n][k] == q.1)
                     <==> (exists k :: 0 <= k < n && xs[k] == q.0 && hs[k] == q.1) by {
        forall k | 0 <= k < n ensures xs[..n][k] == xs[k] && hs[..n][k] == hs[k] { }
      }
      if p in prev then prev else prev + [p]
  }

  /** `trans_df.fillna(0) if zfill else trans_df` over the cells written. */
  function Fill(rows: seq<Value>, cols: seq<Value>, trans: map<(Value, Value), real>, zfill: bool): seq<seq<Option<real>>> {
    seq(|rows|, i requires 0 <= i < |rows| =>
      seq(|cols|, j requires 0 <= j < |cols| =>
        if (rows[i], cols[j]) in trans then Some(trans[(rows[i], cols[j])])
        else if zfill then Some(0.0) else None))
  }

  lemma {:induction false} CountTruePositive(mask: seq<bool>)
    ensures CountTrue(mask) > 0 <==> exists k :: 0 <= k < |mask| && mask[k]
  {
    if |mask| > 0 {
      var n := |mask| - 1;
      CountTruePositive(mask[..n]);
      if CountTrue(mask[..n]) > 0 {
        var k :| 0 <= k < n && mask[..n][k];
        assert mask[k];
      }
      if exists k :: 0 <= k < |mask| && mask[k] {
        var k :| 0 <= k < |mask| && mask[k];
        if k < n { assert mask[..n][k]; }
      }
    }
  }

  /** The table filled from the written cells is the table of groups. */
  lemma FillIsSpec(mode: Mode, xs: seq<Value>, hs: seq<Value>, ys: seq<Value>,
                   rows: seq<Value>, cols: seq<Value>, trans: map<(Value, Value), real>, zfill: bool)
    requires |xs| == |hs| == |ys| && ModeFits(mode, ys)
    requires forall p :: p in trans <==> exists k :: 0 <= k < |xs| && xs[k] == p.1 && hs[k] == p.0
    requires forall p :: p in trans ==> trans[p] == GroupValue(mode, xs, hs, ys, p.1, p.0)
    ensures Fill(rows, cols, trans, zfill) == SpecCells(mode, xs, hs, ys, rows, cols, zfill)
  {
    var fill, spec := Fill(rows, cols, trans, zfill), SpecCells(mode, xs, hs, ys, rows, cols, zfill);
    forall i | 0 <= i < |rows| ensures fill[i] == spec[i] {
      forall j | 0 <= j < |cols| ensures fill[i][j] == spec[i][j] {
        CountTruePositive(GroupMask(xs, hs, cols[j], rows[i]));
      }
    }
  }

  /** `get_df_for_plotting`: the checks on the arguments in the source's
      order, then the grouping and filling. */
  method GetDfForPlotting(df: Frame, x: string, y: string, hue: Option<string>,
                          isGrouped: bool, aggOp: string, zfill: bool) returns (r: Result<Table, PlotError>)
    requires df.Valid()
    ensures r == Pivot(df.data, df.height, x, y, hue, isGrouped, aggOp, zfill)
  {
    if x == "" {
      return Err(BadX);
    }
    if y == "" {
      return Err(BadY);
    }
    var cols := PlotColumns(x, y, hue);
    if exists c :: c in cols && c !in df.data {
      return Err(MissingColumn);
    }
    if !Distinct(cols) {
      return Err(DuplicateColumn);
    }
    r := GroupAndFill(x, df.data[x], HueValues(df.data, df.height, hue), df.data[y], HasHue(hue), isGrouped, aggOp, zfill);
  }

  /** The orderability and aggregation checks, then one cell written per
      group of the grouped frame (`trans_df.at[...] = ...`), then the
      zero-fill and the row label. */
  method GroupAndFill(x: string, xs: seq<Value>, hs: seq<Value>, ys: seq<Value>, hasHue: bool,
                      isGrouped: bool, aggOp: string, zfill: bool) returns (r: Result<Table, PlotError>)
    requires |xs| == |hs| == |ys|
    ensures r == PivotColumns(x, xs, hs, ys, hasHue, isGrouped, aggOp, zfill)
  {
    if !Homogeneous(xs) || !Homogeneous(hs) {
      return Err(Unorderable);
    }
    var newCols := SortedDistinct(xs);
    var newIndex := if hasHue then SortedDistinct(hs) else [Int(0)];
    var chosen := ChooseMode(isGrouped, aggOp, xs, hs, ys);
    if chosen.Err? {
      return Err(chosen.error);
    }
    var mode := chosen.value;
    var trans := WriteGroups(mode, xs, hs, ys);
    if !hasHue && x !in Labels {
      return Err(MissingLabel);
    }
    var index := if hasHue then newIndex else [Str(Labels[x])];
    FillIsSpec(mode, xs, hs, ys, newIndex, newCols, trans, zfill);
    r := Ok(Table(index, newCols, Fill(newIndex, newCols, trans, zfill)));
  }

  /** The loop over the grouped frame: cell (`hue`, `x`) receives the value
      of group (`x`, `hue`), for every group that has records. */
  method WriteGroups(mode: Mode, xs: seq<Value>, hs: seq<Value>, ys: seq<Value>) returns (trans: map<(Value, Value), real>)
    requires |xs| == |hs| == |ys| && ModeFits(mode, ys)
    ensures forall p :: p in trans <==> exists k :: 0 <= k < |xs| && xs[k] == p.1 && hs[k] == p.0
    ensures forall p :: p in trans ==> trans[p] == GroupValue(mode, xs, hs, ys, p.1, p.0)
  {
    var keys := GroupKeys(xs, hs);
    trans := map[];
    var i := 0;
    while i < |keys|
      invariant 0 <= i <= |keys|
      invariant forall p :: p in trans <==> (p.1, p.0) in keys[..i]
      invariant forall p :: p in trans ==> trans[p] == GroupValue(mode, xs, hs, ys, p.1, p.0)
    {
      var key := keys[i];
      trans := trans[(key.1, key.0) := GroupValue(mode, xs, hs, ys, key.0, key.1)];
      assert keys[..i + 1] == keys[..i] + [key];
      i := i + 1;
    }
    assert keys[..|keys|] == keys;
  }

  /** The argument errors: an empty `x` or `y` is refused before anything
      else, an empty `agg_op` without `is_grouped` is refused, and a result is
      produced only for `count`, `sum` and `mean` or a pre-grouped frame. */
  lemma PivotArgumentErrors(data: map<string, seq<Value>>, height: nat, x: string, y: string, hue: Option<string>,
                            isGrouped: bool, aggOp: string, zfill: bool)
    requires forall c :: c in data ==> |data[c]| == height
    ensures var r := Pivot(data, height, x, y, hue, isGrouped, aggOp, zfill);
      && (x == "" ==> r == Err(BadX))
      && (x != "" && y == "" ==> r == Err(BadY))
      && (!isGrouped && aggOp == "" ==> r.Err?)
      && (r.Ok? ==> isGrouped || aggOp in ["count", "sum", "mean"])
  {
  }

  // ---------------------------------------------------------------------
  // Properties of the result
  // ---------------------------------------------------------------------

  lemma PivotColumnsShape(x: string, xs: seq<Value>, hs: seq<Value>, ys: seq<Value>, hasHue: bool,
                          isGrouped: bool, aggOp: string, zfill: bool)
    requires |xs| == |hs| == |ys|
    requires PivotColumns(x, xs, hs, ys, hasHue, isGrouped, aggOp, zfill).Ok?
    ensures var t := PivotColumns(x, xs, hs, ys, hasHue, isGrouped, aggOp, zfill).value;
      && t.columns == SortedDistinct(xs)
      && t.index == (if hasHue then SortedDistinct(hs) else [Str(Labels[x])])
      && |t.cells| == |t.index|
      && (forall i :: 0 <= i < |t.cells| ==> |t.cells[i]| == |t.columns|)
      && (zfill ==> forall i, j :: 0 <= i < |t.cells| && 0 <= j < |t.cells[i]| ==> t.cells[i][j].Some?)
  {
  }

  /** The shape of a successful result: columns are the distinct `x` values
      in ascending order; rows are the distinct hue values in ascending order,
      or the single row `labels_dict[x]`; every row has one cell per column,
      and with `zfill` no cell is NaN. */
  lemma PivotShape(data: map<string, seq<Value>>, height: nat, x: string, y: string, hue: Option<string>,
                   isGrouped: bool, aggOp: string, zfill: bool)
    requires forall c :: c in data ==> |data[c]| == height
    requires Pivot(data, height, x, y, hue, isGrouped, aggOp, zfill).Ok?
    ensures var t := Pivot(data, height, x, y, hue, isGrouped, aggOp, zfill).value;
      && x in data && Ascending(t.columns) && (forall v :: v in t.columns <==> v in data[x])
      && (HasHue(hue) ==> hue.value in data && Ascending(t.index) && forall v :: v in t.index <==> v in data[hue.value])
      && (!HasHue(hue) ==> x in Labels && t.index == [Str(Labels[x])])
      && |t.cells| == |t.index|
      && (forall i :: 0 <= i < |t.cells| ==> |t.cells[i]| == |t.columns|)
      && (zfill ==> forall i, j :: 0 <= i < |t.cells| && 0 <= j < |t.cells[i]| ==> t.cells[i][j].Some?)
  {
    assert x in PlotColumns(x, y, hue) && y in PlotColumns(x, y, hue);
    assert HasHue(hue) ==> hue.value in PlotColumns(x, y, hue);
    var hs := HueValues(data, height, hue);
    PivotColumnsShape(x, data[x], hs, data[y], HasHue(hue), isGrouped, aggOp, zfill);
  }

  /** A successful `Pivot` is `PivotColumns` on the `x`, hue and `y` columns. */
  lemma PivotOnColumns(data: map<string, seq<Value>>, height: nat, x: string, y: string, hue: Option<string>,
                       isGrouped: bool, aggOp: string, zfill: bool)
    requires forall c :: c in data ==> |data[c]| == height
    requires Pivot(data, height, x, y, hue, isGrouped, aggOp, zfill).Ok?
    ensures x in data && y in data && (HasHue(hue) ==> hue.value in data)
    ensures |data[x]| == |HueValues(data, height, hue)| == |data[y]|
    ensures Pivot(data, height, x, y, hue, isGrouped, aggOp, zfill)
      == PivotColumns(x, data[x], HueValues(data, height, hue), data[y], HasHue(hue), isGrouped, aggOp, zfill)
  {
    assert x in PlotColumns(x, y, hue) && y in PlotColumns(x, y, hue);
    assert HasHue(hue) ==> hue.value in PlotColumns(x, y, hue);
  }

  /** Cell (i, j) of a successful result holds the aggregate of exactly the
      records whose `x` is column j and whose hue is row i — their number for
      `count`, the sum of their `y` for `sum`, that sum over their number for
      `mean` — and is 0 (with `zfill`) or NaN when there are none. */
  lemma PivotCell(data: map<string, seq<Value>>, height: nat, x: string, y: string, hue: Option<string>,
                  isGrouped: bool, aggOp: string, zfill: bool, i: nat, j: nat)
    requires forall c :: c in data ==> |data[c]| == height
    requires Pivot(data, height, x, y, hue, isGrouped, aggOp, zfill).Ok?
    requires var t := Pivot(data, height, x, y, hue, isGrouped, aggOp, zfill).value;
      i < |t.cells| && j < |t.columns|
    ensures var t := Pivot(data, height, x, y, hue, isGrouped, aggOp, zfill).value;
      var xs, hs, ys := data[x], HueValues(data, height, hue), data[y];
      var h := if HasHue(hue) then t.index[i] else Int(0);
      var group := GroupMask(xs, hs, t.columns[j], h);
      && (CountTrue(group) == 0 ==> t.cells[i][j] == if zfill then Some(0.0) else None)
      && (CountTrue(group) > 0 && !isGrouped && aggOp == "count" ==> t.cells[i][j] == Some(CountTrue(group) as real))
      && (CountTrue(group) > 0 && !isGrouped && aggOp == "sum" ==>
            AllInt(ys) && t.cells[i][j] == Some(MaskedSum(ys, group) as real))
      && (CountTrue(group) > 0 && !isGrouped && aggOp == "mean" ==>
            AllInt(ys) && t.cells[i][j] == Some(MaskedSum(ys, group) as real / CountTrue(group) as real))
  {
    PivotOnColumns(data, height, x, y, hue, isGrouped, aggOp, zfill);
    PivotColumnsCell(x, data[x], HueValues(data, height, hue), data[y], HasHue(hue), isGrouped, aggOp, zfill, i, j);
  }

  lemma PivotColumnsCell(x: string, xs: seq<Value>, hs: seq<Value>, ys: seq<Value>, hasHue: bool,
                         isGrouped: bool, aggOp: string, zfill: bool, i: nat, j: nat)
    requires |xs| == |hs| == |ys|
    requires PivotColumns(x, xs, hs, ys, hasHue, isGrouped, aggOp, zfill).Ok?
    requires var t := PivotColumns(x, xs, hs, ys, hasHue, isGrouped, aggOp, zfill).value;
      i < |t.cells| && j < |t.columns|
    ensures var t := PivotColumns(x, xs, hs, ys, hasHue, isGrouped, aggOp, zfill).value;
      var h := if hasHue then t.index[i] else Int(0);
      var group := GroupMask(xs, hs, t.columns[j], h);
      && (CountTrue(group) == 0 ==> t.cells[i][j] == if zfill then Some(0.0) else None)
      && (CountTrue(group) > 0 && !isGrouped && aggOp == "count" ==> t.cells[i][j] == Some(CountTrue(group) as real))
      && (CountTrue(group) > 0 && !isGrouped && aggOp == "sum" ==>
            AllInt(ys) && t.cells[i][j] == Some(MaskedSum(ys, group) as real))
      && (CountTrue(group) > 0 && !isGrouped && aggOp == "mean" ==>
            AllInt(ys) && t.cells[i][j] == Some(MaskedSum(ys, group) as real / CountTrue(group) as real))
  {
    var t := PivotColumns(x, xs, hs, ys, hasHue, isGrouped, aggOp, zfill).value;
    var mode := ChooseMode(isGrouped, aggOp, xs, hs, ys).value;
    var rows := if hasHue then SortedDistinct(hs) else [Int(0)];
    assert t.cells == SpecCells(mode, xs, hs, ys, rows, t.columns, zfill);
    assert t.cells[i][j] == SpecCell(mode, xs, hs, ys, t.columns[j], rows[i], zfill);
  }

  /** Pre-grouped, each record is the only one of its cell, and the cell holds its `y`. */
  lemma PregroupedCell(data: map<string, seq<Value>>, height: nat, x: string, y: string, hue: Option<string>,
                       aggOp: string, zfill: bool, k: nat)
    requires forall c :: c in data ==> |data[c]| == height
    requires Pivot(data, height, x, y, hue, true, aggOp, zfill).Ok?
    requires k < height
    ensures var t := Pivot(data, height, x, y, hue, true, aggOp, zfill).value;
      var xs, hs, ys := data[x], HueValues(data, height, hue), data[y];
      exists i, j :: 0 <= i < |t.cells| && 0 <= j < |t.columns| && t.columns[j] == xs[k]
        && (HasHue(hue) ==> t.index[i] == hs[k])
        && t.cells[i][j] == Some(ys[k].i as real)
  {
    PivotOnColumns(data, height, x, y, hue, true, aggOp, zfill);
    assert !HasHue(hue) ==> HueValues(data, height, hue)[k] == Int(0);
    PregroupedColumnsCell(x, data[x], HueValues(data, height, hue), data[y], HasHue(hue), aggOp, zfill, k);
  }

  lemma PregroupedColumnsCell(x: string, xs: seq<Value>, hs: seq<Value>, ys: seq<Value>, hasHue: bool,
                              aggOp: string, zfill: bool, k: nat)
    requires |xs| == |hs| == |ys|
    requires PivotColumns(x, xs, hs, ys, hasHue, true, aggOp, zfill).Ok?
    requires k < |xs| && (hasHue || hs[k] == Int(0))
    ensures var t := PivotColumns(x, xs, hs, ys, hasHue, true, aggOp, zfill).value;
      exists i, j :: 0 <= i < |t.cells| && 0 <= j < |t.columns| && t.columns[j] == xs[k]
        && (hasHue ==> t.index[i] == hs[k])
        && t.cells[i][j] == Some(ys[k].i as real)
  {
    var t := PivotColumns(x, xs, hs, ys, hasHue, true, aggOp, zfill).value;
    var rows := if hasHue then SortedDistinct(hs) else [Int(0)];
    assert UniqueKeys(xs, hs) && AllInt(ys);
    assert t.cells == SpecCells(Pregrouped, xs, hs, ys, rows, t.columns, zfill);
    assert xs[k] in t.columns && hs[k] in rows;
    PregroupedSpecCell(xs, hs, ys, rows, t.columns, zfill, k);
  }

  lemma PregroupedSpecCell(xs: seq<Value>, hs: seq<Value>, ys: seq<Value>, rows: seq<Value>, cols: seq<Value>,
                           zfill: bool, k: nat)
    requires |xs| == |hs| == |ys| && AllInt(ys) && UniqueKeys(xs, hs) && k < |xs|
    requires xs[k] in cols && hs[k] in rows
    ensures exists i, j ::
              0 <= i < |rows| && 0 <= j < |cols| && cols[j] == xs[k] && rows[i] == hs[k]
              && SpecCells(Pregrouped, xs, hs, ys, rows, cols, zfill)[i][j] == Some(ys[k].i as real)
  {
    var j :| 0 <= j < |cols| && cols[j] == xs[k];
    var i :| 0 <= i < |rows| && rows[i] == hs[k];
    SingleRecordGroup(xs, hs, ys, k);
    assert SpecCells(Pregrouped, xs, hs, ys, rows, cols, zfill)[i][j] == SpecCell(Pregrouped, xs, hs, ys, xs[k], hs[k], zfill);
  }

  lemma SingleRecordGroup(xs: seq<Value>, hs: seq<Value>, ys: seq<Value>, k: nat)
    requires |xs| == |hs| == |ys| && AllInt(ys) && UniqueKeys(xs, hs) && k < |xs|
    ensures CountTrue(GroupMask(xs, hs, xs[k], hs[k])) > 0
    ensures forall m :: 0 <= m < |xs| && GroupMask(xs, hs, xs[k], hs[k])[m] ==> m == k
    ensures MaskedSum(ys, GroupMask(xs, hs, xs[k], hs[k])) == ys[k].i
  {
    CountTruePositive(GroupMask(xs, hs, xs[k], hs[k]));
    OnlyOneMarked(ys, GroupMask(xs, hs, xs[k], hs[k]), k);
  }

  lemma {:induction false} OnlyOneMarked(ys: seq<Value>, mask: seq<bool>, k: nat)
    requires |ys| == |mask| && AllInt(ys) && k < |mask|
    requires forall q :: 0 <= q < |mask| ==> (mask[q] <==> q == k)
    ensures MaskedSum(ys, mask) == ys[k].i
  {
    var n := |ys| - 1;
    if k < n {
      OnlyOneMarked(ys[..n], mask[..n], k);
    } else {
      NoneMarked(ys[..n], mask[..n]);
    }
  }

  lemma {:induction false} NoneMarked(ys: seq<Value>, mask: seq<bool>)
    requires |ys| == |mask| && AllInt(ys)
    requires forall q :: 0 <= q < |mask| ==> !mask[q]
    ensures MaskedSum(ys, mask) == 0
  {
    if |ys| > 0 {
      NoneMarked(ys[..|ys| - 1], mask[..|mask| - 1]);
    }
  }

  // ---------------------------------------------------------------------
  // With count and no hue the row adds up to the number of records
  // ---------------------------------------------------------------------

  /** What a cell adds to a row total: its value, NaN adding nothing. */
  function RowTotal(row: seq<Option<real>>): real {
    if |row| == 0 then 0.0 else (if row[0].Some? then row[0].value else 0.0) + RowTotal(row[1..])
  }

  /** The sizes of the groups (`v`, `h`) for the `v` of `vs`, added up. */
  function GroupSizes(xs: seq<Value>, hs: seq<Value>, h: Value, vs: seq<Value>): nat
    requires |xs| == |hs|
  {
    if |vs| == 0 then 0 else CountTrue(GroupMask(xs, hs, vs[0], h)) + GroupSizes(xs, hs, h, vs[1..])
  }

  /** How often `a` occurs in `vs`. */
  function Occurrences(vs: seq<Value>, a: Value): nat {
    if |vs| == 0 then 0 else (if vs[0] == a then 1 else 0) + Occurrences(vs[1..], a)
  }

  lemma {:induction false} OccurrencesDistinct(vs: seq<Value>, a: Value)
    requires Distinct(vs) && a in vs
    ensures Occurrences(vs, a) == 1
  {
    if vs[0] == a {
      NotOccurring(vs[1..], a);
    } else {
      OccurrencesDistinct(vs[1..], a);
    }
  }

  lemma {:induction false} NotOccurring(vs: seq<Value>, a: Value)
    requires a !in vs
    ensures Occurrences(vs, a) == 0
  {
    if |vs| > 0 {
      NotOccurring(vs[1..], a);
    }
  }

  /** One more record adds one to the group sizes of every value it equals. */
  lemma {:induction false} GroupSizesSnoc(xs: seq<Value>, hs: seq<Value>, h: Value, vs: seq<Value>)
    requires |xs| == |hs| > 0 && hs[|hs| - 1] == h
    ensures GroupSizes(xs, hs, h, vs)
         == GroupSizes(xs[..|xs| - 1], hs[..|hs| - 1], h, vs) + Occurrences(vs, xs[|xs| - 1])
  {
    if |vs| > 0 {
      GroupSizesSnoc(xs, hs, h, vs[1..]);
      var n := |xs| - 1;
      var m := GroupMask(xs, hs, vs[0], h);
      assert m[..n] == GroupMask(xs[..n], hs[..n], vs[0], h);
    }
  }

  /** Over distinct values that cover every record of one hue, the group
      sizes add up to the number of records. */
  lemma {:induction false} GroupSizesCover(xs: seq<Value>, hs: seq<Value>, h: Value, vs: seq<Value>)
    requires |xs| == |hs| && Distinct(vs)
    requires forall k :: 0 <= k < |xs| ==> xs[k] in vs && hs[k] == h
    ensures GroupSizes(xs, hs, h, vs) == |xs|
  {
    if |xs| == 0 {
      NoGroups(xs, hs, h, vs);
    } else {
      var n := |xs| - 1;
      GroupSizesSnoc(xs, hs, h, vs);
      GroupSizesCover(xs[..n], hs[..n], h, vs);
      OccurrencesDistinct(vs, xs[n]);
    }
  }

  lemma {:induction false} NoGroups(xs: seq<Value>, hs: seq<Value>, h: Value, vs: seq<Value>)
    requires |xs| == |hs| == 0
    ensures GroupSizes(xs, hs, h, vs) == 0
  {
    if |vs| > 0 {
      NoGroups(xs, hs, h, vs[1..]);
      assert CountTrue(GroupMask(xs, hs, vs[0], h)) == 0;
    }
  }

  lemma AscendingDistinct(r: seq<Value>)
    requires Ascending(r)
    ensures Distinct(r)
  {
    forall a, b | 0 <= a < b < |r| ensures r[a] != r[b] {
      LessIrreflexive(r[a]);
    }
  }

  /** A row of count cells adds up to the group sizes, NaN or 0 for the empty ones. */
  lemma {:induction false} CountRowTotal(xs: seq<Value>, hs: seq<Value>, ys: seq<Value>, h: Value, vs: seq<Value>, zfill: bool)
    requires |xs| == |hs| == |ys|
    ensures RowTotal(seq(|vs|, j requires 0 <= j < |vs| => SpecCell(Aggregate(Count), xs, hs, ys, vs[j], h, zfill)))
         == GroupSizes(xs, hs, h, vs) as real
  {
    var row := seq(|vs|, j requires 0 <= j < |vs| => SpecCell(Aggregate(Count), xs, hs, ys, vs[j], h, zfill));
    if |vs| > 0 {
      var rest := seq(|vs| - 1, j requires 0 <= j < |vs| - 1 => SpecCell(Aggregate(Count), xs, hs, ys, vs[1..][j], h, zfill));
      assert row[1..] == rest;
      CountRowTotal(xs, hs, ys, h, vs[1..], zfill);
    }
  }

  /** With `count` and no hue the single row adds up to the number of records. */
  lemma CountWithoutHueSumsToHeight(data: map<string, seq<Value>>, height: nat, x: string, y: string, zfill: bool)
    requires forall c :: c in data ==> |data[c]| == height
    requires Pivot(data, height, x, y, None, false, "count", zfill).Ok?
    ensures var t := Pivot(data, height, x, y, None, false, "count", zfill).value;
      |t.cells| == 1 && RowTotal(t.cells[0]) == height as real
  {
    var xs, hs, ys := data[x], HueValues(data, height, None), data[y];
    var cols := SortedDistinct(xs);
    var t := Pivot(data, height, x, y, None, false, "count", zfill).value;
    assert t.cells[0] == seq(|cols|, j requires 0 <= j < |cols| => SpecCell(Aggregate(Count), xs, hs, ys, cols[j], Int(0), zfill));
    CountRowTotal(xs, hs, ys, Int(0), cols, zfill);
    AscendingDistinct(cols);
    GroupSizesCover(xs, hs, Int(0), cols);
  }
}
