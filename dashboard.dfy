/** The selection logic of the Dash app (dashboard.py): which metric is
    plotted and how it is aggregated, what goes on the x axis and in the
    bars, which columns the dimension dropdown offers, and the reset of the
    "group by author" checkbox when no dimension is chosen. */
module Dashboard {
  import opened Wrappers
  import opened Frames
  import opened Plotting
  import opened Pipeline

  /** The `ops` dict of `plot`: the aggregation of each metric. */
  const Ops: map<string, string> := map["msg" := "count", "words" := "sum", "wpm" := "mean"]

  /** The columns `dims_dropdown` never offers as a dimension. */
  const Excluded: seq<string> := ["msg", "words", "author", "date"]

  datatype DashboardError =
    | UnknownMetric           // KeyError: `ops[y]`
    | NoLabel                 // KeyError: `labels_dict[i]` in `dims_dropdown`
    | PlotFailed(e: PlotError)

  /** The arguments `plot` passes to `get_df_for_plotting`, and the hover text. */
  datatype PlotRequest = PlotRequest(x: string, y: string, hue: Option<string>, aggOp: string, hovertemplate: string)

  /** One bar trace per column of the table: its values down the rows. */
  datatype Bar = Bar(name: Value, xs: seq<Value>, ys: seq<Option<real>>)

  datatype Figure = Figure(bars: seq<Bar>, hovertemplate: string, title: string)

  /** A dropdown: its (label, value) options and its selected value. */
  datatype Dropdown = Dropdown(options: seq<(string, string)>, value: string)

  datatype View = View(figure: Figure, dims: Dropdown)

  /** `if not y: y = 'msg'`. */
  function Metric(yCol: Option<string>): string {
    if yCol.Some? && yCol.value != "" then yCol.value else "msg"
  }

  /** `f'%{{y:.3s}} {metric}<extra></extra>'`. */
  function Hovertemplate(metric: string): string {
    "%{y:.3s} " + metric + "<extra></extra>"
  }

  /** The argument choice of `plot(df, filename, hue, y, group_by_author)`. */
  function PlotRequestFor(hue: Option<string>, yCol: Option<string>, groupByAuthor: seq<int>): Result<PlotRequest, DashboardError> {
    var y := Metric(yCol);
    var metric := if y == "msg" then "mensajes" else "palabras";
    if y !in Ops then Err(UnknownMetric)
    else
      var column := if y == "wpm" then "words" else y;
      if |groupByAuthor| == 0 then
        Ok(PlotRequest(if HasHue(hue) then hue.value else "year", column, None, Ops[y], Hovertemplate(metric)))
      else
        Ok(PlotRequest("author", column, hue, Ops[y], Hovertemplate(metric)))
  }

  /** `filename[:-4]`. */
  function Title(filename: string): string {
    if |filename| >= 4 then filename[..|filename| - 4] else ""
  }

  /** `[go.Bar(x=plotting_df.index, y=plotting_df[c].values, ...) for c in plotting_df.columns]`. */
  function Bars(t: Table): seq<Bar> {
    seq(|t.columns|, j requires 0 <= j < |t.columns| =>
      Bar(t.columns[j], t.index, seq(|t.cells|, i requires 0 <= i < |t.cells| =>
        if j < |t.cells[i]| then t.cells[i][j] else None)))
  }

  /** What `plot` draws, or the error it raises. */
  function PlotFigure(data: map<string, seq<Value>>, height: nat, filename: string, hue: Option<string>,
                      yCol: Option<string>, groupByAuthor: seq<int>): Result<Figure, DashboardError>
    requires forall c :: c in data ==> |data[c]| == height
  {
    match PlotRequestFor(hue, yCol, groupByAuthor)
    case Err(e) => Err(e)
    case Ok(req) =>
      match Pivot(data, height, req.x, req.y, req.hue, false, req.aggOp, true)
      case Err(e) => Err(PlotFailed(e))
      case Ok(t) => Ok(Figure(Bars(t), req.hovertemplate, Title(filename)))
  }

  /** `plot`. */
  method Plot(df: Frame, filename: string, hue: Option<string>, yCol: Option<string>, groupByAuthor: seq<int>)
    returns (r: Result<Figure, DashboardError>)
    requires df.Valid()
    ensures r == PlotFigure(df.data, df.height, filename, hue, yCol, groupByAuthor)
  {
    var req :- PlotRequestFor(hue, yCol, groupByAuthor);
    var t := GetDfForPlotting(df, req.x, req.y, req.hue, false, req.aggOp, true);
    if t.Err? {
      return Err(PlotFailed(t.error));
    }
    r := Ok(Figure(Bars(t.value), req.hovertemplate, Title(filename)));
  }

  /** The columns offered as dimensions, in frame order. */
  function Dimensions(columns: seq<string>): (dims: seq<string>)
    ensures forall c :: c in dims <==> c in columns && c !in Excluded
  {
    if |columns| == 0 then []
    else (if columns[0] in Excluded then [] else [columns[0]]) + Dimensions(columns[1..])
  }

  /** `dims_dropdown(df, value)`. */
  function DimsDropdown(columns: seq<string>, value: Option<string>): Result<Dropdown, DashboardError> {
    var dims := Dimensions(columns);
    if exists d :: d in dims && d !in Labels then Err(NoLabel)
    else Ok(Dropdown(seq(|dims|, i requires 0 <= i < |dims| => (Labels[dims[i]], dims[i])),
                     if value.Some? && value.value != "" then value.value else "year"))
  }

  /** `group_by_author = [] if not hue else group_by_author`. */
  function EffectiveGroupByAuthor(hue: Option<string>, groupByAuthor: seq<int>): seq<int> {
    if HasHue(hue) then groupByAuthor else []
  }

  /** What `update_graph` shows: the dimension dropdown, then the figure. */
  function UpdateView(data: map<string, seq<Value>>, columns: seq<string>, height: nat, hue: Option<string>,
                      yCol: Option<string>, groupByAuthor: seq<int>, filename: string): Result<View, DashboardError>
    requires forall c :: c in data ==> |data[c]| == height
  {
    match DimsDropdown(columns, hue)
    case Err(e) => Err(e)
    case Ok(dims) =>
      match PlotFigure(data, height, filename, hue, yCol, EffectiveGroupByAuthor(hue, groupByAuthor))
      case Err(e) => Err(e)
      case Ok(figure) => Ok(View(figure, dims))
  }

  /** `update_graph` on the frame read back from the store. */
  method UpdateGraph(df: Frame, hue: Option<string>, yCol: Option<string>, groupByAuthor: seq<int>, filename: string)
    returns (r: Result<View, DashboardError>)
    requires df.Valid()
    ensures r == UpdateView(df.data, df.columns, df.height, hue, yCol, groupByAuthor, filename)
  {
    var effective := EffectiveGroupByAuthor(hue, groupByAuthor);
    var dims :- DimsDropdown(df.columns, hue);
    var figure :- Plot(df, filename, hue, yCol, effective);
    r := Ok(View(figure, dims));
  }

  // ---------------------------------------------------------------------
  // Properties
  // ---------------------------------------------------------------------

  lemma HovertemplatesDiffer()
    ensures Hovertemplate("mensajes") != Hovertemplate("palabras")
  {
    assert Hovertemplate("mensajes")[9] == 'm' && Hovertemplate("palabras")[9] == 'p';
  }

  /** `plot` aggregates messages by count, words by sum and words per
      message as the mean of the `words` column; no metric defaults to
      messages; any other metric is refused; the hover text says
      `mensajes` exactly for messages and `palabras` otherwise. */
  lemma PlotMetric(hue: Option<string>, yCol: Option<string>, groupByAuthor: seq<int>)
    ensures var r, m := PlotRequestFor(hue, yCol, groupByAuthor), Metric(yCol);
      && (yCol.None? || yCol == Some("") ==> m == "msg")
      && (r.Ok? <==> m in ["msg", "words", "wpm"])
      && (m == "msg" ==> r.Ok? && r.value.y == "msg" && r.value.aggOp == "count")
      && (m == "words" ==> r.Ok? && r.value.y == "words" && r.value.aggOp == "sum")
      && (m == "wpm" ==> r.Ok? && r.value.y == "words" && r.value.aggOp == "mean")
      && (r.Ok? ==> (r.value.hovertemplate == Hovertemplate("mensajes") <==> m == "msg"))
      && (r.Ok? ==> (r.value.hovertemplate == Hovertemplate("palabras") <==> m != "msg"))
  {
    HovertemplatesDiffer();
  }

  /** The axes of the figure: without author grouping there is one bar per
      value of the chosen dimension (or of `year`), each drawn at the single
      row named after that dimension; with it there is one bar per author,
      each drawn at the values of the dimension, ascending. */
  lemma PlotAxes(data: map<string, seq<Value>>, height: nat, filename: string, hue: Option<string>,
                 yCol: Option<string>, groupByAuthor: seq<int>)
    requires forall c :: c in data ==> |data[c]| == height
    requires PlotFigure(data, height, filename, hue, yCol, groupByAuthor).Ok?
    ensures var f := PlotFigure(data, height, filename, hue, yCol, groupByAuthor).value;
      var x := if |groupByAuthor| > 0 then "author" else if HasHue(hue) then hue.value else "year";
      && x in data
      && (forall v :: (exists j :: 0 <= j < |f.bars| && f.bars[j].name == v) <==> v in data[x])
      && (forall a, b :: 0 <= a < b < |f.bars| ==> f.bars[a].name != f.bars[b].name)
      && (|groupByAuthor| == 0 ==> x in Labels && forall j :: 0 <= j < |f.bars| ==> f.bars[j].xs == [Str(Labels[x])])
      && (|groupByAuthor| > 0 && HasHue(hue) ==>
            hue.value in data &&
            forall j :: 0 <= j < |f.bars| ==>
              Ascending(f.bars[j].xs) && forall h :: h in f.bars[j].xs <==> h in data[hue.value])
  {
    var req := PlotRequestFor(hue, yCol, groupByAuthor).value;
    PlotBars(data, height, filename, hue, yCol, groupByAuthor);
    PivotShape(data, height, req.x, req.y, req.hue, false, req.aggOp, true);
  }

  /** The figure has one bar per distinct `x` value, each drawn over the rows
      of the table; with author grouping the bars are the authors. */
  lemma PlotBars(data: map<string, seq<Value>>, height: nat, filename: string, hue: Option<string>,
                 yCol: Option<string>, groupByAuthor: seq<int>)
    requires forall c :: c in data ==> |data[c]| == height
    requires PlotFigure(data, height, filename, hue, yCol, groupByAuthor).Ok?
    ensures var f, req := PlotFigure(data, height, filename, hue, yCol, groupByAuthor).value,
                          PlotRequestFor(hue, yCol, groupByAuthor).value;
      && req.x in data
      && (forall v :: (exists j :: 0 <= j < |f.bars| && f.bars[j].name == v) <==> v in data[req.x])
      && (forall a, b :: 0 <= a < b < |f.bars| ==> f.bars[a].name != f.bars[b].name)
      && (|groupByAuthor| > 0 ==> req.x == "author")
      && (forall j :: 0 <= j < |f.bars| ==> |f.bars[j].ys| == |f.bars[j].xs|)
      && (forall j, i :: 0 <= j < |f.bars| && 0 <= i < |f.bars[j].ys| ==> f.bars[j].ys[i].Some?)
      && var t := Pivot(data, height, req.x, req.y, req.hue, false, req.aggOp, true).value;
         && |f.bars| == |t.columns|
         && (forall j :: 0 <= j < |f.bars| ==>
               f.bars[j].name == t.columns[j] && f.bars[j].xs == t.index && |f.bars[j].ys| == |t.cells|
               && forall i :: 0 <= i < |t.cells| ==> f.bars[j].ys[i] == t.cells[i][j])
  {
    var req := PlotRequestFor(hue, yCol, groupByAuthor).value;
    PivotShape(data, height, req.x, req.y, req.hue, false, req.aggOp, true);
    var t := Pivot(data, height, req.x, req.y, req.hue, false, req.aggOp, true).value;
    AscendingDistinct(t.columns);
    var f := PlotFigure(data, height, filename, hue, yCol, groupByAuthor).value;
    assert f.bars == Bars(t);
    forall v ensures (exists j :: 0 <= j < |f.bars| && f.bars[j].name == v) <==> v in data[req.x] {
      if v in data[req.x] {
        assert v in t.columns;
        var j :| 0 <= j < |t.columns| && t.columns[j] == v;
        assert f.bars[j].name == v;
      }
    }
  }

  /** `MissingLabel` needs a missing hue and an unlabelled x. */
  lemma MissingLabelCause(data: map<string, seq<Value>>, height: nat, x: string, y: string, hue: Option<string>,
                          isGrouped: bool, aggOp: string, zfill: bool)
    requires forall c :: c in data ==> |data[c]| == height
    requires Pivot(data, height, x, y, hue, isGrouped, aggOp, zfill) == Err(MissingLabel)
    ensures !HasHue(hue) && x !in Labels
  {
  }

  /** The reset keeps `plot` from asking for the label of `author`: when the
      dimension is unset or a labelled dimension, `update_graph` never fails
      for want of a label. */
  lemma ResetAvoidsMissingLabel(data: map<string, seq<Value>>, height: nat, hue: Option<string>,
                                yCol: Option<string>, groupByAuthor: seq<int>, filename: string)
    requires forall c :: c in data ==> |data[c]| == height
    requires HasHue(hue) ==> hue.value in Labels
    ensures PlotFigure(data, height, filename, hue, yCol, EffectiveGroupByAuthor(hue, groupByAuthor))
         != Err(PlotFailed(MissingLabel))
  {
    var gba := EffectiveGroupByAuthor(hue, groupByAuthor);
    var req := PlotRequestFor(hue, yCol, gba);
    if req.Ok? && Pivot(data, height, req.value.x, req.value.y, req.value.hue, false, req.value.aggOp, true) == Err(MissingLabel) {
      MissingLabelCause(data, height, req.value.x, req.value.y, req.value.hue, false, req.value.aggOp, true);
    }
  }

  /** Without the reset, grouping by author with no dimension reaches
      `labels_dict['author']`, which does not exist. */
  lemma GroupingWithoutHueMissesLabel()
    ensures PlotFigure(map["author" := [Str("a")], "msg" := [Str("m")]], 1, "chat.txt", None, None, [1])
         == Err(PlotFailed(MissingLabel))
  {
    var data := map["author" := [Str("a")], "msg" := [Str("m")]];
    assert forall c :: c in PlotColumns("author", "msg", None) ==> c in data;
    assert Homogeneous(data["author"]) && Homogeneous(HueValues(data, 1, None));
  }

  /** After the reset, `plot` only groups by author with a real dimension:
      whenever it passes a hue to `get_df_for_plotting`, that hue is the
      chosen, non-empty dimension, so the rows of the table are its values. */
  lemma ResetGivesHue(hue: Option<string>, yCol: Option<string>, groupByAuthor: seq<int>)
    requires PlotRequestFor(hue, yCol, EffectiveGroupByAuthor(hue, groupByAuthor)).Ok?
    ensures var req := PlotRequestFor(hue, yCol, EffectiveGroupByAuthor(hue, groupByAuthor)).value;
      && (req.hue.Some? ==> HasHue(req.hue) && req.hue == hue && req.x == "author")
      && (!HasHue(hue) ==> req.x == "year" && req.hue.None?)
  {
  }

  /** The dimension dropdown offers every column except `msg`, `words`,
      `author` and `date`, in frame order, each labelled from `labels_dict`,
      and selects `year` when nothing is chosen. */
  lemma DimsDropdownOptions(columns: seq<string>, value: Option<string>)
    requires DimsDropdown(columns, value).Ok?
    ensures var d := DimsDropdown(columns, value).value;
      && (forall c :: (exists i :: 0 <= i < |d.options| && d.options[i].1 == c) <==> c in columns && c !in Excluded)
      && (forall i :: 0 <= i < |d.options| ==> d.options[i].1 in Labels && d.options[i].0 == Labels[d.options[i].1])
      && (value.None? || value == Some("") ==> d.value == "year")
      && (value.Some? && value.value != "" ==> d.value == value.value)
  {
    var d := DimsDropdown(columns, value).value;
    var dims := Dimensions(columns);
    forall c ensures (exists i :: 0 <= i < |d.options| && d.options[i].1 == c) <==> c in columns && c !in Excluded {
      if c in dims {
        var i :| 0 <= i < |dims| && dims[i] == c;
        assert d.options[i].1 == c;
      }
    }
  }

  /** On the frame the upload builds (`date`, `msg`, `author`, `words`, then
      the calendar columns) the dimensions are exactly the nine calendar
      columns, all labelled. */
  lemma PipelineDimensions()
    ensures Dimensions(DateInfoColumns(["date", "msg", "author", "words"])) == DateFields + DateKeys
  {
    var base, calendar := ["date", "msg", "author", "words"], DateFields + DateKeys;
    CalendarColumns();
    assert base + DateFields + DateKeys == base + calendar;
    CalendarNotExcluded();
    DimensionsAfterBase(calendar);
  }

  lemma DimensionsAfterBase(calendar: seq<string>)
    requires forall i :: 0 <= i < |calendar| ==> calendar[i] !in Excluded
    ensures Dimensions(["date", "msg", "author", "words"] + calendar) == calendar
  {
    var r3 := ["words"] + calendar;
    var r2 := ["author"] + r3;
    var r1 := ["msg"] + r2;
    var r0 := ["date"] + r1;
    assert ["date", "msg", "author", "words"] + calendar == r0;
    DimensionsSkip(["date"], r1);
    DimensionsSkip(["msg"], r2);
    DimensionsSkip(["author"], r3);
    DimensionsSkip(["words"], calendar);
    DimensionsOfCalendar(calendar);
  }

  /** On that frame the dimension dropdown is built without error. */
  lemma PipelineDimsDropdown(value: Option<string>)
    ensures DimsDropdown(DateInfoColumns(["date", "msg", "author", "words"]), value).Ok?
  {
    PipelineDimensions();
    CalendarLabelled();
  }

  lemma DimensionsSkip(excluded: seq<string>, rest: seq<string>)
    requires |excluded| == 1 && excluded[0] in Excluded
    ensures Dimensions(excluded + rest) == Dimensions(rest)
  {
    assert (excluded + rest)[1..] == rest;
  }

  lemma CalendarNotExcluded()
    ensures forall i :: 0 <= i < |DateFields + DateKeys| ==> (DateFields + DateKeys)[i] !in Excluded
  {
    var calendar := DateFields + DateKeys;
    forall i | 0 <= i < |calendar| ensures calendar[i] !in Excluded {
      assert calendar[i] == calendar[i];
    }
  }

  lemma CalendarLabelled()
    ensures forall d :: d in DateFields + DateKeys ==> d in Labels
  {
  }

  lemma CalendarColumns()
    ensures DateInfoColumns(["date", "msg", "author", "words"])
         == ["date", "msg", "author", "words"] + DateFields + DateKeys
  {
    var base := ["date", "msg", "author", "words"] + DateFields;
    assert "dayofweek" !in base;
    assert "year_week" !in base + ["dayofweek"];
    assert "year_month" !in base + ["dayofweek", "year_week"];
  }

  lemma DimensionsOfCalendar(cols: seq<string>)
    requires forall i :: 0 <= i < |cols| ==> cols[i] !in Excluded
    ensures Dimensions(cols) == cols
  {
    if |cols| > 0 {
      DimensionsOfCalendar(cols[1..]);
    }
  }

  /** The dimension filter works column by column: the dimensions of two
      column lists one after the other are theirs, in the same order. */
  lemma {:induction false} DimensionsConcat(a: seq<string>, b: seq<string>)
    ensures Dimensions(a + b) == Dimensions(a) + Dimensions(b)
  {
    if |a| == 0 {
      assert a + b == b;
    } else {
      assert (a + b)[0] == a[0] && (a + b)[1..] == a[1..] + b;
      DimensionsConcat(a[1..], b);
    }
  }

  /** Words per message is the mean of `words` in each group, not a mean of
      counts: author A with messages of 2 and 4 words and author B with one
      of 3 words both get 3 words per message. */
  lemma WordsPerMessageExample()
    ensures var data := map["author" := [Str("A"), Str("B"), Str("A")],
                            "words" := [Int(2), Int(3), Int(4)],
                            "year" := [Int(2023), Int(2023), Int(2023)]];
      PlotFigure(data, 3, "chat.txt", Some("year"), Some("wpm"), [1])
        == Ok(Figure([Bar(Str("A"), [Int(2023)], [Some(3.0)]), Bar(Str("B"), [Int(2023)], [Some(3.0)])],
                     Hovertemplate("palabras"), "chat"))
  {
    assert PlotRequestFor(Some("year"), Some("wpm"), [1])
        == Ok(PlotRequest("author", "words", Some("year"), "mean", Hovertemplate("palabras")));
    ExampleTable();
    ExampleBars();
    assert Title("chat.txt") == "chat";
  }

  /** The bars of the example: one per author, over the single row 2023. */
  lemma ExampleBars()
    ensures Bars(Table([Int(2023)], [Str("A"), Str("B")], [[Some(3.0), Some(3.0)]]))
         == [Bar(Str("A"), [Int(2023)], [Some(3.0)]), Bar(Str("B"), [Int(2023)], [Some(3.0)])]
  {
    var bars := Bars(Table([Int(2023)], [Str("A"), Str("B")], [[Some(3.0), Some(3.0)]]));
    assert bars[0] == Bar(Str("A"), [Int(2023)], [Some(3.0)]);
    assert bars[1] == Bar(Str("B"), [Int(2023)], [Some(3.0)]);
  }

  /** The pivot behind the example: one row for 2023, one column per author. */
  lemma ExampleTable()
    ensures Pivot(map["author" := [Str("A"), Str("B"), Str("A")], "words" := [Int(2), Int(3), Int(4)],
                      "year" := [Int(2023), Int(2023), Int(2023)]],
                  3, "author", "words", Some("year"), false, "mean", true)
         == Ok(Table([Int(2023)], [Str("A"), Str("B")], [[Some(3.0), Some(3.0)]]))
  {
    var xs, hs, ys := [Str("A"), Str("B"), Str("A")], [Int(2023), Int(2023), Int(2023)], [Int(2), Int(3), Int(4)];
    var data := map["author" := xs, "words" := ys, "year" := hs];
    assert forall c :: c in PlotColumns("author", "words", Some("year")) ==> c in data;
    assert Distinct(PlotColumns("author", "words", Some("year")));
    ExampleColumns();
  }

  /** `PivotColumns` on the three columns of the example. */
  lemma ExampleColumns()
    ensures PivotColumns("author", [Str("A"), Str("B"), Str("A")], [Int(2023), Int(2023), Int(2023)],
                         [Int(2), Int(3), Int(4)], true, false, "mean", true)
         == Ok(Table([Int(2023)], [Str("A"), Str("B")], [[Some(3.0), Some(3.0)]]))
  {
    var xs, hs, ys := [Str("A"), Str("B"), Str("A")], [Int(2023), Int(2023), Int(2023)], [Int(2), Int(3), Int(4)];
    assert Homogeneous(xs) && Homogeneous(hs) && AllInt(ys);
    assert ChooseMode(false, "mean", xs, hs, ys) == Ok(Aggregate(Mean));
    ExampleSorted();
    ExampleCells();
  }

  /** The sorted distinct authors and years of the example. */
  lemma ExampleSorted()
    ensures SortedDistinct([Str("A"), Str("B"), Str("A")]) == [Str("A"), Str("B")]
    ensures SortedDistinct([Int(2023), Int(2023), Int(2023)]) == [Int(2023)]
  {
    var cols, rows := [Str("A"), Str("B")], [Int(2023)];
    assert Less(Str("A"), Str("B")) by {
      assert Key(Str("A")) == [1, 65] && Key(Str("B")) == [1, 66];
    }
    AscendingUnique(SortedDistinct([Str("A"), Str("B"), Str("A")]), cols);
    AscendingUnique(SortedDistinct([Int(2023), Int(2023), Int(2023)]), rows);
  }

  /** The cells of the example: both authors average 3 words. */
  lemma ExampleCells()
    ensures SpecCells(Aggregate(Mean), [Str("A"), Str("B"), Str("A")], [Int(2023), Int(2023), Int(2023)],
                      [Int(2), Int(3), Int(4)], [Int(2023)], [Str("A"), Str("B")], true)
         == [[Some(3.0), Some(3.0)]]
  {
    var xs, hs, ys := [Str("A"), Str("B"), Str("A")], [Int(2023), Int(2023), Int(2023)], [Int(2), Int(3), Int(4)];
    ExampleGroups();
    var cells := SpecCells(Aggregate(Mean), xs, hs, ys, [Int(2023)], [Str("A"), Str("B")], true);
    assert cells[0][0] == Some(6.0 / 2.0) && cells[0][1] == Some(3.0 / 1.0);
    assert cells[0] == [Some(3.0), Some(3.0)];
  }

  /** The two groups of the example: A has 2 messages and 6 words, B 1 and 3. */
  lemma ExampleGroups()
    ensures var xs, hs, ys := [Str("A"), Str("B"), Str("A")], [Int(2023), Int(2023), Int(2023)], [Int(2), Int(3), Int(4)];
      var a, b := GroupMask(xs, hs, Str("A"), Int(2023)), GroupMask(xs, hs, Str("B"), Int(2023));
      && CountTrue(a) == 2 && MaskedSum(ys, a) == 6
      && CountTrue(b) == 1 && MaskedSum(ys, b) == 3
  {
    var xs, hs, ys := [Str("A"), Str("B"), Str("A")], [Int(2023), Int(2023), Int(2023)], [Int(2), Int(3), Int(4)];
    var a, b := GroupMask(xs, hs, Str("A"), Int(2023)), GroupMask(xs, hs, Str("B"), Int(2023));
    assert a == [true, false, true] && b == [false, true, false];
    assert ys[..2] == [Int(2), Int(3)] && ys[..2][..1] == [Int(2)] && ys[..2][..1][..0] == [];
    assert a[..2] == [true, false] && a[..2][..1] == [true] && a[..2][..1][..0] == [];
    assert CountTrue(a[..2][..1]) == 1 && MaskedSum(ys[..2][..1], a[..2][..1]) == 2;
    assert CountTrue(a[..2]) == 1 && MaskedSum(ys[..2], a[..2]) == 2;
    assert b[..2] == [false, true] && b[..2][..1] == [false] && b[..2][..1][..0] == [];
    assert CountTrue(b[..2][..1]) == 0 && MaskedSum(ys[..2][..1], b[..2][..1]) == 0;
    assert CountTrue(b[..2]) == 1 && MaskedSum(ys[..2], b[..2]) == 3;
  }
}
