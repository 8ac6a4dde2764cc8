# whatsapp-dash in Dafny

A model of the core of whatsapp-dash, a Dash web app that turns an exported
WhatsApp chat into bar charts. The model covers:

- the transcript pipeline of `utils.py`. The export text is cleaned of the
  comma some locales put after the date (`clean_stringIO`). It is cut into
  stripped lines (`read_stringio`). Lines with a `HH:MM - ` header become
  (date, msg) rows (`create_df`). The author is split off each message
  (`add_msg_author`) and the words are counted (`add_words_by_msg`).
  Calendar columns are derived from the parsed timestamps (`add_date_info`).
  `add_started_conv` is modelled too, although nothing calls it.
- the pivot `get_df_for_plotting`, which groups the records, aggregates one
  column per group and lays the results out as a dense table. Its columns
  are the sorted `x` values and its rows the sorted `hue` values.
- the selection logic of `dashboard.py`:
  - `plot` chooses the metric, the aggregation, the axes and the hover text;
  - `dims_dropdown` chooses which columns are offered as dimensions;
  - `update_graph` resets the "group by author" choice.

Modules:

- `Wrappers`: `Option` and `Result`.
- `Text`: the Python string operations used (`count`, `split`, `join`,
  `strip`, substring search).
- `Sanitize`: `clean_stringIO` and `read_stringio`.
- `Frames`: the cell values, their sort order, and the class `Frame`. A
  `Frame` stands for a pandas DataFrame: ordered column labels, a map from
  label to column, and a height.
- `Pipeline`: `create_df` through `add_date_metrics`.
- `Plotting`: `labels_dict` and `get_df_for_plotting`.
- `Dashboard`: `plot`, `dims_dropdown` and `update_graph`.

The frame-building steps are methods on `Frame` objects. Each is proved
against a function of its input: `CreateDf` against `Segmented`, and
`AddMsgAuthor` against `AuthoredData`. The lemmas state what those
functions mean. `GetDfForPlotting` validates its arguments, then fills one
cell per group in a loop. It is proved equal to the group-by-group
definition `Pivot`.

Behaviour of the code worth noting:

- `plot` knows three metrics, `msg`, `words` and `wpm` (its `ops` dict).
- `year_month` and `year_week` use two-digit years (`%y-%m`, `%y-%V`).
- `dayofweek` holds English day names (`day_name()`).
- The only relabelling of a pivot table is the single row label
  `labels_dict[x]` used when there is no hue.
- An unknown `y` fails in `plot` (a `KeyError` on `ops`), before
  `get_df_for_plotting` is called.
- `add_date_info` expects the `date` column to hold timestamps already;
  `update_output` parses them with `pd.to_datetime` before calling it.

## Model

| member | source | states |
|---|---|---|
| Sanitize.CleanStringIOIsSelection | utils.py:28-31 | the output is the input read at strictly ascending kept positions. A position is dropped exactly when the input has a comma there preceded by `/` and two ASCII digits; the look-behind is matched on the input |
| Sanitize.CleanStringIONotIdempotent | utils.py:28-31 | because the look-behind is matched on the input, a second pass over `/12,,` removes a comma the first pass kept |
| Sanitize.ReadStringIOLine | utils.py:40-43 | line k of `read_stringio` is the k-th `\n`-piece of the cleaned text, with only surrounding whitespace removed; it contains no newline, and neither starts nor ends with whitespace |
| Sanitize.ReadStringIOLines | utils.py:40-43 | there is one line per `\n`-separated piece of the cleaned text (newline count + 1), and the pieces join back to that text |
| Text.StripIsTrim | utils.py:42 | `strip()` returns a slice of its input, cut off by whitespace only on both sides, that neither starts nor ends with whitespace |
| Text.JoinSplit | utils.py:42 | joining the pieces of `split(sep)` with `sep` gives back the string |
| Text.SplitPieceFree | utils.py:42 | no piece of `split(sep)` contains the separator |
| Text.SplitJoin | utils.py:55 | splitting a join of separator-free pieces gives back the pieces |
| Pipeline.FindHeader | utils.py:47 | the header position found is the leftmost position where ` - ` follows `DD:DD`; None means there is no such position |
| Pipeline.ZFill2KeepsValue | utils.py:54-55 | `zfill(2)` on a string of digits leaves a string of digits with the same numeric value |
| Pipeline.NormalizeDateComponents | utils.py:54-55 | the normalized date has as many `/`-components as the input, each the input's component padded by `zfill(2)`: at least two characters long, and unchanged if it was already that long |
| Pipeline.SegmentLineAtFirstHeader | utils.py:50-56 | a line is cut at its first `DD:DD - ` header: the date is the normalized text before it and the message is everything after it, including any later ` - ` |
| Pipeline.SegmentLineWithoutHeader | utils.py:50-53 | a line without a header yields no row |
| Pipeline.SegmentedConcat | utils.py:49-58 | the rows of a concatenation of line sequences are the rows of each part, in input order |
| Pipeline.ContinuationLineDropped | utils.py:49-58 | a continuation line without a header is dropped, not appended to the previous message |
| Pipeline.CreateDf | utils.py:45-61 | the loop builds a frame with columns `date` and `msg`. It has one row per header line, in input order, holding that line's normalized date and message |
| Pipeline.SplitAuthor | utils.py:68 | the split exists iff the message contains `": "`, and author + `": "` + body gives the message back |
| Pipeline.AuthorBeforeFirstSeparator | utils.py:68 | the split is unique. Any decomposition whose author has no `": "` is the one `split(": ", 1)` returns |
| Pipeline.FirstSeparator | utils.py:68 | the author part never contains `": "`: the split happens at the first separator |
| Pipeline.SeparatorHasColon | utils.py:66-68 | every message with `": "` passes the earlier `contains(":")` filter |
| Pipeline.AuthorMasks | utils.py:66-77 | filtering on `:` and then dropping the rows without `": "` (the `dropna`) keeps exactly the rows with `": "`, in order |
| Pipeline.NoneKeptIffNoSeparator | utils.py:68 | no row survives exactly when no message contains `": "` |
| Pipeline.AuthorsBodiesRebuild | utils.py:68 | for every kept row, author + `": "` + new msg equals the original message, and the author holds no `": "` |
| Pipeline.AddMsgAuthor | utils.py:64-77 | fails exactly when no message contains `": "`, which is the one-column `expand` split. Otherwise the result keeps the rows with `": "`, in order, and adds `author`. `msg` becomes the text after the first separator |
| Pipeline.Words | utils.py:102-104 | the word count is at least 1 and equals the number of pieces of `split(' ')` |
| Pipeline.WordsConcat | utils.py:103 | the word count of two texts joined by a space is the sum of their counts |
| Pipeline.WordsColumn | utils.py:103 | one count per message, each `count(" ") + 1` and hence at least 1 |
| Pipeline.AddWordsByMsg | utils.py:102-104 | updates the frame in place, appending the `words` column. All other columns are unchanged |
| Pipeline.Quarter | utils.py:83-86 | for a month in 1..12 the quarter is in 1..4, and the month lies in the three months of that quarter |
| Pipeline.YearMonthReadsBack | utils.py:90 | `year_month` is 5 characters: two-digit year, `-`, two-digit month, and the digits read back as `year % 100` and the month |
| Pipeline.YearMonthSortsChronologically | utils.py:90 | within one century, `year_month` strings sort exactly in chronological order of (year, month) |
| Pipeline.DateInfoRow | utils.py:80-91 | row k gains year, month, day, hour, ISO week, a quarter in 1..4 holding its month, an English weekday name, `%y-%V` and `%y-%m`, computed from its timestamp. All other columns are unchanged |
| Pipeline.AddDateInfo | utils.py:80-91 | fails exactly when a calendar column already exists (the `join` overlap). Otherwise the six joined columns come first, then `dayofweek`, `year_week` and `year_month` |
| Pipeline.StartingExactly | utils.py:94-99 | `starting` holds exactly when there is a previous message and at least 7 whole hours separate the two (`> 6` after rounding down to whole hours) |
| Pipeline.DaysToPrevMsgExactly | utils.py:95-97 | `days_to_prev_msg` is missing exactly on the first message; on every other it is the gap to the previous message in whole days, rounded down, negative when the messages are out of order |
| Pipeline.ContentData | utils.py:115-120 | the pipeline's columns are the kept dates, the bodies, the authors and the word counts of the messages with `": "` |
| Pipeline.FrameFromLines | utils.py:115-120 | create, add author, add words: the same failure condition as `add_msg_author`; columns `date`, `msg`, `author`, `words`; one row per header line whose message has `": "` |
| Pipeline.GetDfFromContent | utils.py:115-120 | `get_df_from_content` is `FrameFromLines` applied to the lines of `read_stringio` |
| Pipeline.AddDateMetrics | utils.py:123-126 | only `add_date_info` is applied; `add_started_conv` is commented out |
| Plotting.GroupKeys | utils.py:168-175 | the grouped index holds each (x, hue) pair that occurs, exactly once |
| Plotting.ChooseMode | utils.py:168-177 | the chosen aggregation is one whose values can be computed: `count` works on any column, `sum`, `mean` and pre-grouped need integers |
| Plotting.GetDfForPlotting | utils.py:128-191 | the checks, the group loop and the fill produce exactly `Pivot`: the error the source raises first, or the table of groups |
| Plotting.GroupAndFill | utils.py:163-191 | after the column checks, the loop writing one cell per group, the zero-fill and the row label give exactly the group-by-group table |
| Plotting.WriteGroups | utils.py:179-186 | after the loop a cell is written exactly for the (hue, x) pairs that occur, and it holds that group's aggregate |
| Plotting.FillIsSpec | utils.py:179-191 | the cells written and then `fillna(0)` give, for every cell, the group's aggregate when the group has records, else 0 with `zfill` or NaN without |
| Plotting.PivotArgumentErrors | utils.py:154-172 | an empty `x` or `y` raises first. An empty `agg_op` without `is_grouped` raises. Only `count`, `sum` or `mean`, or a pre-grouped frame, give a table |
| Plotting.PivotShape | utils.py:163-191 | columns are the distinct `x` values, ascending. Rows are the distinct hue values, ascending, or the single row `labels_dict[x]`. The table is rectangular, with no NaN under `zfill` |
| Plotting.PivotCell | utils.py:168-191 | each cell holds the size (`count`), the sum (`sum`) or the sum over the size (`mean`) of `y` over exactly the records of its (x, hue) group, or 0/NaN when there are none |
| Plotting.PregroupedCell | utils.py:176-186 | with `is_grouped`, every record's `y` appears in the cell of its `x` column and, with a hue, of its hue row (`trans_df.at[hue, x]`) |
| Plotting.SingleRecordGroup | utils.py:176-177 | with unique keys the group of a record holds that record and no other, and its total is the record's own `y` |
| Plotting.CountWithoutHueSumsToHeight | utils.py:184-191 | with `count` and no hue, the single row adds up to the number of records |
| Dashboard.Plot | dashboard.py:133-178 | draws exactly `PlotFigure`: one bar per table column, the hover text, and the title `filename[:-4]` |
| Dashboard.PlotMetric | dashboard.py:133-146 | no metric, or the empty string, means `msg`. `msg`, `words` and `wpm` aggregate by count, sum and the mean of `words`, and any other metric fails. The hover label is `mensajes` iff the metric is `msg`, else `palabras` |
| Dashboard.PlotAxes | dashboard.py:148-163 | without author grouping there is one bar per value of the chosen dimension (or `year`), no value drawn twice, each drawn at the single row `labels_dict[x]`. With it there is one bar per author, each drawn at the dimension's values, ascending |
| Dashboard.PlotBars | dashboard.py:155-163 | there is one bar per distinct value of the x column (the authors when grouping), no value drawn twice. Bar j is column j of the pivot table: drawn at the table's row labels, its i-th height is cell (i, j), and none is NaN |
| Dashboard.MissingLabelCause | utils.py:188-189 | the label lookup fails only without a hue and for an unlabelled `x` |
| Dashboard.ResetAvoidsMissingLabel | dashboard.py:236 | after the reset, with the dimension unset or labelled, plotting never fails on a missing label |
| Dashboard.GroupingWithoutHueMissesLabel | dashboard.py:148-153 | without the reset, grouping by author with no dimension asks for `labels_dict['author']` and fails |
| Dashboard.ResetGivesHue | dashboard.py:236 | after the reset, whenever `plot` passes a hue to the pivot it groups by `author` and the hue is the chosen non-empty dimension. With no dimension, x is `year` and there is no hue |
| Dashboard.UpdateGraph | dashboard.py:231-243 | builds the dimension dropdown, then the figure with the reset grouping; the first error wins |
| Dashboard.Dimensions | dashboard.py:183-184 | the offered dimensions are exactly the columns other than `msg`, `words`, `author` and `date` |
| Dashboard.DimensionsConcat | dashboard.py:183-184 | the dimension filter works column by column, so the dimensions keep the frame's column order |
| Dashboard.WordsPerMessageExample | dashboard.py:138-153 | with `wpm` and author grouping, authors with messages of 2 and 4 words and of 3 words both get 3.0 words per message: the mean of `words` per group |
| Dashboard.DimsDropdownOptions | dashboard.py:182-192 | every non-excluded column is offered, labelled from `labels_dict`, and the selected value is the chosen dimension, or `year` when none (or the empty string) is chosen |
| Dashboard.PipelineDimensions | dashboard.py:183-184 | on the columns the pipeline builds, the dimensions are exactly the nine calendar columns, in order |
| Dashboard.PipelineDimsDropdown | dashboard.py:182-192 | on those columns the dropdown is built without a missing label |

## Left out

- File helpers: `clean_file`, `read_file` and `get_df_from_filename` are file-system I/O.
- The Dash layout: the upload callbacks (`parse_contents`, `update_output`), JSON and base64 transport, `metrics_dropdown`, `group_by_author_checklist`, and the HTML/graph dictionaries beyond bars, hover text and title. These are UI plumbing. The `PreventUpdate` raised without data is also left out.
- `delete_cache.py` and `keep_alive.py` are not part of this model; they handle cache sweeping and keep-alive.
- Date parsing (`pd.to_datetime`) and calendar arithmetic are left out. A timestamp is a record of its fields, with the ISO week and weekday supplied rather than computed.
- `add_msg_author`: the two phone-number-to-name replacements (utils.py:71-74) are left out as chat-specific data.
- Pipeline.FindHeader: `\d` is taken as ASCII digits only, while Python's `\d` on `str` also matches other Unicode decimal digits.
- Non-string arguments (the `isinstance` checks) cannot be expressed, because arguments are typed.
- `Plotting.Pivot`: aggregations other than `count`, `sum` and `mean` (pandas' `max`, `min` and the like) are modelled as an error.
- `Plotting.Pivot`: `sum` and `mean` over a non-integer column are modelled as an error; pandas would concatenate strings.
- `Plotting.Pivot`: a column list `[x, hue, y]` with a repeated name is modelled as an error.
- `Plotting.Pivot`: an `x` or hue column mixing kinds is modelled as an error, because `sorted` raises on it.
- `Plotting.Pivot`: pre-grouped frames with two records for one cell are modelled as an error.
- Plotting.ChooseMode: a pre-grouped frame (`is_grouped=True`) whose `y` column is not all integers is refused with `NotNumeric`, although the source copies such values (strings, timestamps) into the table unchanged; cells of the model are numbers only.
- `Plotting.Pivot`: `mean` is an exact real quotient rather than a float, and cells are reals rather than pandas objects.
- `Plotting.WriteGroups`: groups are visited in first-occurrence order, not pandas' sorted order. Each cell is written once, so the result is the same.
- `Plotting.GetDfForPlotting`: the column `index` that `reset_index` adds is not modelled; the frame's own index is never used.
- `add_started_conv` is modelled on a sequence of integer timestamps in seconds (`Pipeline.Starting`, `Pipeline.DaysToPrevMsg`), not as an update of a frame, because a modelled timestamp holds calendar fields and no instant. The columns it leaves in the caller's frame (`tt_prev` stays there; only the returned copy drops it) are not modelled.
- `Pipeline.AddWordsByMsg`: the count is of the space character only, as `str.count(" ")` is.
- `Dashboard.Plot`: `group_by_author` `None` is represented by the empty sequence.
