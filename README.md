# Runtime heatmap pipeline, modelled in Dafny

The runtime report shows which power source (battery, battery with solar,
genset with battery and so on) was feeding a site at every 5-minute slot of
every day. Its data sit in one immutable dataset: a catalog of categorical
sources (`meta.sources`) and, per ISO date, the list of samples taken that
day (`data`). This project models the pipeline that turns the dataset and an
inclusive `{start, end}` date range into what the heatmap draws:

- the **category filter**: only sources named `RtBatt`, `RtBS`, `RtDB` or
  `RtDSB` are drawn (`Catalog`);
- the **cell transform** `transformData`: one `[time, date, value, color]`
  cell per sample of an in-range date whose value names an allowed source,
  date by date and sample by sample (`Heatmap`);
- the **tooltip** `generateTooltipContent` and the chart's formatter, which
  look the sample up by date and time and the source by value in the full
  catalog (`Tooltip`);
- the **chart options**: the 288 `HH:MM` labels of the x axis and the
  even-hour `:00` tick predicate, the sorted in-range dates of the y axis,
  the legend pieces and the series (`ChartConfig`, `App`);
- the **range state**: the default range spans the smallest to the largest
  date key, and an edit replaces exactly one endpoint (`App`).

JavaScript's string comparison is modelled as `JsBuiltins.Less`: lexicographic
order by code point, where a proper prefix is smaller. This matches
JavaScript's UTF-16 code-unit order on text without characters above
U+FFFF, which covers ISO dates and `HH:MM` labels. `a <= b` is
evaluated as `!(b < a)`, as JavaScript does for strings. `Object.entries`
is a sequence of `(date, samples)` pairs in entry order. JavaScript object
keys are distinct, so the lemmas that rely on that fact require
`DistinctKeys`. The two imperative loops of the source are methods with
loop invariants: the `forEach`/`push` loops of `transformData` and the
nested `for` loops that build `hours`. Each method is proved equal to a
specification function, and the properties are proved as lemmas about
those functions.

Files: `seqs.dfy` (generic sequence facts), `js_builtins.dfy` (string
order, `find`, `filter`, `sort`, `padStart`, `split`, `endsWith`,
`parseInt`), `types.dfy`, `catalog.dfy`, `heatmap.dfy`, `tooltip.dfy`,
`chart_config.dfy`, `app.dfy`.

## Model

| member | source | states |
|---|---|---|
| Catalog.Displayed | src/utils/chartUtils.ts:10-12 | a source is kept iff it is in the catalog and its name is one of the four allowed names; the kept sources keep catalog order (a subsequence) |
| Catalog.MatchSource | src/utils/chartUtils.ts:19 | `sources.find((s) => s.value === v)`: the first source, in the order given, whose value is `v`, or none; also the full-catalog lookup at src/utils/chartUtils.ts:39 |
| Catalog.NoDisplayedMatch | src/utils/chartUtils.ts:19-20 | no allowed source has value `v` iff every catalog source with value `v` has a name outside the allow-list |
| JsBuiltins.Find | src/utils/chartUtils.ts:19 | `find` gives nothing iff no element satisfies the predicate; otherwise it gives the element at the first position that does |
| JsBuiltins.FindAt | src/utils/chartUtils.ts:38-39 | the element at the first satisfying position is what `find` returns |
| JsBuiltins.Filter | src/utils/chartUtils.ts:15-16 | `filter` keeps exactly the elements that satisfy the predicate |
| JsBuiltins.FilterSubseq | src/utils/chartUtils.ts:15-16 | `filter` keeps the order of what it keeps |
| JsBuiltins.FilterAppend | src/App.tsx:158-173 | filtering distributes over concatenation |
| JsBuiltins.Sort | src/App.tsx:83-85 | `.sort()` returns a permutation of its input in ascending string order |
| JsBuiltins.InsertSorted | src/App.tsx:85 | inserting into a sorted sequence keeps it sorted |
| JsBuiltins.SortIsUnique | src/App.tsx:85 | two sorted permutations of the same strings are equal, so the result does not depend on the sorting algorithm |
| JsBuiltins.SortedDistinctIncreasing | src/App.tsx:83-85 | a sorted, duplicate-free sequence is strictly increasing |
| JsBuiltins.Less | src/utils/chartUtils.ts:16 | string `a < b`: the first differing character decides, and a proper prefix is smaller |
| JsBuiltins.LessEq | src/utils/chartUtils.ts:16 | string `a <= b`, evaluated as `!(b < a)` |
| JsBuiltins.LessIrreflexive | src/utils/chartUtils.ts:16 | no string is smaller than itself |
| JsBuiltins.LessAsymmetric | src/utils/chartUtils.ts:16 | if `a < b` then not `b < a`, so with `LessTrichotomy` exactly one of `a < b`, `a == b`, `b < a` holds |
| JsBuiltins.LessTransitive | src/utils/chartUtils.ts:16 | string `<` is transitive |
| JsBuiltins.LessTrichotomy | src/utils/chartUtils.ts:16 | two strings are equal or one is smaller |
| JsBuiltins.LessEqTransitive | src/utils/chartUtils.ts:16 | string `<=` is transitive |
| JsBuiltins.Decimal | src/App.tsx:78 | `String(n)` for a natural `n`: a non-empty string of decimal digits, whose value is `n` by `DecimalValue` |
| JsBuiltins.EndsWith | src/utils/chartUtils.ts:101 | `value.endsWith(suffix)`: the text is at least as long as the suffix and its last characters are the suffix |
| JsBuiltins.ParseInt | src/utils/chartUtils.ts:101 | `parseInt(text)`: an optional sign, then the value of the leading decimal digits; none (NaN) when no digit follows |
| JsBuiltins.PadStart | src/App.tsx:78 | `padStart` gives at least `width` characters and ends with the original text |
| JsBuiltins.SplitFirst | src/utils/chartUtils.ts:101 | `split(':')[0]` is a prefix without `:`, followed by `:` when shorter than the text |
| JsBuiltins.SplitFirstAt | src/utils/chartUtils.ts:101 | with the first `:` at position `n`, `split(':')[0]` is the first `n` characters |
| JsBuiltins.DecimalValue | src/App.tsx:78 | the digits of `String(n)` have value `n` |
| JsBuiltins.LeadingZerosValue | src/App.tsx:78 | leading zeros do not change the value of a digit string |
| JsBuiltins.ParseIntPadded | src/App.tsx:78 | `parseInt(String(n).padStart(w, '0'))` gives back `n` |
| Heatmap.InvertedRangeHasNoDate | src/utils/chartUtils.ts:16 | when `end < start`, no date satisfies `start <= date <= end` |
| Heatmap.InRange | src/utils/chartUtils.ts:16 | the range test `date >= start && date <= end` under string order (also src/App.tsx:84) |
| Heatmap.SelectDays | src/utils/chartUtils.ts:15-16 | the `[date, samples]` entries whose date passes the range test, in entry order |
| Heatmap.CellFor | src/utils/chartUtils.ts:19-22 | what one sample pushes: the cell `[time, date, value, color]` of the first allowed source whose value is the sample's `rtsources`, or nothing |
| Heatmap.Cells | src/utils/chartUtils.ts:5-27 | the cell list `transformData` returns: the cells of the in-range dates, date by date in entry order |
| Heatmap.TransformData | src/utils/chartUtils.ts:5-27 | the loop over the selected dates returns exactly `Cells(data, range)` |
| Heatmap.PushDayCells | src/utils/chartUtils.ts:18-23 | the inner loop appends to the result the cells of the day's samples, in sample order |
| Heatmap.RangeCellsAreProjection | src/utils/chartUtils.ts:15-24 | processing day by day equals filtering the dates, flattening their samples in order and mapping each sample to its cell |
| Heatmap.ProjectAppend | src/utils/chartUtils.ts:17-24 | the cells of two runs of samples are the cells of the first run followed by those of the second |
| Heatmap.RangeCellsAppend | src/utils/chartUtils.ts:15-17 | the cells of two runs of dates are the cells of the first run followed by those of the second |
| Heatmap.OriginsMatchCells | src/utils/chartUtils.ts:18-22 | cell `k` is the cell of sample `Origins[k]` |
| Heatmap.OriginsIncreasing | src/utils/chartUtils.ts:17-18 | the origins are strictly increasing: cells follow date order, then sample order |
| Heatmap.OriginsExact | src/utils/chartUtils.ts:19-22 | a sample is an origin iff its value names an allowed source |
| Heatmap.ProjectOrigins | src/utils/chartUtils.ts:15-24 | the cell list is exactly the in-order subsequence of the samples that yield a cell, each mapped to its cell |
| Heatmap.FlattenSound | src/utils/chartUtils.ts:17-18 | every flattened sample is one stored sample of one date |
| Heatmap.FlattenComplete | src/utils/chartUtils.ts:17-18 | every stored sample of every date is among the flattened samples |
| Heatmap.ProjectSound | src/utils/chartUtils.ts:18-22 | every cell is the cell of one of the samples |
| Heatmap.ProjectComplete | src/utils/chartUtils.ts:19-21 | the cell of every sample that has one is in the output |
| Heatmap.CellForSound | src/utils/chartUtils.ts:19-21 | a sample's cell has the sample's time and date and the value and colour of an allowed source whose value is the sample's `rtsources` |
| Heatmap.SelectedSampleStored | src/utils/chartUtils.ts:15-18 | every sample of the selected dates is a stored sample of an in-range date |
| Heatmap.CellSound | src/utils/chartUtils.ts:10-24 | every emitted cell has an in-range date, the time of a sample stored under that date, and the value and colour of an allowed source whose value is that sample's `rtsources` |
| Heatmap.CellComplete | src/utils/chartUtils.ts:15-21 | every sample of an in-range date whose value names an allowed source yields its cell, carrying the first such source's value and colour |
| Heatmap.InvertedRangeIsEmpty | src/utils/chartUtils.ts:16 | if `end < start` the result is empty |
| Heatmap.InvertedRangeCells | src/utils/chartUtils.ts:15-16 | with an inverted range no date contributes cells |
| Heatmap.RangeWidening | src/utils/chartUtils.ts:16 | the cells of a sub-range form a subsequence of the cells of a wider range |
| Heatmap.RangeCellsWidening | src/utils/chartUtils.ts:15-17 | the same, date by date |
| Heatmap.CellCountBound | src/utils/chartUtils.ts:15-24 | there are at most as many cells as in-range samples |
| Heatmap.RemoveSample | src/utils/chartUtils.ts:19-22 | the deletion used to state the omission policy (no source operation): deleting sample `j` of date `i` changes only that date's samples |
| Heatmap.UnmatchedSampleOmitted | src/utils/chartUtils.ts:19-22 | deleting a sample whose value names no allowed source leaves the output unchanged for every range: such a sample is silently dropped |
| Heatmap.RangeCellsReplace | src/utils/chartUtils.ts:15-17 | replacing one date by a date with the same cells keeps the output |
| Heatmap.DayWithoutUnmatched | src/utils/chartUtils.ts:18-22 | deleting an unmatched sample keeps that date's cells |
| Heatmap.DaySamplesRemove | src/utils/chartUtils.ts:19-22 | part of the omission proof (no source operation): the samples of a date with point `j` deleted are its samples with sample `j` deleted |
| Heatmap.ProjectDrop | src/utils/chartUtils.ts:19-22 | deleting a sample that yields no cell does not change the cells |
| Tooltip.Render | src/utils/chartUtils.ts:43-55 | the template literal is non-empty and starts with a newline |
| Tooltip.TooltipLines | src/utils/chartUtils.ts:45-53 | a tooltip has nine lines |
| Tooltip.DayPoints | src/utils/chartUtils.ts:35-36 | `data[date]`: the samples stored under `date`, or none when the key is absent |
| Tooltip.MatchTime | src/utils/chartUtils.ts:38 | `dataPoints.find((p) => p.time === time)`: the first sample with that time, or none |
| Tooltip.Content | src/utils/chartUtils.ts:29-56 | the tooltip is empty iff the date is absent, or no sample of that date has that time, or no source of the full catalog has that value |
| Tooltip.DayLookup | src/utils/chartUtils.ts:35 | with distinct keys, `data[date]` of a stored date is that date's samples |
| Tooltip.TooltipForSample | src/utils/chartUtils.ts:35-55 | the tooltip of the first sample with a time and the first catalog source with a value is the nine-line block of exactly that sample and source |
| Tooltip.TooltipForCell | src/utils/chartUtils.ts:35-41 | every emitted cell has a non-empty tooltip |
| Tooltip.JoinAppend | src/utils/chartUtils.ts:45-53 | the text of two runs of lines is the text of the first followed by that of the second |
| Tooltip.RenderedLineAt | src/utils/chartUtils.ts:45-53 | line `k` appears in the rendered text at its offset, and line `k + 1` follows it directly: time, date, source, description, battery V, battery A, rectifier A, load A, system V in that order |
| Tooltip.Formatter | src/utils/chartUtils.ts:75-82 | the formatter returns `''` when the payload is falsy, not an object, or its `value` is not an array; otherwise it returns the tooltip of the array's first three items |
| Tooltip.CellPayload | src/utils/chartUtils.ts:75-80 | the formatter's argument for a drawn cell: an object whose `value` is the cell's array `[time, date, value, color]` |
| Tooltip.FormatterOnCell | src/utils/chartUtils.ts:75-82 | the payload of any emitted cell passes the guard and yields a non-empty tooltip |
| ChartConfig.Pieces | src/utils/chartUtils.ts:133-137 | one piece per filtered source, in catalog order, with `value`, `label` and `color` taken from `value`, `display` and `color` |
| ChartConfig.PieceOf | src/utils/chartUtils.ts:133-137 | the legend entry of one source: `value`, `label` and `color` taken from the source's `value`, `display` and `color` |
| ChartConfig.ShowTick | src/utils/chartUtils.ts:100-102 | the axis `interval` callback, also used for the ticks (src/utils/chartUtils.ts:110-112, src/App.tsx:158-161 and 170-173): true iff the label ends in `:00` and `parseInt` of the text before its first `:` is even; a NaN hour is never even |
| ChartConfig.GetChartOptions | src/utils/chartUtils.ts:58-158 | the x and y axis data are the given hours and days, the pieces are those of the filtered sources, and the series data is `transformData(data, dateRange)` |
| ChartConfig.PiecesExact | src/utils/chartUtils.ts:133-137 | every allowed catalog source has its piece, and every piece is the piece of an allowed catalog source |
| ChartConfig.PiecesFind | src/utils/chartUtils.ts:133-138 | the first piece with value `v` is the piece of the first allowed source with value `v`, and there is none without such a source |
| ChartConfig.PieceAt | src/utils/chartUtils.ts:133-137 | the first allowed source with value `v` gives the first piece with value `v` |
| ChartConfig.NoPiece | src/utils/chartUtils.ts:133-137 | without an allowed source of value `v`, no piece has value `v` |
| ChartConfig.LegendColorsCells | src/utils/chartUtils.ts:133-144 | for every drawn cell, the first legend piece with the cell's value has the cell's colour |
| App.Pad2Digits | src/App.tsx:78 | below 100, `String(n).padStart(2, '0')` is the tens digit followed by the units digit |
| App.Pad2 | src/App.tsx:78 | `String(n).padStart(2, '0')` |
| App.HourLabel | src/App.tsx:77-79 | the label pushed for hour `h` and minute `m`: `pad2(h) + ":" + pad2(m)` |
| App.TimeAxis | src/App.tsx:74-81 | the x axis has 288 labels |
| App.GenerateHours | src/App.tsx:74-81 | the nested loops push exactly the 288 labels of `TimeAxis` |
| App.GridIndex | src/App.tsx:75-76 | grid point `(i, j)` has index `12 * i + j / 5` below 288, and the index splits back into `i` and `j` |
| App.LabelAt | src/App.tsx:75-79 | label `12 * i + m` is minute `5 * m` of hour `i` |
| App.LabelAtGridPoint | src/App.tsx:74-81 | entry `12 * i + j / 5` is `pad2(i) + ":" + pad2(j)` |
| App.LabelIndex | src/App.tsx:74-81 | label `k` is minute `5 * (k % 12)` of hour `k / 12` |
| App.HourLabelShape | src/App.tsx:77-79 | a label is two digits, a colon and two digits |
| App.Pad2Less | src/App.tsx:78 | zero-padded two-digit numbers compare as the numbers do |
| App.HourLabelLess | src/App.tsx:77-79 | labels compare as their (hour, minute) pairs do |
| App.TimeAxisIncreasing | src/App.tsx:74-81 | the labels are strictly increasing under string order, hence distinct |
| App.LabelEndsWith | src/App.tsx:160 | a label ends in `:00` iff its minute is 0 |
| App.LabelHead | src/App.tsx:160 | the text before a label's first `:` is its zero-padded hour |
| App.TickAtHourLabel | src/utils/chartUtils.ts:101 | the `interval` predicate holds on a grid label iff it is minute 0 of an even hour |
| App.TickAtLabel | src/App.tsx:158-161 | label `k` is shown iff `k` is a multiple of 24 |
| App.ShownPositions | src/App.tsx:170-173 | over all 288 labels, the shown ones are those at multiples of 24 |
| App.FilterEvery24 | src/App.tsx:158-161 | if each block of 24 labels keeps one label, the first `c` blocks keep those labels in order |
| App.TickBlocks | src/App.tsx:158-161 | each block of 24 labels shows only its first label |
| App.ShownTicks | src/App.tsx:158-161 | the shown labels are minute 0 of the even hours, in order |
| App.TwelveTicks | src/App.tsx:158-173 | exactly twelve of the 288 labels are shown: `00:00`, `02:00`, ..., `22:00` |
| App.Days | src/App.tsx:83-85 | the y axis is sorted and holds exactly the date keys `d` with `start <= d <= end` |
| App.DaysIncreasing | src/App.tsx:83-85 | with distinct keys the y axis is strictly increasing, so it has no duplicates |
| App.DaysInverted | src/App.tsx:84 | an inverted range has no rows |
| App.DefaultRange | src/App.tsx:43-49 | the default range's endpoints are date keys and every key lies in it; there is none for a dataset without dates |
| App.SortedBounds | src/App.tsx:44-47 | the first and last element of a sorted sequence bound all its elements |
| App.DefaultRangeKeys | src/App.tsx:43-49 | every stored date lies in the default range |
| App.DefaultRangeSelectsAll | src/App.tsx:43-49 | under the default range the y axis is every key, sorted, and the series holds the cells of every stored sample |
| App.HandleDateRangeChange | src/App.tsx:241-246 | an edit of `start` changes only `start`, an edit of `end` changes only `end` |
| App.EditsCommute | src/App.tsx:241-246 | edits of the two endpoints commute, and a later edit of an endpoint overrides an earlier one |
| App.NarrowingEdit | src/App.tsx:241-246 | moving the start later or the end earlier only removes cells: the new series is a subsequence of the old |
| App.GetChartOptions | src/App.tsx:73-221 | the component's options are the module's `getChartOptions` applied to the 288 labels, the sorted in-range dates and the same range; their series comes from the inline `transformData` (src/App.tsx:51-71), whose code matches `Heatmap.TransformData` |
| App.ExampleInvertedRange | src/App.tsx:83-85 | the range `2024-06-10` to `2024-06-01` gives no rows and no cells |
| App.SingleSampleCell | src/utils/chartUtils.ts:17-22 | one in-range date with one matched sample yields exactly that sample's cell |
| App.ExampleOneCell | src/utils/chartUtils.ts:15-24 | a one-date dataset with a sample of value 2 and an `RtBatt` source of value 2 gives the single cell `["00:05", "2024-01-01", 2, "#ff0000"]` |
| App.ExampleOmission | src/utils/chartUtils.ts:19-22 | the same dataset with the source named `RtOther` gives no cell |

## Left out

- `handleDownload` (src/App.tsx:223-239): DOM lookups, the chart's `getDataURL` and the anchor click are I/O and foreign calls. Its file name uses today's date (src/App.tsx:235); the export is left out.
- The `date-fns` `format` calls on the two date inputs (src/App.tsx:256, 263) are library code that is not part of this model. The picker values are taken as given strings.
- The React components `DateRangePicker` and `RuntimeChart`, the rendering engine, and React's `useState` mechanics are not modelled. The only thing kept from the state hook is the pure update rule of `handleDateRangeChange`.
- Presentational option fields are not modelled: `legend`, `grid`, class names, fonts, `emphasis`, `progressive`, `animation`, and the visual-map layout numbers. `dimension: 2` is kept: it makes the map pick a piece by a cell's value, the lookup `ChartConfig.LegendColorsCells` states.
- Measurements are JavaScript numbers that the template interpolates with `${}`. They are modelled as `Types.Reading`, which holds the text that interpolation produces; float formatting is not modelled.
- `./utils/constants` is not part of this model. Its `FILTERED_SOURCES` is taken to equal the four names at src/App.tsx:35-40 (`Catalog.FilteredSources`).
- `JsBuiltins.ParseInt` models an optional sign followed by the leading decimal digits. It does not model the leading whitespace that `parseInt` skips or its radix detection; every label the axis can hold is `HH:MM`, where neither occurs.
- JsBuiltins.Less: strings are sequences of code points, not of UTF-16 code units. A character above U+FFFF is one element here and two code units in JavaScript, so string order, `.sort()`, `padStart` lengths and `endsWith` can differ from JavaScript on such text. Dates and time labels never contain it.
- Types.RuntimeSource: source values, sample `rtsources` and `Tooltip.JsNumber` are JavaScript numbers modelled as `int`. NaN, fractional values and -0 are not modelled.
- JsBuiltins.ParseInt: the result is exact. JavaScript's `parseInt` rounds values above 2^53 to the nearest double; hour labels never reach that.
- Tooltip.Content: `data[date]` is modelled as a lookup of the dataset's own keys only. In JavaScript an inherited property name such as `constructor`, `toString` or `__proto__` gives a truthy non-array, and `dataPoints.find` then throws a TypeError; the model returns `''` there. The formatter never meets this case, since emitted cells carry stored dates.
- `Object.entries` order: JavaScript puts integer-like keys first in ascending order. Date keys are never integer-like, so the model keeps entry order as given.
- App.DefaultRange: for a dataset without dates the source produces `undefined` endpoints (and `format` would then throw). The model returns `None` there instead of modelling `undefined`.
- Tooltip.Formatter: requires `WellTyped`, which stands for the cast `as [string, string, number]`. An array payload whose first items have other types has no modelled outcome.
- ChartConfig.GetChartOptions: the tooltip formatter is a closure over the dataset. It is not stored in `ChartOptions`; `Tooltip.Formatter` takes the dataset as a parameter instead. The two `interval` callbacks are the predicate `ChartConfig.ShowTick`, proved about in `App`.
- App.GetChartOptions: the component's inline `transformData` (src/App.tsx:51-71) is the same code as the module's `transformData` (src/utils/chartUtils.ts:5-27), except that it reads the range from the component state. It is modelled by calling `Heatmap.TransformData` with that range, not by a second copy of the method.
- App.GetChartOptions: the component takes the dataset from the imported JSON file. The model takes it as a parameter.
