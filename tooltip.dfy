/** The tooltip shown when a cell is hovered: `generateTooltipContent` of
    `src/utils/chartUtils.ts`, the same code inlined in the formatter of
    `src/App.tsx`, and the formatter's guard on the payload the chart hands
    it. */
module Tooltip {
  import opened Seqs
  import opened JsBuiltins
  import opened Types
  import opened Catalog
  import opened Heatmap

  /** One `<p><b>name:</b> value</p>` line of the tooltip. */
  datatype Line = Line(name: string, value: string)

  function Spaces(n: nat): string
  {
    seq(n, _ => ' ')
  }

  /** A line of the template, indented by `indent` spaces. */
  function LineText(line: Line, indent: nat): string
  {
    Spaces(indent) + "<p><b>" + line.name + ":</b> " + line.value + "</p>\n"
  }

  /** The lines one after the other. */
  function Join(lines: seq<Line>, indent: nat): string
  {
    if lines == [] then ""
    else Join(lines[..|lines| - 1], indent) + LineText(lines[|lines| - 1], indent)
  }

  /** What comes before the first line: the template opens with a newline,
      then `<div>` two spaces deeper than the closing backtick's margin. */
  function Opening(margin: nat): string
  {
    "\n" + Spaces(margin + 2) + "<div>\n"
  }

  /** The whole template literal; `margin` is the indentation of its last
      line (2 in chartUtils.ts, 10 in App.tsx). */
  function Render(lines: seq<Line>, margin: nat): (text: string)
    ensures |text| > 0 && text[0] == '\n'
  {
    Opening(margin) + Join(lines, margin + 4) + Closing(margin)
  }

  /** What comes after the last line: `</div>` and the closing margin. */
  function Closing(margin: nat): string
  {
    Spaces(margin + 2) + "</div>\n" + Spaces(margin)
  }

  /** Margin of the template in `src/utils/chartUtils.ts`. */
  const ModuleMargin: nat := 2
  /** Margin of the template inlined in `src/App.tsx`. */
  const AppMargin: nat := 10

  /** The nine lines of a tooltip, in the order they are shown; voltages
      carry the unit `V`, currents the unit `A`. */
  function TooltipLines(time: string, date: string, source: RuntimeSource, point: DataPoint): (lines: seq<Line>)
    ensures |lines| == 9
  {
    [ Line("Time", time),
      Line("Date", date),
      Line("Source", source.display),
      Line("Description", source.desc),
      Line("Battery Voltage", point.battVolt.text + "V"),
      Line("Battery Current", point.battCurr.text + "A"),
      Line("Rectifier Current", point.rectCurr.text + "A"),
      Line("Load Current", point.loadCurr.text + "A"),
      Line("System Voltage", point.sysVolt.text + "V") ]
  }

  /** `data[date]`: the samples stored under `date`, if the key exists. */
  function DayPoints(data: RuntimeData, date: string): Option<seq<DataPoint>>
  {
    match Find(data.days, (d: DayEntry) => d.date == date)
    case None => None
    case Some(d) => Some(d.points)
  }

  /** `dataPoints.find((p) => p.time === time)`. */
  function MatchTime(points: seq<DataPoint>, time: string): Option<DataPoint>
  {
    Find(points, (p: DataPoint) => p.time == time)
  }

  /** `generateTooltipContent(time, date, sourceValue, data)` rendered with
      the given margin: empty when the date is absent, when no sample of
      that date has that time, or when no source of the full catalog has
      that value; the nine-line block otherwise. */
  function Content(time: string, date: string, sourceValue: int, data: RuntimeData, margin: nat): (r: string)
    ensures r == "" <==>
      DayPoints(data, date).None? ||
      MatchTime(DayPoints(data, date).value, time).None? ||
      MatchSource(data.sources, sourceValue).None?
  {
    match DayPoints(data, date)
    case None => ""
    case Some(points) =>
      var point := MatchTime(points, time);
      var source := MatchSource(data.sources, sourceValue);
      if point.None? || source.None? then ""
      else Render(TooltipLines(time, date, source.value, point.value), margin)
  }

  /** The lookups pick the first sample with that time under the key and
      the first catalog source with that value. */
  lemma TooltipForSample(data: RuntimeData, i: nat, j: nat, k: nat, margin: nat)
    requires DistinctKeys(data)
    requires i < |data.days| && j < |data.days[i].points| && k < |data.sources|
    requires forall j' :: 0 <= j' < j ==> data.days[i].points[j'].time != data.days[i].points[j].time
    requires forall k' :: 0 <= k' < k ==> data.sources[k'].value != data.sources[k].value
    ensures
      var day, point, source := data.days[i], data.days[i].points[j], data.sources[k];
      Content(point.time, day.date, source.value, data, margin) ==
        Render(TooltipLines(point.time, day.date, source, point), margin)
  {
    var day, point, source := data.days[i], data.days[i].points[j], data.sources[k];
    DayLookup(data, i);
    FindAt(day.points, (p: DataPoint) => p.time == point.time, j);
    FindAt(data.sources, (s: RuntimeSource) => s.value == source.value, k);
  }

  /** With distinct keys, looking up the date of entry `i` finds entry `i`. */
  lemma DayLookup(data: RuntimeData, i: nat)
    requires DistinctKeys(data) && i < |data.days|
    ensures DayPoints(data, data.days[i].date) == Some(data.days[i].points)
  {
    var date := data.days[i].date;
    var found := Find(data.days, (d: DayEntry) => d.date == date);
    assert data.days[i].date == date;
    var i' :| 0 <= i' < |data.days| && data.days[i'] == found.value && data.days[i'].date == date;
    assert Keys(data.days)[i'] == Keys(data.days)[i];
  }

  /** Every drawn cell has a tooltip: its date is a key, a sample of that
      date has its time, and its value names a catalog source. */
  lemma TooltipForCell(data: RuntimeData, r: DateRange, c: Cell, margin: nat)
    requires DistinctKeys(data) && c in Cells(data, r)
    ensures Content(c.time, c.date, c.value, data, margin) != ""
  {
    CellSound(data, r, c);
    var i, j :| CellOfSample(data, r, c, i, j);
    DayLookup(data, i);
    assert data.days[i].points[j].time == c.time;
    var src :| src in data.sources && src.name in FilteredSources && src.value == data.days[i].points[j].rtsources &&
      c.value == src.value && c.color == src.color;
    var k :| 0 <= k < |data.sources| && data.sources[k] == src;
    assert data.sources[k].value == c.value;
  }

  // ---------------------------------------------------------------------
  // Where each line sits in the text

  lemma {:induction false} JoinAppend(a: seq<Line>, b: seq<Line>, indent: nat)
    ensures Join(a + b, indent) == Join(a, indent) + Join(b, indent)
    decreases |b|
  {
    if b == [] {
      assert a + b == a;
    } else {
      var n := |b| - 1;
      assert (a + b)[..|a + b| - 1] == a + b[..n];
      JoinAppend(a, b[..n], indent);
      AppendAssoc(Join(a, indent), Join(b[..n], indent), LineText(b[n], indent));
    }
  }

  /** The offset, in the rendered text, of line `k`. */
  function LineOffset(lines: seq<Line>, margin: nat, k: nat): nat
    requires k <= |lines|
  {
    |Opening(margin)| + |Join(lines[..k], margin + 4)|
  }

  /** Line `k` is rendered at `LineOffset(k)`, and line `k + 1` starts right
      after it: the lines appear in the text in their order. */
  lemma RenderedLineAt(lines: seq<Line>, margin: nat, k: nat)
    requires k < |lines|
    ensures
      var text, o, line := Render(lines, margin), LineOffset(lines, margin, k), LineText(lines[k], margin + 4);
      o + |line| <= |text| && text[o..o + |line|] == line &&
      LineOffset(lines, margin, k + 1) == o + |line|
  {
    var indent := margin + 4;
    var before, line, after := lines[..k], lines[k], lines[k + 1..];
    assert lines == before + [line] + after;
    assert lines[..k + 1] == before + [line];
    JoinAppend(before + [line], after, indent);
    assert Join([line], indent) == LineText(line, indent) by {
      assert [line][..0] == [];
    }
    JoinAppend(before, [line], indent);
    var o, jb, lt, ja, c := Opening(margin), Join(before, indent), LineText(line, indent), Join(after, indent), Closing(margin);
    assert Join(lines, indent) == (jb + lt) + ja;
    Regroup(o, jb, lt, ja, c);
    SliceMiddle(o + jb, lt, ja + c);
  }

  // ---------------------------------------------------------------------
  // The formatter

  /** The JavaScript values the chart can put in a payload's `value`. */
  datatype JsValue = JsString(s: string) | JsNumber(n: int) | JsArray(items: seq<JsValue>) | JsOther

  /** The formatter's argument: a falsy value, another non-object, or an
      object whose `value` property holds `value` (`JsOther` when absent). */
  datatype Params = Falsy | Primitive | Object(value: JsValue)

  /** The cast `as [string, string, number]`: an array payload starts with
      a time, a date and a source value. */
  predicate WellTyped(params: Params)
  {
    params.Object? && params.value.JsArray? ==>
      var items := params.value.items;
      |items| >= 3 && items[0].JsString? && items[1].JsString? && items[2].JsNumber?
  }

  /** The `tooltip.formatter` callback: `''` unless the payload is an object
      whose `value` is an array; then the tooltip of its first three items. */
  function Formatter(params: Params, data: RuntimeData, margin: nat): (r: string)
    requires WellTyped(params)
    ensures !(params.Object? && params.value.JsArray?) ==> r == ""
    ensures params.Object? && params.value.JsArray? ==>
      var items := params.value.items;
      r == Content(items[0].s, items[1].s, items[2].n, data, margin)
  {
    if !params.Object? then ""
    else if !params.value.JsArray? then ""
    else
      var items := params.value.items;
      Content(items[0].s, items[1].s, items[2].n, data, margin)
  }

  /** The payload the chart hands back for a cell: the cell's tuple. */
  function CellPayload(c: Cell): Params
  {
    Object(JsArray([JsString(c.time), JsString(c.date), JsNumber(c.value), JsString(c.color)]))
  }

  /** Hovering any drawn cell shows a non-empty tooltip. */
  lemma FormatterOnCell(data: RuntimeData, r: DateRange, c: Cell, margin: nat)
    requires DistinctKeys(data) && c in Cells(data, r)
    ensures WellTyped(CellPayload(c))
    ensures Formatter(CellPayload(c), data, margin) != ""
  {
    TooltipForCell(data, r, c, margin);
  }
}
