/** The data-bearing parts of `getChartOptions` (src/utils/chartUtils.ts):
    the axis categories, the tick and label visibility callback, the legend
    pieces and the series data. */
module ChartConfig {
  import opened JsBuiltins
  import opened Types
  import opened Catalog
  import opened Heatmap

  /** The axis `interval` callback: a label or tick is shown when the label
      ends in `:00` and the text before its first `:` parses to an even
      number. A label without leading digits parses to NaN, and `NaN % 2`
      is never 0. (JavaScript's `%` truncates, but `h % 2 === 0` holds
      exactly for even `h`, as Dafny's `%` does.) */
  predicate ShowTick(text: string)
  {
    EndsWith(text, ":00") &&
    match ParseInt(SplitFirst(text, ':'))
    case None => false
    case Some(h) => h % 2 == 0
  }

  /** One legend entry of the piecewise visual map; `caption` is its `label`
      property (a reserved word in Dafny). */
  datatype Piece = Piece(value: int, caption: string, color: string)

  function PieceOf(s: RuntimeSource): Piece
  {
    Piece(s.value, s.display, s.color)
  }

  /** `filteredSources.map((source) => ({value, label: display, color}))`. */
  function Pieces(sources: seq<RuntimeSource>): (pieces: seq<Piece>)
    ensures |pieces| == |Displayed(sources)|
    ensures forall k :: 0 <= k < |pieces| ==>
      pieces[k].value == Displayed(sources)[k].value &&
      pieces[k].caption == Displayed(sources)[k].display &&
      pieces[k].color == Displayed(sources)[k].color
  {
    var shown := Displayed(sources);
    seq(|shown|, k requires 0 <= k < |shown| => PieceOf(shown[k]))
  }

  /** The options object, reduced to what carries data: the x categories,
      the y categories, the legend pieces and the heatmap series. The
      `interval` callbacks of both x-axis settings are `ShowTick`; the
      tooltip formatter is `Tooltip.Formatter` over the same dataset. */
  datatype ChartOptions = ChartOptions(
    xAxis: seq<string>,
    yAxis: seq<string>,
    pieces: seq<Piece>,
    series: seq<Cell>)

  /** `getChartOptions(hours, days, data, dateRange)`. */
  function GetChartOptions(hours: seq<string>, days: seq<string>, data: RuntimeData, dateRange: DateRange): (o: ChartOptions)
    ensures o.xAxis == hours && o.yAxis == days
    ensures o.pieces == Pieces(data.sources)
    ensures o.series == Cells(data, dateRange)
  {
    ChartOptions(hours, days, Pieces(data.sources), Cells(data, dateRange))
  }

  /** The legend holds a piece for a source exactly when the source's name
      is allowed. */
  lemma PiecesExact(sources: seq<RuntimeSource>, s: RuntimeSource)
    ensures PieceOf(s) in Pieces(sources) <== s in sources && s.name in FilteredSources
    ensures forall p :: p in Pieces(sources) ==>
      exists src :: src in sources && src.name in FilteredSources && p == PieceOf(src)
  {
    var shown, pieces := Displayed(sources), Pieces(sources);
    if s in sources && s.name in FilteredSources {
      var k :| 0 <= k < |shown| && shown[k] == s;
      assert pieces[k] == PieceOf(s);
    }
    forall p | p in pieces
      ensures exists src :: src in sources && src.name in FilteredSources && p == PieceOf(src)
    {
      var k :| 0 <= k < |pieces| && pieces[k] == p;
      assert shown[k] in shown;
    }
  }

  /** The first piece with a value describes the first displayed source
      with that value, and there is none when no displayed source has it. */
  lemma PiecesFind(sources: seq<RuntimeSource>, v: int)
    ensures
      var found := Find(Pieces(sources), (p: Piece) => p.value == v);
      match MatchSource(Displayed(sources), v)
      case None => found.None?
      case Some(src) => found == Some(PieceOf(src))
  {
    var shown := Displayed(sources);
    var m := MatchSource(shown, v);
    if m.Some? {
      var i :| 0 <= i < |shown| && shown[i] == m.value && shown[i].value == v &&
        forall k :: 0 <= k < i ==> shown[k].value != v;
      PieceAt(sources, v, i);
    } else {
      NoPiece(sources, v);
    }
  }

  /** The first displayed source with value `v` gives the first piece with
      value `v`. */
  lemma PieceAt(sources: seq<RuntimeSource>, v: int, i: nat)
    requires i < |Displayed(sources)| && Displayed(sources)[i].value == v
    requires forall k :: 0 <= k < i ==> Displayed(sources)[k].value != v
    ensures Find(Pieces(sources), (p: Piece) => p.value == v) == Some(PieceOf(Displayed(sources)[i]))
  {
    var pieces := Pieces(sources);
    assert pieces[i] == PieceOf(Displayed(sources)[i]);
    FindAt(pieces, (p: Piece) => p.value == v, i);
  }

  /** Without a displayed source of value `v`, no piece has value `v`. */
  lemma NoPiece(sources: seq<RuntimeSource>, v: int)
    requires MatchSource(Displayed(sources), v).None?
    ensures Find(Pieces(sources), (p: Piece) => p.value == v).None?
  {
    var shown, pieces := Displayed(sources), Pieces(sources);
    forall k | 0 <= k < |pieces| ensures pieces[k].value != v {
      assert shown[k].value != v;
    }
  }

  /** The visual map agrees with the colours the cells carry. The map reads
      a cell's dimension 2 (`dimension: 2`), its value, so for every drawn
      cell the first legend piece with the cell's value has the cell's
      colour. */
  lemma LegendColorsCells(hours: seq<string>, days: seq<string>, data: RuntimeData, r: DateRange, c: Cell)
    requires c in GetChartOptions(hours, days, data, r).series
    ensures
      var found := Find(GetChartOptions(hours, days, data, r).pieces, (p: Piece) => p.value == c.value);
      found.Some? && found.value.color == c.color
  {
    var allowed := Displayed(data.sources);
    var samples := Flatten(SelectDays(data.days, r));
    RangeCellsAreProjection(data.days, r, allowed);
    ProjectSound(samples, allowed, c);
    var t :| 0 <= t < |samples| && CellFor(samples[t], allowed) == [c];
    var src := MatchSource(allowed, samples[t].point.rtsources).value;
    assert c.value == src.value && c.color == src.color;
    assert MatchSource(allowed, c.value) == Some(src);
    PiecesFind(data.sources, c.value);
  }
}
