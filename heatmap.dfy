/** The heatmap transform of `src/utils/chartUtils.ts`: from the dataset and
    an inclusive date range to the list of cells `[time, date, value, color]`
    the chart draws. */
module Heatmap {
  import opened Seqs
  import opened JsBuiltins
  import opened Types
  import opened Catalog

  /** `date >= start && date <= end` under JavaScript string comparison. */
  predicate InRange(date: string, r: DateRange)
  {
    LessEq(r.start, date) && LessEq(date, r.end)
  }

  /** No date lies in an inverted range. */
  lemma InvertedRangeHasNoDate(date: string, r: DateRange)
    requires Less(r.end, r.start)
    ensures !InRange(date, r)
  {
    if InRange(date, r) {
      LessEqTransitive(r.start, date, r.end);
    }
  }

  /** One heatmap cell, the tuple `[time, date, value, color]`. */
  datatype Cell = Cell(time: string, date: string, value: int, color: string)

  /** A sample together with the date it is stored under. */
  datatype Sample = Sample(date: string, point: DataPoint)

  /** The samples of one day, in stored order. */
  function DaySamples(day: DayEntry): seq<Sample>
  {
    seq(|day.points|, j requires 0 <= j < |day.points| => Sample(day.date, day.points[j]))
  }

  /** The samples of several days: day by day, each day in stored order. */
  function Flatten(days: seq<DayEntry>): seq<Sample>
  {
    if days == [] then [] else Flatten(days[..|days| - 1]) + DaySamples(days[|days| - 1])
  }

  /** `Object.entries(data.data).filter(([date]) => date >= start && date <= end)`. */
  function SelectDays(days: seq<DayEntry>, r: DateRange): seq<DayEntry>
  {
    Filter(days, (d: DayEntry) => InRange(d.date, r))
  }

  /** What one sample contributes: a cell carrying the value and colour of the
      first allowed source with the sample's value, or nothing. */
  function CellFor(s: Sample, allowed: seq<RuntimeSource>): seq<Cell>
  {
    match MatchSource(allowed, s.point.rtsources)
    case None => []
    case Some(src) => [Cell(s.point.time, s.date, src.value, src.color)]
  }

  /** The cells of a run of samples, in sample order. */
  function Project(samples: seq<Sample>, allowed: seq<RuntimeSource>): (cells: seq<Cell>)
    ensures |cells| <= |samples|
  {
    if samples == [] then []
    else Project(samples[..|samples| - 1], allowed) + CellFor(samples[|samples| - 1], allowed)
  }

  /** The cells one day contributes to a range: those of its samples when
      its date lies in the range, none otherwise. */
  function DayCells(day: DayEntry, r: DateRange, allowed: seq<RuntimeSource>): seq<Cell>
  {
    if InRange(day.date, r) then Project(DaySamples(day), allowed) else []
  }

  /** The cells of the days of `days` that lie in `r`, day by day. */
  function RangeCells(days: seq<DayEntry>, r: DateRange, allowed: seq<RuntimeSource>): seq<Cell>
  {
    if days == [] then []
    else RangeCells(days[..|days| - 1], r, allowed) + DayCells(days[|days| - 1], r, allowed)
  }

  /** What `transformData(data, dateRange)` returns. */
  function Cells(data: RuntimeData, r: DateRange): seq<Cell>
  {
    RangeCells(data.days, r, Displayed(data.sources))
  }

  /** `transformData` (src/utils/chartUtils.ts): a loop over the selected
      days; each day's samples are handled by `PushDayCells`. */
  method TransformData(data: RuntimeData, dateRange: DateRange) returns (result: seq<Cell>)
    ensures result == Cells(data, dateRange)
  {
    result := [];
    var sources := Displayed(data.sources);
    var selected := SelectDays(data.days, dateRange);
    var i := 0;
    while i < |selected|
      invariant 0 <= i <= |selected|
      invariant result == Project(Flatten(selected[..i]), sources)
    {
      var day := selected[i];
      result := PushDayCells(result, day, sources);
      TakeSnoc(selected, i);
      FlattenSnoc(selected[..i], day);
      ProjectAppend(Flatten(selected[..i]), DaySamples(day), sources);
      i := i + 1;
    }
    TakeAll(selected);
    RangeCellsAreProjection(data.days, dateRange, sources);
  }

  /** The inner loop of `transformData`: for each sample of one day, push a
      cell when its value names an allowed source. */
  method PushDayCells(acc: seq<Cell>, day: DayEntry, sources: seq<RuntimeSource>) returns (result: seq<Cell>)
    ensures result == acc + Project(DaySamples(day), sources)
  {
    result := acc;
    ghost var samples := DaySamples(day);
    var j := 0;
    while j < |day.points|
      invariant 0 <= j <= |day.points|
      invariant result == acc + Project(samples[..j], sources)
    {
      var point := day.points[j];
      var source := MatchSource(sources, point.rtsources);
      ProjectStep(acc, samples, j, sources);
      assert samples[j] == Sample(day.date, point);
      if source.Some? {
        assert CellFor(samples[j], sources) == [Cell(point.time, day.date, source.value.value, source.value.color)];
        result := result + [Cell(point.time, day.date, source.value.value, source.value.color)];
      } else {
        assert CellFor(samples[j], sources) == [];
      }
      j := j + 1;
    }
    TakeAll(samples);
  }

  // ---------------------------------------------------------------------
  // How the cell list decomposes

  lemma {:induction false} ProjectAppend(a: seq<Sample>, b: seq<Sample>, allowed: seq<RuntimeSource>)
    ensures Project(a + b, allowed) == Project(a, allowed) + Project(b, allowed)
    decreases |b|
  {
    if b == [] {
      assert a + b == a;
    } else {
      var init, last := b[..|b| - 1], b[|b| - 1];
      SplitLast(a, b);
      ProjectAppend(a, init, allowed);
      ProjectSnoc(a + init, last, allowed);
      ProjectSnoc(init, last, allowed);
      AppendAssoc(Project(a, allowed), Project(init, allowed), CellFor(last, allowed));
    }
  }

  /** One more sample appends its cell, if any, to what came before. */
  lemma ProjectStep(acc: seq<Cell>, samples: seq<Sample>, j: nat, allowed: seq<RuntimeSource>)
    requires j < |samples|
    ensures acc + Project(samples[..j + 1], allowed) ==
      (acc + Project(samples[..j], allowed)) + CellFor(samples[j], allowed)
  {
    TakeSnoc(samples, j);
    ProjectSnoc(samples[..j], samples[j], allowed);
    AppendAssoc(acc, Project(samples[..j], allowed), CellFor(samples[j], allowed));
  }

  lemma ProjectSnoc(samples: seq<Sample>, s: Sample, allowed: seq<RuntimeSource>)
    ensures Project(samples + [s], allowed) == Project(samples, allowed) + CellFor(s, allowed)
  {
    assert (samples + [s])[..|samples|] == samples;
  }

  lemma FlattenSnoc(days: seq<DayEntry>, day: DayEntry)
    ensures Flatten(days + [day]) == Flatten(days) + DaySamples(day)
  {
    assert (days + [day])[..|days|] == days;
  }

  /** Day by day or all at once: the cells of the in-range days are the
      cells of the flattened samples of the selected days. */
  lemma {:induction false} RangeCellsAreProjection(days: seq<DayEntry>, r: DateRange, allowed: seq<RuntimeSource>)
    ensures RangeCells(days, r, allowed) == Project(Flatten(SelectDays(days, r)), allowed)
  {
    if days != [] {
      var init, last := days[..|days| - 1], days[|days| - 1];
      RangeCellsAreProjection(init, r, allowed);
      var sel := SelectDays(init, r);
      if InRange(last.date, r) {
        assert SelectDays(days, r) == sel + [last];
        assert (sel + [last])[..|sel|] == sel;
        assert Flatten(sel + [last]) == Flatten(sel) + DaySamples(last);
        ProjectAppend(Flatten(sel), DaySamples(last), allowed);
      } else {
        assert SelectDays(days, r) == sel;
      }
    }
  }

  lemma RangeCellsSnoc(days: seq<DayEntry>, day: DayEntry, r: DateRange, allowed: seq<RuntimeSource>)
    ensures RangeCells(days + [day], r, allowed) == RangeCells(days, r, allowed) + DayCells(day, r, allowed)
  {
    assert (days + [day])[..|days|] == days;
  }

  lemma {:induction false} RangeCellsAppend(a: seq<DayEntry>, b: seq<DayEntry>, r: DateRange, allowed: seq<RuntimeSource>)
    ensures RangeCells(a + b, r, allowed) == RangeCells(a, r, allowed) + RangeCells(b, r, allowed)
    decreases |b|
  {
    if b == [] {
      assert a + b == a;
    } else {
      var n := |b| - 1;
      SplitLast(a, b);
      RangeCellsSnoc(a + b[..n], b[n], r, allowed);
      RangeCellsSnoc(b[..n], b[n], r, allowed);
      RangeCellsAppend(a, b[..n], r, allowed);
      AppendAssoc(RangeCells(a, r, allowed), RangeCells(b[..n], r, allowed), DayCells(b[n], r, allowed));
    }
  }

  lemma RangeCellsSingle(day: DayEntry, r: DateRange, allowed: seq<RuntimeSource>)
    ensures RangeCells([day], r, allowed) == DayCells(day, r, allowed)
  {
    assert [day][..0] == [];
  }

  // ---------------------------------------------------------------------
  // Where each cell comes from

  /** The positions, among `samples`, of the samples that produce a cell. */
  function Origins(samples: seq<Sample>, allowed: seq<RuntimeSource>): seq<nat>
  {
    if samples == [] then []
    else
      var n := |samples| - 1;
      Origins(samples[..n], allowed) + (if CellFor(samples[n], allowed) == [] then [] else [n])
  }

  /** Cell k is the cell of sample `Origins[k]`. */
  lemma {:induction false} OriginsMatchCells(samples: seq<Sample>, allowed: seq<RuntimeSource>)
    ensures |Origins(samples, allowed)| == |Project(samples, allowed)|
    ensures forall k :: 0 <= k < |Origins(samples, allowed)| ==>
      Origins(samples, allowed)[k] < |samples| &&
      CellFor(samples[Origins(samples, allowed)[k]], allowed) == [Project(samples, allowed)[k]]
  {
    if samples != [] {
      var n := |samples| - 1;
      var init := samples[..n];
      OriginsMatchCells(init, allowed);
      var o, o' := Origins(samples, allowed), Origins(init, allowed);
      var c, c' := Project(samples, allowed), Project(init, allowed);
      assert c == c' + CellFor(samples[n], allowed);
      forall k | 0 <= k < |o'| ensures o[k] < |samples| && CellFor(samples[o[k]], allowed) == [c[k]] {
        assert o[k] == o'[k] && c[k] == c'[k];
        assert samples[o'[k]] == init[o'[k]];
      }
    }
  }

  /** Origins are strictly increasing, so cells keep the samples' order. */
  lemma {:induction false} OriginsIncreasing(samples: seq<Sample>, allowed: seq<RuntimeSource>)
    ensures forall k :: 0 <= k < |Origins(samples, allowed)| ==> Origins(samples, allowed)[k] < |samples|
    ensures forall k, l :: 0 <= k < l < |Origins(samples, allowed)| ==>
      Origins(samples, allowed)[k] < Origins(samples, allowed)[l]
  {
    if samples != [] {
      var n := |samples| - 1;
      OriginsIncreasing(samples[..n], allowed);
    }
  }

  /** A sample is an origin exactly when it produces a cell. */
  lemma {:induction false} OriginsExact(samples: seq<Sample>, allowed: seq<RuntimeSource>)
    ensures forall t :: 0 <= t < |samples| ==>
      (t in Origins(samples, allowed) <==> CellFor(samples[t], allowed) != [])
  {
    if samples != [] {
      var n := |samples| - 1;
      var init := samples[..n];
      OriginsExact(init, allowed);
      OriginsIncreasing(init, allowed);
      var o, o' := Origins(samples, allowed), Origins(init, allowed);
      assert o == o' + (if CellFor(samples[n], allowed) == [] then [] else [n]);
      assert n !in o';
      forall t | 0 <= t < |samples| ensures t in o <==> CellFor(samples[t], allowed) != [] {
        if t < n {
          assert samples[t] == init[t];
        }
      }
    }
  }

  /** The cell list is exactly the subsequence of the samples that produce a
      cell, in sample order: cell k is the cell of sample `Origins[k]`, the
      origins increase, and a sample is an origin iff it produces a cell. */
  lemma ProjectOrigins(samples: seq<Sample>, allowed: seq<RuntimeSource>)
    ensures var cells, o := Project(samples, allowed), Origins(samples, allowed);
      |o| == |cells| &&
      (forall k :: 0 <= k < |o| ==> o[k] < |samples| && CellFor(samples[o[k]], allowed) == [cells[k]]) &&
      (forall k, l :: 0 <= k < l < |o| ==> o[k] < o[l]) &&
      (forall t :: 0 <= t < |samples| ==> (t in o <==> CellFor(samples[t], allowed) != []))
  {
    OriginsMatchCells(samples, allowed);
    OriginsIncreasing(samples, allowed);
    OriginsExact(samples, allowed);
  }

  /** Every sample of the flattened days is one stored sample of one day. */
  lemma {:induction false} FlattenSound(days: seq<DayEntry>, t: nat)
    requires t < |Flatten(days)|
    ensures
      exists i, j ::
        0 <= i < |days| && 0 <= j < |days[i].points| &&
        Flatten(days)[t] == Sample(days[i].date, days[i].points[j])
  {
    var n := |days| - 1;
    var prev := Flatten(days[..n]);
    if t < |prev| {
      FlattenSound(days[..n], t);
      var i, j :| 0 <= i < n && 0 <= j < |days[..n][i].points| &&
        prev[t] == Sample(days[..n][i].date, days[..n][i].points[j]);
      assert days[..n][i] == days[i];
    } else {
      var j := t - |prev|;
      assert Flatten(days)[t] == Sample(days[n].date, days[n].points[j]);
    }
  }

  /** Every stored sample of every day is among the flattened samples. */
  lemma {:induction false} FlattenComplete(days: seq<DayEntry>, i: nat, j: nat)
    requires i < |days| && j < |days[i].points|
    ensures Sample(days[i].date, days[i].points[j]) in Flatten(days)
  {
    var n := |days| - 1;
    if i < n {
      FlattenComplete(days[..n], i, j);
      assert days[..n][i] == days[i];
    } else {
      assert Flatten(days)[|Flatten(days[..n])| + j] == Sample(days[i].date, days[i].points[j]);
    }
  }

  // ---------------------------------------------------------------------
  // Properties of the transform

  /** A cell of a run of samples is the cell of one of them. */
  lemma {:induction false} ProjectSound(samples: seq<Sample>, allowed: seq<RuntimeSource>, c: Cell)
    requires c in Project(samples, allowed)
    ensures exists t :: 0 <= t < |samples| && CellFor(samples[t], allowed) == [c]
  {
    var n := |samples| - 1;
    var init := samples[..n];
    if c in Project(init, allowed) {
      ProjectSound(init, allowed, c);
      var t :| 0 <= t < |init| && CellFor(init[t], allowed) == [c];
      assert samples[t] == init[t];
    } else {
      assert CellFor(samples[n], allowed) == [c];
    }
  }

  /** The cell of every sample that has one is in the cell list. */
  lemma {:induction false} ProjectComplete(samples: seq<Sample>, allowed: seq<RuntimeSource>, t: nat)
    requires t < |samples| && CellFor(samples[t], allowed) != []
    ensures CellFor(samples[t], allowed)[0] in Project(samples, allowed)
  {
    var n := |samples| - 1;
    var init := samples[..n];
    SplitLast([], samples);
    ProjectSnoc(init, samples[n], allowed);
    if t < n {
      ProjectComplete(init, allowed, t);
      assert init[t] == samples[t];
    }
  }

  /** `c` carries the value and colour of a catalog source whose name is
      allowed and whose value is `v`. */
  ghost predicate CarriesSource(sources: seq<RuntimeSource>, v: int, c: Cell)
  {
    exists src :: src in sources && src.name in FilteredSources && src.value == v &&
      c.value == src.value && c.color == src.color
  }

  /** `c` is the cell of sample `j` of stored day `i`, which lies in `r`. */
  ghost predicate CellOfSample(data: RuntimeData, r: DateRange, c: Cell, i: int, j: int)
  {
    0 <= i < |data.days| && 0 <= j < |data.days[i].points| &&
    InRange(data.days[i].date, r) &&
    c.date == data.days[i].date && c.time == data.days[i].points[j].time &&
    CarriesSource(data.sources, data.days[i].points[j].rtsources, c)
  }

  /** The one cell a sample can yield: its own time and date, and the value
      and colour of an allowed source with the sample's value. */
  lemma CellForSound(s: Sample, sources: seq<RuntimeSource>, c: Cell)
    requires CellFor(s, Displayed(sources)) == [c]
    ensures c.time == s.point.time && c.date == s.date
    ensures CarriesSource(sources, s.point.rtsources, c)
  {
    var src := MatchSource(Displayed(sources), s.point.rtsources).value;
    assert src in Displayed(sources);
  }

  /** Every sample of the selected days is a stored sample of an in-range
      day. */
  lemma SelectedSampleStored(days: seq<DayEntry>, r: DateRange, t: nat)
    requires t < |Flatten(SelectDays(days, r))|
    ensures
      exists i, j ::
        0 <= i < |days| && 0 <= j < |days[i].points| && InRange(days[i].date, r) &&
        Flatten(SelectDays(days, r))[t] == Sample(days[i].date, days[i].points[j])
  {
    var selected := SelectDays(days, r);
    FlattenSound(selected, t);
    var i', j :| 0 <= i' < |selected| && 0 <= j < |selected[i'].points| &&
      Flatten(selected)[t] == Sample(selected[i'].date, selected[i'].points[j]);
    assert selected[i'] in selected;
    var i :| 0 <= i < |days| && days[i] == selected[i'];
  }

  /** Every cell comes from a stored sample of an in-range date: same date,
      same time, and the value and colour of a catalog source whose name is
      allowed and whose value is the sample's `rtsources`. */
  lemma CellSound(data: RuntimeData, r: DateRange, c: Cell)
    requires c in Cells(data, r)
    ensures exists i, j :: CellOfSample(data, r, c, i, j)
  {
    var allowed := Displayed(data.sources);
    var samples := Flatten(SelectDays(data.days, r));
    RangeCellsAreProjection(data.days, r, allowed);
    ProjectSound(samples, allowed, c);
    var t :| 0 <= t < |samples| && CellFor(samples[t], allowed) == [c];
    CellForSound(samples[t], data.sources, c);
    SelectedSampleStored(data.days, r, t);
    var i, j :| 0 <= i < |data.days| && 0 <= j < |data.days[i].points| && InRange(data.days[i].date, r) &&
      samples[t] == Sample(data.days[i].date, data.days[i].points[j]);
    assert CellOfSample(data, r, c, i, j);
  }

  /** Every stored sample of an in-range date whose value names an allowed
      source yields its cell. */
  lemma CellComplete(data: RuntimeData, r: DateRange, i: nat, j: nat)
    requires i < |data.days| && j < |data.days[i].points|
    requires InRange(data.days[i].date, r)
    requires MatchSource(Displayed(data.sources), data.days[i].points[j].rtsources).Some?
    ensures var p, src := data.days[i].points[j], MatchSource(Displayed(data.sources), data.days[i].points[j].rtsources).value;
      Cell(p.time, data.days[i].date, src.value, src.color) in Cells(data, r)
  {
    var allowed := Displayed(data.sources);
    var selected := SelectDays(data.days, r);
    var samples := Flatten(selected);
    RangeCellsAreProjection(data.days, r, allowed);
    assert data.days[i] in data.days;
    assert data.days[i] in selected;
    var i' :| 0 <= i' < |selected| && selected[i'] == data.days[i];
    FlattenComplete(selected, i', j);
    var t :| 0 <= t < |samples| && samples[t] == Sample(data.days[i].date, data.days[i].points[j]);
    ProjectComplete(samples, allowed, t);
  }

  /** The cells of an inverted range: none. */
  lemma InvertedRangeIsEmpty(data: RuntimeData, r: DateRange)
    requires Less(r.end, r.start)
    ensures Cells(data, r) == []
  {
    InvertedRangeCells(data.days, r, Displayed(data.sources));
  }

  lemma {:induction false} InvertedRangeCells(days: seq<DayEntry>, r: DateRange, allowed: seq<RuntimeSource>)
    requires Less(r.end, r.start)
    ensures RangeCells(days, r, allowed) == []
  {
    if days != [] {
      InvertedRangeCells(days[..|days| - 1], r, allowed);
      InvertedRangeHasNoDate(days[|days| - 1].date, r);
    }
  }

  /** Widening the range never removes a cell: the cells of a sub-range form
      a subsequence of the cells of the wider range. */
  lemma RangeWidening(data: RuntimeData, narrow: DateRange, wide: DateRange)
    requires LessEq(wide.start, narrow.start) && LessEq(narrow.end, wide.end)
    ensures IsSubseq(Cells(data, narrow), Cells(data, wide))
  {
    RangeCellsWidening(data.days, narrow, wide, Displayed(data.sources));
  }

  lemma {:induction false} RangeCellsWidening(days: seq<DayEntry>, narrow: DateRange, wide: DateRange, allowed: seq<RuntimeSource>)
    requires LessEq(wide.start, narrow.start) && LessEq(narrow.end, wide.end)
    ensures IsSubseq(RangeCells(days, narrow, allowed), RangeCells(days, wide, allowed))
  {
    if days != [] {
      var init, last := days[..|days| - 1], days[|days| - 1];
      RangeCellsWidening(init, narrow, wide, allowed);
      var a, b := RangeCells(init, narrow, allowed), RangeCells(init, wide, allowed);
      var block := Project(DaySamples(last), allowed);
      if InRange(last.date, narrow) {
        LessEqTransitive(wide.start, narrow.start, last.date);
        LessEqTransitive(last.date, narrow.end, wide.end);
        SubseqRefl(block);
        SubseqConcat(a, b, block, block);
      } else if InRange(last.date, wide) {
        assert a + [] == a;
        SubseqExtend(a, b, block);
      } else {
        assert a + [] == a && b + [] == b;
      }
    }
  }

  /** There are never more cells than in-range samples. */
  lemma CellCountBound(data: RuntimeData, r: DateRange)
    ensures |Cells(data, r)| <= |Flatten(SelectDays(data.days, r))|
  {
    RangeCellsAreProjection(data.days, r, Displayed(data.sources));
  }

  /** The dataset with sample `j` of day `i` deleted. */
  function RemoveSample(data: RuntimeData, i: nat, j: nat): (d: RuntimeData)
    requires i < |data.days| && j < |data.days[i].points|
    ensures d.sources == data.sources && |d.days| == |data.days|
    ensures d.days[i].date == data.days[i].date
    ensures d.days[i].points == data.days[i].points[..j] + data.days[i].points[j + 1..]
    ensures forall k :: 0 <= k < |data.days| && k != i ==> d.days[k] == data.days[k]
  {
    var day := data.days[i];
    data.(days := data.days[i := day.(points := day.points[..j] + day.points[j + 1..])])
  }

  /** Removing a sample whose value names no allowed source leaves the cell
      list unchanged, whatever the range: such a sample is silently dropped. */
  lemma UnmatchedSampleOmitted(data: RuntimeData, r: DateRange, i: nat, j: nat)
    requires i < |data.days| && j < |data.days[i].points|
    requires forall k :: 0 <= k < |data.sources| && data.sources[k].value == data.days[i].points[j].rtsources ==>
      data.sources[k].name !in FilteredSources
    ensures Cells(RemoveSample(data, i, j), r) == Cells(data, r)
  {
    var allowed := Displayed(data.sources);
    var day := data.days[i];
    NoDisplayedMatch(data.sources, day.points[j].rtsources);
    var day' := RemoveSample(data, i, j).days[i];
    DayWithoutUnmatched(day, j, allowed, r);
    var before, after := data.days[..i], data.days[i + 1..];
    assert data.days == before + [day] + after;
    assert RemoveSample(data, i, j).days == before + [day'] + after;
    RangeCellsReplace(before, day, day', after, r, allowed);
  }

  /** Replacing one day by a day with the same cells keeps the cell list. */
  lemma RangeCellsReplace(before: seq<DayEntry>, day: DayEntry, day': DayEntry, after: seq<DayEntry>,
                          r: DateRange, allowed: seq<RuntimeSource>)
    requires DayCells(day', r, allowed) == DayCells(day, r, allowed)
    ensures RangeCells(before + [day'] + after, r, allowed) == RangeCells(before + [day] + after, r, allowed)
  {
    RangeCellsAppend(before + [day], after, r, allowed);
    RangeCellsAppend(before + [day'], after, r, allowed);
    RangeCellsSnoc(before, day, r, allowed);
    RangeCellsSnoc(before, day', r, allowed);
  }

  /** Deleting one sample that yields no cell leaves a day's cells unchanged. */
  lemma DayWithoutUnmatched(day: DayEntry, j: nat, allowed: seq<RuntimeSource>, r: DateRange)
    requires j < |day.points| && MatchSource(allowed, day.points[j].rtsources).None?
    ensures DayCells(day.(points := day.points[..j] + day.points[j + 1..]), r, allowed) ==
      DayCells(day, r, allowed)
  {
    var ds := DaySamples(day);
    DaySamplesRemove(day, j);
    ProjectDrop(ds, j, allowed);
  }

  /** The samples of a day with point `j` deleted are the day's samples
      with sample `j` deleted. */
  lemma DaySamplesRemove(day: DayEntry, j: nat)
    requires j < |day.points|
    ensures DaySamples(day.(points := day.points[..j] + day.points[j + 1..])) ==
      DaySamples(day)[..j] + DaySamples(day)[j + 1..]
  {
    var ds := DaySamples(day);
    var ds' := DaySamples(day.(points := day.points[..j] + day.points[j + 1..]));
    forall k | 0 <= k < |ds'| ensures ds'[k] == (ds[..j] + ds[j + 1..])[k] {
      if k < j {
        assert ds'[k] == ds[k];
      } else {
        assert ds'[k] == ds[k + 1];
      }
    }
  }

  /** Deleting a sample that yields no cell does not change the cells. */
  lemma ProjectDrop(samples: seq<Sample>, j: nat, allowed: seq<RuntimeSource>)
    requires j < |samples| && CellFor(samples[j], allowed) == []
    ensures Project(samples[..j] + samples[j + 1..], allowed) == Project(samples, allowed)
  {
    var front, s, back := samples[..j], samples[j], samples[j + 1..];
    SplitAt(samples, j);
    ProjectSnoc(front, s, allowed);
    assert Project(front + [s], allowed) == Project(front, allowed);
    ProjectAppend(front + [s], back, allowed);
    ProjectAppend(front, back, allowed);
  }
}
