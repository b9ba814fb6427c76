/** The logic of the `App` component (src/App.tsx): the 288 time labels of
    the x axis, the sorted in-range dates of the y axis, the default date
    range and its one-endpoint edits, and the component's own copies of
    `transformData` and `getChartOptions`. */
module App {
  import opened Seqs
  import opened JsBuiltins
  import opened Types
  import opened Catalog
  import opened Heatmap
  import opened ChartConfig

  // ---------------------------------------------------------------------
  // Time labels

  /** `String(n).padStart(2, '0')`. */
  function Pad2(n: nat): string
  {
    PadStart(Decimal(n), 2, '0')
  }

  /** The two digits of a number below 100, tens first. */
  function TwoDigits(n: nat): string
    requires n < 100
  {
    [DigitChar(n / 10), DigitChar(n % 10)]
  }

  /** Below 100, `pad2(n)` is the two digits of `n`. */
  lemma Pad2Digits(n: nat)
    requires n < 100
    ensures Pad2(n) == TwoDigits(n)
  {
    if n < 10 {
      assert Decimal(n) == [DigitChar(n)];
      assert DigitChar(0) == '0';
    } else {
      assert Decimal(n / 10) == [DigitChar(n / 10)];
    }
  }

  /** The label `HH:MM` of hour `h` and minute `m`. */
  function HourLabel(h: nat, m: nat): string
  {
    Pad2(h) + ":" + Pad2(m)
  }

  /** The x-axis categories: label `k` is minute `5 * (k % 12)` of hour
      `k / 12`. */
  function TimeAxis(): (labels: seq<string>)
    ensures |labels| == 288
  {
    seq(288, k requires 0 <= k < 288 => HourLabel(k / 12, k % 12 * 5))
  }

  /** Grid point (`i`, `j`) of the loops has index `12 * i + j / 5`. */
  lemma GridIndex(i: nat, j: nat)
    requires i < 24 && j < 60 && j % 5 == 0
    ensures 12 * i + j / 5 < 288
    ensures (12 * i + j / 5) / 12 == i && (12 * i + j / 5) % 12 * 5 == j
  {
    var q := j / 5;
    assert j == 5 * q;
    assert q < 12;
  }

  /** Label `12 * i + m` is minute `5 * m` of hour `i`. */
  lemma LabelAt(i: nat, m: nat)
    requires i < 24 && m < 12
    ensures 12 * i + m < |TimeAxis()|
    ensures TimeAxis()[12 * i + m] == HourLabel(i, 5 * m)
  {
    IndexParts(i, m);
  }

  /** Index `12 * i + m` splits back into `i` and `m`. */
  lemma IndexParts(i: nat, m: nat)
    requires m < 12
    ensures (12 * i + m) / 12 == i && (12 * i + m) % 12 == m
  {
  }

  /** The `hours` array of `getChartOptions` (src/App.tsx): hours 0 to 23,
      minutes 0 to 55 in steps of 5, each pushed as `HH:MM`. */
  method GenerateHours() returns (hours: seq<string>)
    ensures hours == TimeAxis()
  {
    hours := [];
    var i := 0;
    while i < 24
      invariant 0 <= i <= 24
      invariant hours == TimeAxis()[..12 * i]
    {
      var j := 0;
      ghost var m := 0;
      while j < 60
        invariant 0 <= m <= 12 && j == 5 * m
        invariant hours == TimeAxis()[..12 * i + m]
      {
        LabelAt(i, m);
        TakeSnoc(TimeAxis(), 12 * i + m);
        hours := hours + [HourLabel(i, j)];
        j := j + 5;
        m := m + 1;
      }
      i := i + 1;
    }
  }

  /** Entry `12 * i + j / 5` is `pad2(i) + ":" + pad2(j)`. */
  lemma LabelAtGridPoint(i: nat, j: nat)
    requires i < 24 && j < 60 && j % 5 == 0
    ensures 12 * i + j / 5 < |TimeAxis()|
    ensures TimeAxis()[12 * i + j / 5] == Pad2(i) + ":" + Pad2(j)
  {
    GridIndex(i, j);
  }

  /** Hour and minute of label `k`. */
  lemma LabelIndex(k: nat)
    requires k < 288
    ensures k / 12 < 24 && k % 12 * 5 < 60
    ensures TimeAxis()[k] == HourLabel(k / 12, k % 12 * 5)
  {
  }

  /** A label is two digits, a colon and two digits. */
  lemma HourLabelShape(h: nat, m: nat)
    requires h < 100 && m < 100
    ensures HourLabel(h, m) == [DigitChar(h / 10), DigitChar(h % 10), ':', DigitChar(m / 10), DigitChar(m % 10)]
  {
    Pad2Digits(h);
    Pad2Digits(m);
  }

  lemma {:induction false} LessSamePrefix(p: string, s: string, t: string)
    requires Less(s, t)
    ensures Less(p + s, p + t)
  {
    if p != [] {
      assert (p + s)[0] == p[0] == (p + t)[0];
      assert (p + s)[1..] == p[1..] + s;
      assert (p + t)[1..] == p[1..] + t;
      LessSamePrefix(p[1..], s, t);
    } else {
      assert p + s == s && p + t == t;
    }
  }

  lemma {:induction false} LessEqualLength(p: string, q: string, s: string, t: string)
    requires Less(p, q) && |p| == |q|
    ensures Less(p + s, q + t)
  {
    assert (p + s)[0] == p[0] && (q + t)[0] == q[0];
    if p[0] == q[0] {
      assert (p + s)[1..] == p[1..] + s;
      assert (q + t)[1..] == q[1..] + t;
      LessEqualLength(p[1..], q[1..], s, t);
    }
  }

  /** Two-character texts compare by their first character, then by their
      second. */
  lemma LessPair(a1: char, a2: char, b1: char, b2: char)
    requires a1 < b1 || (a1 == b1 && a2 < b2)
    ensures Less([a1, a2], [b1, b2])
  {
    if a1 == b1 {
      assert [a1, a2][1..] == [a2] && [b1, b2][1..] == [b2];
    }
  }

  /** Below 100, a smaller number has a smaller tens digit, or the same
      tens digit and a smaller units digit. */
  lemma DigitOrder(a: nat, b: nat)
    requires a < b < 100
    ensures a / 10 < b / 10 || (a / 10 == b / 10 && a % 10 < b % 10)
  {
  }

  /** The digits of a smaller two-digit number come first. */
  lemma TwoDigitsLess(a: nat, b: nat)
    requires a < b < 100
    ensures Less(TwoDigits(a), TwoDigits(b))
  {
    DigitOrder(a, b);
    LessPair(DigitChar(a / 10), DigitChar(a % 10), DigitChar(b / 10), DigitChar(b % 10));
  }

  /** Zero-padded two-digit numbers compare as the numbers do. */
  lemma Pad2Less(a: nat, b: nat)
    requires a < b < 100
    ensures Less(Pad2(a), Pad2(b))
  {
    Pad2Digits(a);
    Pad2Digits(b);
    TwoDigitsLess(a, b);
  }

  /** Labels compare as their (hour, minute) pairs do. */
  lemma HourLabelLess(h1: nat, m1: nat, h2: nat, m2: nat)
    requires h1 < 100 && m1 < 100 && h2 < 100 && m2 < 100
    requires h1 < h2 || (h1 == h2 && m1 < m2)
    ensures Less(HourLabel(h1, m1), HourLabel(h2, m2))
  {
    assert HourLabel(h1, m1) == Pad2(h1) + (":" + Pad2(m1));
    assert HourLabel(h2, m2) == Pad2(h2) + (":" + Pad2(m2));
    Pad2Digits(h1);
    Pad2Digits(h2);
    if h1 < h2 {
      Pad2Less(h1, h2);
      LessEqualLength(Pad2(h1), Pad2(h2), ":" + Pad2(m1), ":" + Pad2(m2));
    } else {
      Pad2Less(m1, m2);
      LessSamePrefix(":", Pad2(m1), Pad2(m2));
      LessSamePrefix(Pad2(h1), ":" + Pad2(m1), ":" + Pad2(m2));
    }
  }

  /** A later index has a later (hour, minute) pair. */
  lemma IndexOrder(a: nat, b: nat)
    requires a < b < 288
    ensures a / 12 < b / 12 || (a / 12 == b / 12 && a % 12 * 5 < b % 12 * 5)
  {
  }

  /** The labels are strictly increasing under string order, hence
      distinct. */
  lemma TimeAxisIncreasing()
    ensures forall a, b :: 0 <= a < b < |TimeAxis()| ==> Less(TimeAxis()[a], TimeAxis()[b])
    ensures Distinct(TimeAxis())
  {
    var labels := TimeAxis();
    forall a, b | 0 <= a < b < 288 ensures Less(labels[a], labels[b]) {
      LabelIndex(a);
      LabelIndex(b);
      IndexOrder(a, b);
      HourLabelLess(a / 12, a % 12 * 5, b / 12, b % 12 * 5);
    }
    forall a, b | 0 <= a < b < 288 ensures labels[a] != labels[b] {
      LessIrreflexive(labels[a]);
    }
  }

  // ---------------------------------------------------------------------
  // Visible ticks

  /** A five-character clock text ends in `:00` exactly when its last two
      characters are zeros. */
  lemma ClockEndsWith(a: char, b: char, c: char, d: char)
    ensures EndsWith([a, b, ':', c, d], ":00") <==> c == '0' && d == '0'
  {
    var text := [a, b, ':', c, d];
    assert text[2..] == [':', c, d];
  }

  /** The text before the first colon of a clock text is its first two
      characters. */
  lemma ClockHead(a: char, b: char, c: char, d: char)
    requires a != ':' && b != ':'
    ensures SplitFirst([a, b, ':', c, d], ':') == [a, b]
  {
    var text := [a, b, ':', c, d];
    SplitFirstAt(text, ':', 2);
    assert text[..2] == [a, b];
  }

  /** Both digits of a two-digit number are zero exactly for 0. */
  lemma DigitsZero(m: nat)
    requires m < 100
    ensures DigitChar(m / 10) == '0' && DigitChar(m % 10) == '0' <==> m == 0
  {
    assert DigitChar(m / 10) == '0' <==> m / 10 == 0;
    assert DigitChar(m % 10) == '0' <==> m % 10 == 0;
  }

  /** A label ends in `:00` exactly at minute 0. */
  lemma LabelEndsWith(h: nat, m: nat)
    requires h < 100 && m < 100
    ensures EndsWith(HourLabel(h, m), ":00") <==> m == 0
  {
    HourLabelShape(h, m);
    ClockEndsWith(DigitChar(h / 10), DigitChar(h % 10), DigitChar(m / 10), DigitChar(m % 10));
    DigitsZero(m);
  }

  /** The text before the first colon of a label is its hour. */
  lemma LabelHead(h: nat, m: nat)
    requires h < 100 && m < 100
    ensures SplitFirst(HourLabel(h, m), ':') == Pad2(h)
  {
    HourLabelShape(h, m);
    Pad2Digits(h);
    ClockHead(DigitChar(h / 10), DigitChar(h % 10), DigitChar(m / 10), DigitChar(m % 10));
  }

  /** A label on the grid is shown exactly at minute 00 of an even hour. */
  lemma TickAtHourLabel(h: nat, m: nat)
    requires h < 24 && m < 60
    ensures ShowTick(HourLabel(h, m)) <==> m == 0 && h % 2 == 0
  {
    LabelEndsWith(h, m);
    LabelHead(h, m);
    ParseIntPadded(h, 2);
  }

  lemma TickIndex(k: nat)
    requires k < 288
    ensures (k % 12 * 5 == 0 && (k / 12) % 2 == 0) <==> k % 24 == 0
  {
  }

  /** Label `k` is shown exactly when `k` is a multiple of 24. */
  lemma TickAtLabel(k: nat)
    requires k < 288
    ensures ShowTick(TimeAxis()[k]) <==> k % 24 == 0
  {
    LabelIndex(k);
    TickAtHourLabel(k / 12, k % 12 * 5);
    TickIndex(k);
  }

  /** The first `c` shown labels: minute 00 of hours 0, 2, 4, ... */
  function Ticks(c: nat): (ticks: seq<string>)
    ensures |ticks| == c
  {
    seq(c, n requires 0 <= n < c => HourLabel(2 * n, 0))
  }

  /** Within the block of 24 starting at `24 * c`, only the first position
      is a multiple of 24. */
  lemma BlockMultiples(c: nat, i: nat)
    requires i < 24
    ensures (24 * c + i) % 24 == 0 <==> i == 0
  {
  }

  /** When block `n` of 24 elements keeps exactly `ys[n]`, the first `c`
      blocks keep `ys[..c]`. */
  lemma {:induction false} FilterEvery24<T(!new)>(xs: seq<T>, p: T -> bool, ys: seq<T>, c: nat)
    requires 24 * c <= |xs| && c <= |ys|
    requires forall n :: 0 <= n < c ==> Filter(xs[24 * n..24 * n + 24], p) == [ys[n]]
    ensures Filter(xs[..24 * c], p) == ys[..c]
  {
    if c > 0 {
      var lo, hi := 24 * (c - 1), 24 * c;
      assert hi == lo + 24;
      FilterEvery24(xs, p, ys, c - 1);
      TakeConcat(xs, lo, hi);
      FilterAppend(xs[..lo], xs[lo..hi], p);
      assert Filter(xs[lo..hi], p) == [ys[c - 1]];
      TakeSnoc(ys, c - 1);
    }
  }

  /** Block `c` of 24 keeps only its first element. */
  lemma BlockFilter<T(!new)>(xs: seq<T>, p: T -> bool, c: nat)
    requires 24 * c + 24 <= |xs|
    requires forall i :: 0 <= i < |xs| ==> (p(xs[i]) <==> i % 24 == 0)
    ensures Filter(xs[24 * c..24 * c + 24], p) == [xs[24 * c]]
  {
    var block := xs[24 * c..24 * c + 24];
    forall i | 0 <= i < 24 ensures p(block[i]) <==> i == 0 {
      BlockMultiples(c, i);
    }
    FilterFirstOnly(block, p);
  }

  /** The shown labels written out digit by digit. */
  function EvenHourDigits(): seq<string>
  {
    seq(12, n requires 0 <= n < 12 => [DigitChar(2 * n / 10), DigitChar(2 * n % 10), ':', '0', '0'])
  }

  lemma TicksDigits()
    ensures Ticks(12) == EvenHourDigits()
  {
    forall n | 0 <= n < 12 ensures Ticks(12)[n] == EvenHourDigits()[n] {
      HourLabelShape(2 * n, 0);
    }
  }

  lemma EvenHourLiterals()
    ensures EvenHourDigits() ==
      ["00:00", "02:00", "04:00", "06:00", "08:00", "10:00",
       "12:00", "14:00", "16:00", "18:00", "20:00", "22:00"]
  {
    var e := EvenHourDigits();
    assert e[0] == "00:00";
    assert e[1] == "02:00";
    assert e[2] == "04:00";
    assert e[3] == "06:00";
    assert e[4] == "08:00";
    assert e[5] == "10:00";
    assert e[6] == "12:00";
    assert e[7] == "14:00";
    assert e[8] == "16:00";
    assert e[9] == "18:00";
    assert e[10] == "20:00";
    assert e[11] == "22:00";
  }

  /** Label `i` is shown exactly at the multiples of 24. */
  lemma ShownPositions()
    ensures forall i :: 0 <= i < |TimeAxis()| ==> (ShowTick(TimeAxis()[i]) <==> i % 24 == 0)
  {
    forall i | 0 <= i < |TimeAxis()| ensures ShowTick(TimeAxis()[i]) <==> i % 24 == 0 {
      TickAtLabel(i);
    }
  }

  /** Tick `n` is label `24 * n`. */
  lemma TickPositions()
    ensures forall n :: 0 <= n < 12 ==> 24 * n < |TimeAxis()| && Ticks(12)[n] == TimeAxis()[24 * n]
  {
    forall n | 0 <= n < 12 ensures 24 * n < |TimeAxis()| && Ticks(12)[n] == TimeAxis()[24 * n] {
      LabelAt(2 * n, 0);
    }
  }

  /** Each block of 24 labels shows only its first, minute 00 of an even
      hour. */
  lemma TickBlocks()
    ensures forall n :: 0 <= n < 12 ==> Filter(TimeAxis()[24 * n..24 * n + 24], ShowTick) == [Ticks(12)[n]]
  {
    ShownPositions();
    TickPositions();
    forall n | 0 <= n < 12 ensures Filter(TimeAxis()[24 * n..24 * n + 24], ShowTick) == [Ticks(12)[n]] {
      BlockFilter(TimeAxis(), ShowTick, n);
    }
  }

  /** The shown labels are minute 00 of the even hours. */
  lemma ShownTicks()
    ensures Filter(TimeAxis(), ShowTick) == Ticks(12)
  {
    var labels := TimeAxis();
    TickBlocks();
    FilterEvery24(labels, ShowTick, Ticks(12), 12);
    TakeAll(labels);
    TakeAll(Ticks(12));
  }

  /** Exactly twelve of the 288 labels are shown: `00:00`, `02:00`, ...,
      `22:00`. */
  lemma TwelveTicks()
    ensures Filter(TimeAxis(), ShowTick) ==
      ["00:00", "02:00", "04:00", "06:00", "08:00", "10:00",
       "12:00", "14:00", "16:00", "18:00", "20:00", "22:00"]
  {
    ShownTicks();
    TicksDigits();
    EvenHourLiterals();
  }

  // ---------------------------------------------------------------------
  // Y axis

  /** `Object.keys(data).filter((date) => date >= start && date <= end).sort()`. */
  function Days(data: RuntimeData, r: DateRange): (days: seq<string>)
    ensures Sorted(days)
    ensures forall d :: d in days <==> d in Keys(data.days) && InRange(d, r)
  {
    var kept := Filter(Keys(data.days), (d: string) => InRange(d, r));
    var sorted := Sort(kept);
    forall d ensures d in sorted <==> d in kept {
      assert d in sorted <==> d in multiset(sorted);
      assert d in kept <==> d in multiset(kept);
    }
    sorted
  }

  /** With distinct keys, the y axis is strictly increasing, hence without
      duplicates. */
  lemma DaysIncreasing(data: RuntimeData, r: DateRange)
    requires DistinctKeys(data)
    ensures forall a, b :: 0 <= a < b < |Days(data, r)| ==> Less(Days(data, r)[a], Days(data, r)[b])
  {
    var kept := Filter(Keys(data.days), (d: string) => InRange(d, r));
    FilterDistinct(Keys(data.days), (d: string) => InRange(d, r));
    DistinctPermutation(kept, Days(data, r));
    SortedDistinctIncreasing(Days(data, r));
  }

  /** An inverted range has no rows. */
  lemma DaysInverted(data: RuntimeData, r: DateRange)
    requires Less(r.end, r.start)
    ensures Days(data, r) == []
  {
    var days := Days(data, r);
    if days != [] {
      assert days[0] in days;
      InvertedRangeHasNoDate(days[0], r);
      assert false;
    }
  }

  // ---------------------------------------------------------------------
  // The date range state

  /** The initial state of `dateRange`: the first and last of the sorted
      keys. `None` for a dataset without dates, where the source would
      produce undefined endpoints. */
  function DefaultRange(data: RuntimeData): (r: Option<DateRange>)
    ensures r.None? <==> data.days == []
    ensures r.Some? ==> r.value.start in Keys(data.days) && r.value.end in Keys(data.days)
    ensures r.Some? ==> forall d :: d in Keys(data.days) ==> InRange(d, r.value)
  {
    var dates := Sort(Keys(data.days));
    if |dates| == 0 then None
    else
      assert forall d :: d in Keys(data.days) <==> d in multiset(dates);
      assert data.days != [] ==> Keys(data.days)[0] in Keys(data.days);
      SortedBounds(dates);
      Some(DateRange(dates[0], dates[|dates| - 1]))
  }

  /** The first and the last of a sorted sequence bound all its elements. */
  lemma SortedBounds(s: seq<string>)
    requires Sorted(s) && s != []
    ensures forall d :: d in s ==> LessEq(s[0], d) && LessEq(d, s[|s| - 1])
  {
    forall d | d in s ensures LessEq(s[0], d) && LessEq(d, s[|s| - 1]) {
      var k :| 0 <= k < |s| && s[k] == d;
      LessIrreflexive(d);
    }
  }

  /** Every key of the dataset lies in its default range. */
  lemma DefaultRangeKeys(data: RuntimeData)
    requires data.days != []
    ensures forall k :: 0 <= k < |data.days| ==> InRange(data.days[k].date, DefaultRange(data).value)
  {
    var r := DefaultRange(data).value;
    var keys := Keys(data.days);
    forall k | 0 <= k < |data.days| ensures InRange(data.days[k].date, r) {
      assert keys[k] in keys;
    }
  }

  /** The default range shows every date and every sample of the dataset. */
  lemma DefaultRangeSelectsAll(data: RuntimeData)
    requires data.days != []
    ensures Days(data, DefaultRange(data).value) == Sort(Keys(data.days))
    ensures Cells(data, DefaultRange(data).value) == Project(Flatten(data.days), Displayed(data.sources))
  {
    var r := DefaultRange(data).value;
    DefaultRangeKeys(data);
    FilterAll(Keys(data.days), (d: string) => InRange(d, r));
    FilterAll(data.days, (d: DayEntry) => InRange(d.date, r));
    RangeCellsAreProjection(data.days, r, Displayed(data.sources));
  }

  /** Which input of the date picker changed. */
  datatype Endpoint = Start | End

  /** `handleDateRangeChange(type, value)`: the previous range with the one
      endpoint `type` replaced by `value`. */
  function HandleDateRangeChange(prev: DateRange, which: Endpoint, value: string): (next: DateRange)
    ensures which == Start ==> next.start == value && next.end == prev.end
    ensures which == End ==> next.end == value && next.start == prev.start
  {
    match which
    case Start => prev.(start := value)
    case End => prev.(end := value)
  }

  /** Edits of the two endpoints commute, and a later edit of the same
      endpoint overrides an earlier one. */
  lemma EditsCommute(r: DateRange, s: string, e: string, v: string)
    ensures HandleDateRangeChange(HandleDateRangeChange(r, Start, s), End, e) ==
      HandleDateRangeChange(HandleDateRangeChange(r, End, e), Start, s)
    ensures HandleDateRangeChange(HandleDateRangeChange(r, Start, v), Start, s) == HandleDateRangeChange(r, Start, s)
    ensures HandleDateRangeChange(HandleDateRangeChange(r, End, v), End, e) == HandleDateRangeChange(r, End, e)
  {
  }

  /** Moving the start later or the end earlier only removes cells: the new
      cell list is a subsequence of the old one. */
  lemma NarrowingEdit(data: RuntimeData, prev: DateRange, which: Endpoint, value: string)
    requires which == Start ==> LessEq(prev.start, value)
    requires which == End ==> LessEq(value, prev.end)
    ensures IsSubseq(Cells(data, HandleDateRangeChange(prev, which, value)), Cells(data, prev))
  {
    var next := HandleDateRangeChange(prev, which, value);
    LessIrreflexive(prev.start);
    LessIrreflexive(prev.end);
    RangeWidening(data, next, prev);
  }

  // ---------------------------------------------------------------------
  // The component's own pipeline

  /** `getChartOptions` of `App`: builds the hours, the y-axis dates, the
      legend and the series, and agrees with `getChartOptions` of
      src/utils/chartUtils.ts given the same hours, dates and range. */
  method GetChartOptions(data: RuntimeData, dateRange: DateRange) returns (o: ChartOptions)
    ensures o == ChartConfig.GetChartOptions(TimeAxis(), Days(data, dateRange), data, dateRange)
  {
    var hours := GenerateHours();
    var days := Days(data, dateRange);
    // The component's inline `transformData` is the same code as the
    // module's, so the method of Heatmap stands for both.
    var series := Heatmap.TransformData(data, dateRange);
    o := ChartOptions(hours, days, Pieces(data.sources), series);
  }

  // ---------------------------------------------------------------------
  // Worked examples

  /** An inverted range gives no rows and no cells. */
  lemma ExampleInvertedRange(data: RuntimeData)
    ensures Days(data, DateRange("2024-06-10", "2024-06-01")) == []
    ensures Cells(data, DateRange("2024-06-10", "2024-06-01")) == []
  {
    var r := DateRange("2024-06-10", "2024-06-01");
    assert r.end[..8] == r.start[..8];
    LessAtDifference(r.end, r.start, 8);
    DaysInverted(data, r);
    InvertedRangeIsEmpty(data, r);
  }

  /** A dataset of one date holding one sample at `00:05` with value 2, and
      a catalog of one source with value 2 named `name`. */
  function ExampleData(name: string): RuntimeData
  {
    RuntimeData(
      [RuntimeSource("#ff0000", "Battery", name, 2, "Battery")],
      [DayEntry("2024-01-01", [DataPoint("00:05", 2, Reading("53.2"), Reading("-1.5"), Reading("51.8"), Reading("0"), Reading("1.5"))])])
  }

  /** A dataset of one in-range day with one matched sample yields that
      sample's cell. */
  lemma SingleSampleCell(day: DayEntry, r: DateRange, allowed: seq<RuntimeSource>, src: RuntimeSource)
    requires |day.points| == 1 && InRange(day.date, r)
    requires MatchSource(allowed, day.points[0].rtsources) == Some(src)
    ensures RangeCells([day], r, allowed) == [Cell(day.points[0].time, day.date, src.value, src.color)]
  {
    var s := Sample(day.date, day.points[0]);
    assert DaySamples(day) == [] + [s];
    ProjectSnoc([], s, allowed);
    RangeCellsSingle(day, r, allowed);
  }

  lemma ExampleAllowed()
    ensures Displayed(ExampleData("RtBatt").sources) == ExampleData("RtBatt").sources
  {
  }

  /** With the source allowed, the one-day range gives exactly one cell. */
  lemma ExampleOneCell()
    ensures Cells(ExampleData("RtBatt"), DateRange("2024-01-01", "2024-01-01")) ==
      [Cell("00:05", "2024-01-01", 2, "#ff0000")]
  {
    var data, r := ExampleData("RtBatt"), DateRange("2024-01-01", "2024-01-01");
    LessIrreflexive(r.start);
    ExampleAllowed();
    FindAt(data.sources, (src: RuntimeSource) => src.value == 2, 0);
    SingleSampleCell(data.days[0], r, data.sources, data.sources[0]);
  }

  /** With the source named `RtOther`, the same range gives no cell. */
  lemma ExampleOmission()
    ensures Cells(ExampleData("RtOther"), DateRange("2024-01-01", "2024-01-01")) == []
  {
    var data := ExampleData("RtOther");
    assert Displayed(data.sources) == [];
  }
}
