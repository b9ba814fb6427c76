/** The records of the runtime dataset: a catalog of categorical sources and,
    per calendar date, the samples taken on the 5-minute grid. */
module Types {
  import opened Seqs

  /** A measurement (a JavaScript number) as the template literal `${}`
      renders it. The pipeline never computes with measurements; it only
      shows them. */
  datatype Reading = Reading(text: string)

  /** One category of the catalog `meta.sources`. */
  datatype RuntimeSource = RuntimeSource(
    color: string,
    display: string,
    name: string,
    value: int,
    desc: string)

  /** One sample; `rtsources` refers to a source's `value`. */
  datatype DataPoint = DataPoint(
    time: string,
    rtsources: int,
    sysVolt: Reading,
    battCurr: Reading,
    battVolt: Reading,
    rectCurr: Reading,
    loadCurr: Reading)

  /** One `[date, samples]` pair of `Object.entries(data)`. */
  datatype DayEntry = DayEntry(date: string, points: seq<DataPoint>)

  /** The dataset: the catalog and the per-date samples in entry order. */
  datatype RuntimeData = RuntimeData(sources: seq<RuntimeSource>, days: seq<DayEntry>)

  /** An inclusive range of ISO dates; nothing keeps `start <= end`. */
  datatype DateRange = DateRange(start: string, end: string)

  /** `Object.keys(data)`, in entry order. */
  function Keys(days: seq<DayEntry>): seq<string>
  {
    seq(|days|, i requires 0 <= i < |days| => days[i].date)
  }

  /** The date keys of a JavaScript object are distinct. */
  predicate DistinctKeys(data: RuntimeData)
  {
    Distinct(Keys(data.days))
  }
}
