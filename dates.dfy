/**
 * Calendar dates as the pipeline uses them: reporting periods, onset dates and the
 * epoch sentinel. A date is a (year, month, day) triple; cudf stores `datetime64[ms]`,
 * and the only place the millisecond count is visible is the cast to float32 at the
 * end of the pipeline, modelled by `EpochMillis`.
 */
module Dates {

  datatype CalDate = CalDate(year: int, month: int, day: int)

  /** A calendar date whose month and day are in range. */
  type Date = d: CalDate | 1 <= d.month <= 12 && 1 <= d.day <= 31 witness CalDate(1970, 1, 1)

  /** The fill value `1970-01-01` for an onset date that was never reached. */
  const Epoch: Date := CalDate(1970, 1, 1)

  /** What `fillna(-1)` writes into a `datetime64[ms]` column: one millisecond before the epoch, on 1969-12-31. */
  const MinusOneMs: Date := CalDate(1969, 12, 31)

  /** Chronological order on dates. */
  predicate Le(a: Date, b: Date) {
    a.year < b.year || (a.year == b.year && (a.month < b.month || (a.month == b.month && a.day <= b.day)))
  }

  /** The earlier of two dates. */
  function Min(a: Date, b: Date): (r: Date)
    ensures Le(r, a) && Le(r, b)
    ensures r == a || r == b
  {
    if Le(a, b) then a else b
  }

  /** `year * 12 + month`: the linear month ordinal of the window arithmetic (`josh_months`). */
  function MonthOrdinal(d: Date): int {
    d.year * 12 + d.month
  }

  /** Days from 1970-01-01 to `d` in the proleptic Gregorian calendar. */
  function DaysFromEpoch(d: Date): int {
    var y := if d.month <= 2 then d.year - 1 else d.year;
    var era := y / 400;
    var yoe := y - era * 400;
    var mp := if d.month > 2 then d.month - 3 else d.month + 9;
    var doy := (153 * mp + 2) / 5 + d.day - 1;
    var doe := yoe * 365 + yoe / 4 - yoe / 100 + doy;
    era * 146097 + doe - 719468
  }

  /** The `datetime64[ms]` value of midnight on `d`. */
  function EpochMillis(d: Date): int {
    DaysFromEpoch(d) * 86400000
  }
}
