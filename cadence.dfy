/**
 * The cadence policy of the timelapse pipeline: how wide the smoothing
 * window is for each requested frame frequency (src/timelapse.py:45-52).
 */
module Cadence {

  /** The two calendar units the window is advanced by. */
  datatype Unit = Year | Month

  /** A half-window: `size` units on each side of a composite's timestamp. */
  datatype HalfWindow = HalfWindow(size: nat, unit: Unit)

  /** Number of months in one calendar unit. */
  function MonthsPerUnit(u: Unit): nat
  {
    match u
    case Year => 12
    case Month => 1
  }

  /**
   * The half-window chosen for a frequency string. The policy is total:
   * any string other than the three known cadences falls back to the
   * yearly policy instead of raising.
   */
  function WindowFor(frequency: string): (w: HalfWindow)
    ensures w.size >= 1
    ensures frequency == "year" ==> w == HalfWindow(1, Year)
    ensures frequency == "quarter" ==> w == HalfWindow(4, Month)
    ensures frequency == "month" ==> w == HalfWindow(2, Month)
    ensures frequency !in {"year", "quarter", "month"} ==> w == HalfWindow(1, Year)
  {
    if frequency == "year" then HalfWindow(1, Year)
    else if frequency == "quarter" then HalfWindow(4, Month)
    else if frequency == "month" then HalfWindow(2, Month)
    else HalfWindow(1, Year)
  }

  /**
   * The half-window of a frequency, measured in months. It is never zero,
   * is one year for every frequency except "quarter" and "month", and the
   * quarterly window (four months) is wider than a quarter itself.
   */
  function HalfWidthMonths(frequency: string): (m: nat)
    ensures 1 <= m <= 12
    ensures m == 4 <==> frequency == "quarter"
    ensures m == 2 <==> frequency == "month"
    ensures m == 12 <==> frequency != "quarter" && frequency != "month"
  {
    var w := WindowFor(frequency);
    w.size * MonthsPerUnit(w.unit)
  }
}
