/**
 * Frame-label derivation (src/timelapse.py:100-131): one date label per
 * timestamp of the original collection, formatted by cadence, with absent
 * timestamps skipped; then the decision whether the overlay is drawn.
 */
module Labels {
  import opened Wrappers
  import opened Calendar
  import opened Digits

  /** The calendar years a Python `datetime` can hold. */
  const MinYear: int := 1
  const MaxYear: int := 9999

  /** Why deriving the labels raised: a timestamp outside the `datetime` range. */
  datatype LabelError = YearOutOfRange(ms: int)

  /** A timestamp whose UTC date is representable as a `datetime`. */
  predicate InRange(ms: int)
  {
    MinYear <= DateOfMillis(ms).year <= MaxYear
  }

  /** The label text of month `month` of year `year` under a frequency. */
  function Format(year: nat, month: int, frequency: string): (r: string)
    requires 1 <= month <= 12
    ensures DecimalString(year) <= r
    ensures frequency == "year" ==> |r| == |DecimalString(year)|
    ensures frequency != "year" ==> |r| == |DecimalString(year)| + 3
  {
    if frequency == "year" then DecimalString(year)
    else if frequency == "quarter" then DecimalString(year) + " Q" + [DigitChar((month - 1) / 3 + 1)]
    else DecimalString(year) + "-" + Pad2(month)
  }

  /** The label of one timestamp, or the error `datetime` raises for it. */
  function LabelOf(ms: int, frequency: string): (r: Result<string, LabelError>)
    ensures r.Success? <==> InRange(ms)
    ensures r.Failure? ==> r.error == YearOutOfRange(ms)
  {
    var d := DateOfMillis(ms);
    if MinYear <= d.year <= MaxYear then Success(Format(d.year, d.month, frequency))
    else Failure(YearOutOfRange(ms))
  }

  /** The timestamps that are present, in input order. */
  function Present(ts: seq<Option<int>>): (r: seq<int>)
    ensures |r| <= |ts|
  {
    if ts == [] then []
    else
      var init := Present(ts[..|ts| - 1]);
      match ts[|ts| - 1]
      case None => init
      case Some(ms) => init + [ms]
  }

  /**
   * Labels of a list of timestamps, left to right, by the per-timestamp
   * labeller `labelOf`; the first timestamp that has no label makes the
   * whole derivation fail with that timestamp's error.
   */
  function FormatAll(ms: seq<int>, labelOf: int -> Result<string, LabelError>): (r: Result<seq<string>, LabelError>)
    ensures r.Success? ==> |r.value| == |ms|
  {
    if ms == [] then Success([])
    else
      var init := FormatAll(ms[..|ms| - 1], labelOf);
      if init.Failure? then init
      else match labelOf(ms[|ms| - 1])
        case Failure(e) => Failure(e)
        case Success(l) => Success(init.value + [l])
  }

  /** The per-timestamp labeller of a frequency. */
  function Labeller(frequency: string): int -> Result<string, LabelError>
  {
    ms => LabelOf(ms, frequency)
  }

  /** The labels derived from the collection's timestamps. */
  function LabelsOf(ts: seq<Option<int>>, frequency: string): (r: Result<seq<string>, LabelError>)
    ensures r.Success? ==> |r.value| == |Present(ts)| <= |ts|
  {
    FormatAll(Present(ts), Labeller(frequency))
  }

  /**
   * The label loop: walks the timestamps in order, skips absent ones and
   * appends one label per present one; a timestamp out of the `datetime`
   * range raises, which ends the derivation.
   */
  method DeriveLabels(ts: seq<Option<int>>, frequency: string) returns (r: Result<seq<string>, LabelError>)
    ensures r == LabelsOf(ts, frequency)
  {
    var labelOf := Labeller(frequency);
    var dates: seq<string> := [];
    for i := 0 to |ts|
      invariant FormatAll(Present(ts[..i]), labelOf) == Success(dates)
    {
      PresentStep(ts, i);
      if ts[i].None? {
        continue;
      }
      var ms := ts[i].value;
      var text := labelOf(ms);
      FormatAllSnoc(Present(ts[..i]), ms, labelOf);
      if text.Failure? {
        FailureEnds(ts, i + 1, labelOf);
        return Failure(text.error);
      }
      dates := dates + [text.value];
    }
    assert ts[..|ts|] == ts;
    return Success(dates);
  }

  /** One more timestamp adds its value to the present ones exactly when it is present. */
  lemma PresentStep(ts: seq<Option<int>>, i: nat)
    requires i < |ts|
    ensures ts[i].None? ==> Present(ts[..i + 1]) == Present(ts[..i])
    ensures ts[i].Some? ==> Present(ts[..i + 1]) == Present(ts[..i]) + [ts[i].value]
  {
    assert ts[..i + 1][..i] == ts[..i];
  }

  /** Labelling one more timestamp after a successful prefix appends its label, or fails with its error. */
  lemma FormatAllSnoc(ms: seq<int>, x: int, labelOf: int -> Result<string, LabelError>)
    requires FormatAll(ms, labelOf).Success?
    ensures labelOf(x).Success? ==> FormatAll(ms + [x], labelOf) == Success(FormatAll(ms, labelOf).value + [labelOf(x).value])
    ensures labelOf(x).Failure? ==> FormatAll(ms + [x], labelOf) == Failure(labelOf(x).error)
  {
    assert (ms + [x])[..|ms|] == ms;
  }

  /** A derivation that fails on the first `i` timestamps fails on all of them, with the same error. */
  lemma FailureEnds(ts: seq<Option<int>>, i: nat, labelOf: int -> Result<string, LabelError>)
    requires i <= |ts| && FormatAll(Present(ts[..i]), labelOf).Failure?
    ensures FormatAll(Present(ts), labelOf) == FormatAll(Present(ts[..i]), labelOf)
  {
    var head, tail := ts[..i], ts[i..];
    FailureStays(Present(head), tail, labelOf);
    assert head + tail == ts;
    PresentAppend(head, tail);
  }

  /** The number of present timestamps, counted from the front. */
  function CountPresent(ts: seq<Option<int>>): nat
  {
    if ts == [] then 0
    else (if ts[0].Some? then 1 else 0) + CountPresent(ts[1..])
  }

  /** `Present` keeps one entry per present timestamp and no more. */
  lemma {:induction false} PresentLength(ts: seq<Option<int>>)
    ensures |Present(ts)| == CountPresent(ts)
  {
    if ts != [] {
      PresentLength(ts[1..]);
      PresentAppend([ts[0]], ts[1..]);
      assert [ts[0]] + ts[1..] == ts;
      assert [ts[0]][..0] == [];
    }
  }

  /** `Present` distributes over concatenation. */
  lemma {:induction false} PresentAppend(a: seq<Option<int>>, b: seq<Option<int>>)
    ensures Present(a + b) == Present(a) + Present(b)
    decreases |b|
  {
    if b == [] {
      assert a + b == a;
    } else {
      var b' := b[..|b| - 1];
      assert (a + b)[..|a + b| - 1] == a + b';
      PresentAppend(a, b');
    }
  }

  /** Once a prefix fails, every extension fails with the same error. */
  lemma {:induction false} FailureStays(ms: seq<int>, rest: seq<Option<int>>, labelOf: int -> Result<string, LabelError>)
    requires FormatAll(ms, labelOf).Failure?
    ensures FormatAll(ms + Present(rest), labelOf) == FormatAll(ms, labelOf)
    decreases |rest|
  {
    if rest == [] {
      assert ms + Present(rest) == ms;
    } else {
      var rest' := rest[..|rest| - 1];
      FailureStays(ms, rest', labelOf);
      var all := ms + Present(rest);
      match rest[|rest| - 1]
      case None =>
        assert all == ms + Present(rest');
      case Some(x) =>
        assert all == (ms + Present(rest')) + [x];
        assert all[..|all| - 1] == ms + Present(rest');
    }
  }

  /**
   * One label per timestamp, in order: when the derivation succeeds, label
   * `k` is the label of timestamp `k`.
   */
  lemma {:induction false} FormatAllPointwise(ms: seq<int>, labelOf: int -> Result<string, LabelError>)
    requires FormatAll(ms, labelOf).Success?
    ensures |FormatAll(ms, labelOf).value| == |ms|
    ensures forall k :: 0 <= k < |ms| ==>
      labelOf(ms[k]).Success? && FormatAll(ms, labelOf).value[k] == labelOf(ms[k]).value
  {
    if ms != [] {
      var init := ms[..|ms| - 1];
      FormatAllPointwise(init, labelOf);
      forall k | 0 <= k < |ms| - 1
        ensures ms[k] == init[k]
      {
      }
    }
  }

  /** The derivation fails exactly when some timestamp has no label. */
  lemma {:induction false} FormatAllFailsExactly(ms: seq<int>, labelOf: int -> Result<string, LabelError>)
    ensures FormatAll(ms, labelOf).Failure? <==> exists k :: 0 <= k < |ms| && labelOf(ms[k]).Failure?
  {
    if ms != [] {
      var init := ms[..|ms| - 1];
      FormatAllFailsExactly(init, labelOf);
      if exists k :: 0 <= k < |init| && labelOf(init[k]).Failure? {
        var k :| 0 <= k < |init| && labelOf(init[k]).Failure?;
        assert ms[k] == init[k];
      }
      if exists k :: 0 <= k < |ms| && labelOf(ms[k]).Failure? {
        var k :| 0 <= k < |ms| && labelOf(ms[k]).Failure?;
        if k < |init| {
          assert init[k] == ms[k];
        }
      }
    }
  }

  /**
   * Label derivation emits exactly one label per present timestamp, in
   * input order, when every present timestamp is within the `datetime`
   * range, and fails otherwise.
   */
  lemma LabelsPerTimestamp(ts: seq<Option<int>>, frequency: string)
    ensures LabelsOf(ts, frequency).Success? <==> forall k :: 0 <= k < |Present(ts)| ==> InRange(Present(ts)[k])
    ensures LabelsOf(ts, frequency).Success? ==>
      |LabelsOf(ts, frequency).value| == |Present(ts)| &&
      forall k :: 0 <= k < |Present(ts)| ==>
        LabelsOf(ts, frequency).value[k] == LabelOf(Present(ts)[k], frequency).value
  {
    var ms := Present(ts);
    var f := Labeller(frequency);
    FormatAllFailsExactly(ms, f);
    forall k | 0 <= k < |ms|
      ensures f(ms[k]).Failure? <==> !InRange(ms[k])
    {
      assert f(ms[k]) == LabelOf(ms[k], frequency);
    }
    if LabelsOf(ts, frequency).Success? {
      FormatAllPointwise(ms, f);
    }
  }

  /** Absent timestamps are skipped: `Present` keeps exactly the `Some` entries, in order. */
  lemma {:induction false} PresentKeepsSomes(ts: seq<Option<int>>)
    ensures forall k :: 0 <= k < |ts| && ts[k].Some? ==> ts[k].value in Present(ts)
    ensures forall x :: x in Present(ts) ==> Some(x) in ts
    ensures (forall k :: 0 <= k < |ts| ==> ts[k].None?) ==> Present(ts) == []
  {
    if ts != [] {
      var init := ts[..|ts| - 1];
      PresentKeepsSomes(init);
      forall k | 0 <= k < |ts| - 1
        ensures ts[k] == init[k]
      {
      }
      forall x | x in Present(init)
        ensures Some(x) in ts
      {
        assert Some(x) in init;
      }
    }
  }

  /** Parses a year label back to its year. */
  function ParseYearLabel(s: string): Option<nat>
  {
    if |s| >= 1 && AllDigits(s) then Some(ParseDecimal(s)) else None
  }

  /** Parses a quarter label `"<year> Q<n>"` back to the year and quarter. */
  function ParseQuarterLabel(s: string): Option<(nat, nat)>
  {
    if |s| >= 4 && s[|s| - 3] == ' ' && s[|s| - 2] == 'Q' && IsDigit(s[|s| - 1]) && AllDigits(s[..|s| - 3])
    then Some((ParseDecimal(s[..|s| - 3]), DigitValue(s[|s| - 1])))
    else None
  }

  /** Parses a month label `"<year>-<mm>"` back to the year and month. */
  function ParseMonthLabel(s: string): Option<(nat, nat)>
  {
    if |s| >= 4 && s[|s| - 3] == '-' && AllDigits(s[..|s| - 3]) && AllDigits(s[|s| - 2..])
    then Some((ParseDecimal(s[..|s| - 3]), ParseDecimal(s[|s| - 2..])))
    else None
  }

  /** A yearly label is the year's decimal text and nothing else. */
  lemma YearLabelRoundTrip(year: nat, month: int)
    requires 1 <= month <= 12
    ensures ParseYearLabel(Format(year, month, "year")) == Some(year)
  {
    DecimalRoundTrip(year);
  }

  /**
   * A quarterly label carries the year and the quarter `(month - 1) / 3 + 1`,
   * which is between 1 and 4.
   */
  lemma QuarterLabelRoundTrip(year: nat, month: int)
    requires 1 <= month <= 12
    ensures var q := (month - 1) / 3 + 1;
      1 <= q <= 4 && ParseQuarterLabel(Format(year, month, "quarter")) == Some((year, q))
  {
    var q := (month - 1) / 3 + 1;
    var y := DecimalString(year);
    var s := Format(year, month, "quarter");
    assert s == y + [' ', 'Q', DigitChar(q)];
    assert s[..|s| - 3] == y;
    DecimalRoundTrip(year);
  }

  /**
   * A monthly label (also the label of any frequency other than "year" and
   * "quarter") carries the year and the month, zero-padded.
   */
  lemma MonthLabelRoundTrip(year: nat, month: int, frequency: string)
    requires 1 <= month <= 12
    requires frequency != "year" && frequency != "quarter"
    ensures ParseMonthLabel(Format(year, month, frequency)) == Some((year, month))
  {
    var y, mm := DecimalString(year), Pad2(month);
    assert Format(year, month, frequency) == y + ['-'] + mm;
    MonthLabelParts(y, mm);
    DecimalRoundTrip(year);
    Pad2RoundTrip(month);
  }

  /** A year's digits, a dash and two digits parse back to the two numbers. */
  lemma MonthLabelParts(y: string, mm: string)
    requires |y| >= 1 && AllDigits(y) && |mm| == 2 && AllDigits(mm)
    ensures ParseMonthLabel(y + ['-'] + mm) == Some((ParseDecimal(y), ParseDecimal(mm)))
  {
    var s := y + ['-'] + mm;
    assert s[..|s| - 3] == y;
    assert s[|s| - 2..] == mm;
  }

  /** 2020-07-15T00:00:00Z as epoch milliseconds. */
  const July15th2020: int := 1_594_771_200_000

  /** Every instant of 2020-07-15 (UTC) falls on that date. */
  lemma DateOfJuly15th2020(ms: int)
    requires July15th2020 <= ms < July15th2020 + MillisPerDay
    ensures DateOfMillis(ms) == Date(2020, 7, 15)
  {
    var d := Date(2020, 7, 15);
    assert DaysBeforeYear(2020) == 18262;
    assert DaysFromCivil(d) == 18458;
    assert DayOfMillis(ms) == 18458;
    CivilRoundTrip(d);
  }

  /** The labels of any instant of 2020-07-15 (UTC) under each cadence. */
  lemma LabelsOfJuly15th2020(ms: int)
    requires July15th2020 <= ms < July15th2020 + MillisPerDay
    ensures LabelOf(ms, "year") == Success("2020")
    ensures LabelOf(ms, "quarter") == Success("2020 Q3")
    ensures LabelOf(ms, "month") == Success("2020-07")
  {
    DateOfJuly15th2020(ms);
    FormatJuly2020();
  }

  /** The three label texts of July 2020. */
  lemma FormatJuly2020()
    ensures Format(2020, 7, "year") == "2020"
    ensures Format(2020, 7, "quarter") == "2020 Q3"
    ensures Format(2020, 7, "month") == "2020-07"
  {
    assert DecimalString(2020) == "2020" by {
      assert DecimalString(2) == "2";
      assert DecimalString(20) == "20";
      assert DecimalString(202) == "202";
    }
    assert Pad2(7) == "07";
  }

  /** What the overlay step does with the derived labels. */
  datatype Overlay =
    | Annotate(labels: seq<string>)   // labels drawn on the frames, one per frame
    | NoDates                         // warning: nothing to draw
    | OverlayFailed(error: LabelError) // derivation raised; the video stays unlabelled

  /**
   * The overlay is drawn only with a non-empty label list; an empty list
   * only warns, and a failed derivation is caught and leaves the video as it is.
   */
  function OverlayStep(ts: seq<Option<int>>, frequency: string): (o: Overlay)
    ensures o.Annotate? <==> LabelsOf(ts, frequency).Success? && |LabelsOf(ts, frequency).value| > 0
    ensures o.Annotate? ==> o.labels == LabelsOf(ts, frequency).value
    ensures o.OverlayFailed? <==> LabelsOf(ts, frequency).Failure?
  {
    match LabelsOf(ts, frequency)
    case Failure(e) => OverlayFailed(e)
    case Success(dates) => if |dates| > 0 then Annotate(dates) else NoDates
  }
}
