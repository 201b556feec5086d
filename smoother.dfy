/**
 * The moving-window temporal smoother (src/timelapse.py:56-64).
 *
 * A composite is one sample of the series: its `time` is a month index
 * (year * 12 + month - 1) and its `value` stands for one band of one pixel,
 * since the median is taken pixel by pixel and band by band independently.
 * With month indices, advancing a date by `n` months or years is integer
 * addition, and the window `[t - w, t + w)` is half-open because the image
 * collection's date filter excludes its end date.
 */
module Smoother {
  import opened Cadence

  datatype Composite = Composite(time: int, value: int)

  /** The values of a sequence of composites, in order. */
  function Values(s: seq<Composite>): (r: seq<int>)
    ensures |r| == |s|
    ensures forall k :: 0 <= k < |s| ==> r[k] == s[k].value
  {
    seq(|s|, k requires 0 <= k < |s| => s[k].value)
  }

  /** Smallest element of a non-empty sequence. */
  function Lo(s: seq<int>): (m: int)
    requires |s| > 0
    ensures m in s
    ensures forall k :: 0 <= k < |s| ==> m <= s[k]
  {
    if |s| == 1 then s[0]
    else var m := Lo(s[1..]); if s[0] <= m then s[0] else m
  }

  /** Largest element of a non-empty sequence. */
  function Hi(s: seq<int>): (m: int)
    requires |s| > 0
    ensures m in s
    ensures forall k :: 0 <= k < |s| ==> s[k] <= m
  {
    if |s| == 1 then s[0]
    else var m := Hi(s[1..]); if s[0] >= m then s[0] else m
  }

  /**
   * What is assumed of the remote median reduction: on a non-empty input it
   * lies between the input's smallest and largest element. (Hence the median
   * of one element is that element.) Its even-count behaviour is left open.
   */
  ghost predicate MedianReducer(median: seq<int> -> int)
  {
    forall s: seq<int> | |s| > 0 :: Lo(s) <= median(s) <= Hi(s)
  }

  /**
   * The composites of `coll` whose time lies in `[lo, hi)`, in collection
   * order: the date filter applied to the image collection.
   */
  function Select(coll: seq<Composite>, lo: int, hi: int): (r: seq<Composite>)
    ensures |r| <= |coll|
  {
    if coll == [] then []
    else
      var rest := Select(coll[1..], lo, hi);
      if lo <= coll[0].time < hi then [coll[0]] + rest else rest
  }

  /**
   * The filter keeps every copy of a composite whose time lies in `[lo, hi)`
   * and no copy of any other: multiplicities are those of the collection.
   */
  lemma {:induction false} SelectMultiplicity(coll: seq<Composite>, lo: int, hi: int)
    ensures forall c :: multiset(Select(coll, lo, hi))[c] == if lo <= c.time < hi then multiset(coll)[c] else 0
  {
    if coll != [] {
      SelectMultiplicity(coll[1..], lo, hi);
      assert coll == [coll[0]] + coll[1..];
      assert multiset(coll) == multiset([coll[0]]) + multiset(coll[1..]);
    }
  }

  /** The filter keeps exactly the composites whose time lies in `[lo, hi)`. */
  lemma {:induction false} SelectMembers(coll: seq<Composite>, lo: int, hi: int)
    ensures forall c :: c in Select(coll, lo, hi) <==> c in coll && lo <= c.time < hi
  {
    if coll != [] {
      SelectMembers(coll[1..], lo, hi);
      assert forall c :: c in coll <==> c == coll[0] || c in coll[1..];
    }
  }

  /** The window of a frame at time `t` with half-width `w` months, as written. */
  function Window(coll: seq<Composite>, t: int, w: nat): (r: seq<Composite>)
    ensures |r| <= |coll|
    ensures forall c :: c in r <==> c in coll && t - w <= c.time < t + w
  {
    SelectMembers(coll, t - w, t + w);
    Select(coll, t - w, t + w)
  }

  /**
   * One smoothed frame: the median of the window drawn from the ORIGINAL
   * collection `coll`, re-tagged with the frame's own timestamp.
   */
  function Frame(coll: seq<Composite>, c: Composite, w: nat, median: seq<int> -> int): (f: Composite)
    ensures f.time == c.time
    ensures c in coll && w >= 1 && MedianReducer(median) ==>
      var vs := Values(Window(coll, c.time, w));
      |vs| >= 1 && Lo(vs) <= f.value <= Hi(vs)
  {
    Composite(c.time, median(Values(Window(coll, c.time, w))))
  }

  /** Maps the per-frame smoothing over `rest`, always looking windows up in `coll`. */
  function SmoothEach(coll: seq<Composite>, rest: seq<Composite>, w: nat, median: seq<int> -> int)
    : (r: seq<Composite>)
    ensures |r| == |rest|
    ensures forall i :: 0 <= i < |rest| ==> r[i] == Frame(coll, rest[i], w, median)
  {
    if rest == [] then []
    else [Frame(coll, rest[0], w, median)] + SmoothEach(coll, rest[1..], w, median)
  }

  /**
   * The smoothed collection. It has the input's length and order, frame `i`
   * keeps exactly the timestamp of composite `i`, and its value is the
   * median of the composites of the original collection inside
   * `[t_i - w, t_i + w)` for the cadence's half-width `w`.
   */
  function Smooth(coll: seq<Composite>, frequency: string, median: seq<int> -> int)
    : (r: seq<Composite>)
    ensures |r| == |coll|
    ensures forall i :: 0 <= i < |coll| ==> r[i].time == coll[i].time
    ensures forall i :: 0 <= i < |coll| ==>
      r[i].value == median(Values(Window(coll, coll[i].time, HalfWidthMonths(frequency))))
  {
    SmoothEach(coll, coll, HalfWidthMonths(frequency), median)
  }

  /** Every value of `Values(s)` is the value of a composite of `s`. */
  lemma ValueOfMember(s: seq<Composite>, x: int)
    requires x in Values(s)
    ensures exists c :: c in s && c.value == x
  {
    var k :| 0 <= k < |Values(s)| && Values(s)[k] == x;
    assert s[k] in s;
  }

  /**
   * Every window holds the frame's own composite, because every cadence's
   * half-width is at least one month; so no window is empty.
   */
  lemma WindowHoldsSelf(coll: seq<Composite>, frequency: string, i: nat)
    requires i < |coll|
    ensures coll[i] in Window(coll, coll[i].time, HalfWidthMonths(frequency))
    ensures |Window(coll, coll[i].time, HalfWidthMonths(frequency))| >= 1
  {
    assert coll[i] in coll;
    SelectMembers(coll, coll[i].time - HalfWidthMonths(frequency), coll[i].time + HalfWidthMonths(frequency));
  }

  /**
   * A smoothed value never leaves the range of its window, nor the range of
   * the whole series: smoothing pulls an outlier toward its neighbours and
   * never invents a brighter or darker value than the inputs.
   */
  lemma SmoothedValueBounded(coll: seq<Composite>, frequency: string, median: seq<int> -> int, i: nat)
    requires MedianReducer(median)
    requires i < |coll|
    ensures |Window(coll, coll[i].time, HalfWidthMonths(frequency))| > 0
    ensures var win := Values(Window(coll, coll[i].time, HalfWidthMonths(frequency)));
      Lo(win) <= Smooth(coll, frequency, median)[i].value <= Hi(win)
    ensures Lo(Values(coll)) <= Smooth(coll, frequency, median)[i].value <= Hi(Values(coll))
  {
    WindowHoldsSelf(coll, frequency, i);
    var win := Values(Window(coll, coll[i].time, HalfWidthMonths(frequency)));
    assert Lo(win) <= median(win) <= Hi(win);
    ValueOfMember(Window(coll, coll[i].time, HalfWidthMonths(frequency)), Lo(win));
    var a :| a in Window(coll, coll[i].time, HalfWidthMonths(frequency)) && a.value == Lo(win);
    ValueOfMember(Window(coll, coll[i].time, HalfWidthMonths(frequency)), Hi(win));
    var b :| b in Window(coll, coll[i].time, HalfWidthMonths(frequency)) && b.value == Hi(win);
    SelectMembers(coll, coll[i].time - HalfWidthMonths(frequency), coll[i].time + HalfWidthMonths(frequency));
    var ka :| 0 <= ka < |coll| && coll[ka] == a;
    var kb :| 0 <= kb < |coll| && coll[kb] == b;
    assert Values(coll)[ka] == a.value && Values(coll)[kb] == b.value;
  }

  /** A one-composite series smooths to itself, whatever the cadence. */
  lemma SmoothSingleton(c: Composite, frequency: string, median: seq<int> -> int)
    requires MedianReducer(median)
    ensures Smooth([c], frequency, median) == [c]
  {
    var r := Smooth([c], frequency, median);
    SmoothedValueBounded([c], frequency, median, 0);
    assert Values([c]) == [c.value];
    assert r[0] == c;
  }

  /** A series without flicker (all values equal) is left unchanged. */
  lemma SmoothConstant(coll: seq<Composite>, frequency: string, median: seq<int> -> int, v: int)
    requires MedianReducer(median)
    requires forall k :: 0 <= k < |coll| ==> coll[k].value == v
    ensures Smooth(coll, frequency, median) == coll
  {
    var r := Smooth(coll, frequency, median);
    forall i | 0 <= i < |coll|
      ensures r[i] == coll[i]
    {
      ConstantFrame(coll, frequency, median, v, i);
    }
  }

  /** One frame of a series without flicker keeps its value. */
  lemma ConstantFrame(coll: seq<Composite>, frequency: string, median: seq<int> -> int, v: int, i: nat)
    requires MedianReducer(median)
    requires forall k :: 0 <= k < |coll| ==> coll[k].value == v
    requires i < |coll|
    ensures Smooth(coll, frequency, median)[i].value == v
  {
    SmoothedValueBounded(coll, frequency, median, i);
    var vs := Values(coll);
    assert Lo(vs) in vs && Hi(vs) in vs;
  }

  /**
   * With yearly composites at period starts, the yearly window of the
   * middle one takes the previous year and itself, but not the next year:
   * the window's end date is excluded.
   */
  lemma YearlyWindowOneSided(a: Composite, b: Composite, c: Composite)
    requires a.time + 12 == b.time && b.time + 12 == c.time
    ensures Window([a, b, c], b.time, HalfWidthMonths("year")) == [a, b]
  {
    var win := Window([a, b, c], b.time, HalfWidthMonths("year"));
    assert Select([c], b.time - 12, b.time + 12) == [];
    assert Select([b, c], b.time - 12, b.time + 12) == [b];
    assert win == [a] + [b];
  }

  /**
   * With quarterly composites three months apart, the four-month window of
   * a composite takes the quarters on both sides of it and nothing further.
   */
  lemma QuarterlyWindowTwoSided(p: Composite, a: Composite, b: Composite, c: Composite, n: Composite)
    requires p.time + 3 == a.time && a.time + 3 == b.time
    requires b.time + 3 == c.time && c.time + 3 == n.time
    ensures Window([p, a, b, c, n], b.time, HalfWidthMonths("quarter")) == [a, b, c]
  {
    assert Select([n], b.time - 4, b.time + 4) == [];
    assert Select([c, n], b.time - 4, b.time + 4) == [c];
    assert Select([b, c, n], b.time - 4, b.time + 4) == [b, c];
    assert Select([a, b, c, n], b.time - 4, b.time + 4) == [a, b, c];
  }

  /**
   * With monthly composites, the two-month window of a composite takes the
   * two months before it, itself and the month after it.
   */
  lemma MonthlyWindowShape(m2: Composite, m1: Composite, b: Composite, p1: Composite, p2: Composite)
    requires m2.time + 1 == m1.time && m1.time + 1 == b.time
    requires b.time + 1 == p1.time && p1.time + 1 == p2.time
    ensures Window([m2, m1, b, p1, p2], b.time, HalfWidthMonths("month")) == [m2, m1, b, p1]
  {
    assert Select([p2], b.time - 2, b.time + 2) == [];
    assert Select([p1, p2], b.time - 2, b.time + 2) == [p1];
    assert Select([b, p1, p2], b.time - 2, b.time + 2) == [b, p1];
    assert Select([m1, b, p1, p2], b.time - 2, b.time + 2) == [m1, b, p1];
  }

  // ---------------------------------------------------------------------
  // A centred (closed) window: the smoothing "radius" announced at
  // src/timelapse.py:54, taken on both sides of the frame.

  /** The closed window `[t - w, t + w]`: on month indices, `[t - w, t + w + 1)`. */
  function CenteredWindow(coll: seq<Composite>, t: int, w: nat): seq<Composite>
  {
    Select(coll, t - w, t + w + 1)
  }

  /** The smoother with the closed window in place of the half-open one. */
  function SmoothCentered(coll: seq<Composite>, frequency: string, median: seq<int> -> int)
    : (r: seq<Composite>)
    ensures |r| == |coll|
    ensures forall i :: 0 <= i < |coll| ==> r[i].time == coll[i].time
  {
    seq(|coll|, i requires 0 <= i < |coll| =>
      Composite(coll[i].time, median(Values(CenteredWindow(coll, coll[i].time, HalfWidthMonths(frequency))))))
  }

  /**
   * The closed window is symmetric: a composite `d` months before the frame
   * is in it exactly when a composite `d` months after the frame is.
   */
  lemma CenteredWindowSymmetric(coll: seq<Composite>, t: int, w: nat, before: Composite, after: Composite)
    requires before in coll && after in coll
    requires t - before.time == after.time - t
    ensures before in CenteredWindow(coll, t, w) <==> after in CenteredWindow(coll, t, w)
  {
    SelectMembers(coll, t - w, t + w + 1);
  }

  /** With the closed window, the yearly frame takes the years on both sides. */
  lemma CenteredYearlyWindow(a: Composite, b: Composite, c: Composite)
    requires a.time + 12 == b.time && b.time + 12 == c.time
    ensures CenteredWindow([a, b, c], b.time, HalfWidthMonths("year")) == [a, b, c]
  {
    assert Select([c], b.time - 12, b.time + 13) == [c];
    assert Select([b, c], b.time - 12, b.time + 13) == [b, c];
  }

  /**
   * As written, the middle frame of three yearly composites is the median
   * of the previous year and its own year only.
   */
  lemma YearlyFrameAsWritten(a: Composite, b: Composite, c: Composite, median: seq<int> -> int)
    requires a.time + 12 == b.time && b.time + 12 == c.time
    ensures Smooth([a, b, c], "year", median)[1] == Composite(b.time, median([a.value, b.value]))
  {
    YearlyWindowOneSided(a, b, c);
    assert Values([a, b]) == [a.value, b.value];
  }

  /** With the closed window, the middle yearly frame is the median of all three years. */
  lemma YearlyFrameCentered(a: Composite, b: Composite, c: Composite, median: seq<int> -> int)
    requires a.time + 12 == b.time && b.time + 12 == c.time
    ensures SmoothCentered([a, b, c], "year", median)[1] == Composite(b.time, median([a.value, b.value, c.value]))
  {
    CenteredYearlyWindow(a, b, c);
    assert Values([a, b, c]) == [a.value, b.value, c.value];
  }
}
