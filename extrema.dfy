/**
 * The highest and lowest reading of each two-hour window of the day, as
 * `plot_glucose_curve` chooses and annotates them.
 */
module Extrema {
  import opened Wrappers
  import opened Seqs
  import opened Timestamps
  import opened GlucoseData

  const WindowMinutes := 120
  const WindowCount := 12

  datatype Mark = Above | Below

  /** One value label on the curve: placed above it for a maximum, below it for a minimum. */
  datatype Annotation = Annotation(timestamp: int, value: int, mark: Mark)

  /** The set key `(timestamp, value)` the script deduplicates labels by. */
  function Id(a: Annotation): (int, int) {
    (a.timestamp, a.value)
  }

  predicate IsPoint(r: Record) {
    IsHistoric(r) || IsScan(r)
  }

  /** A record drawn on the chart: historic or scan, with a truthy reading. */
  type Point = r: Record | IsPoint(r) witness Record(0, HistoricType, Some(1), None, None)

  /** `p.get('historic_glucose') or p.get('scan_glucose')` on a plotted point. */
  function Glucose(p: Point): (g: int)
    ensures g != 0
    ensures Truthy(p.historicGlucose) ==> Some(g) == p.historicGlucose
    ensures !Truthy(p.historicGlucose) ==> Some(g) == p.scanGlucose
  {
    if Truthy(p.historicGlucose) then p.historicGlucose.value else p.scanGlucose.value
  }

  /** Historic records followed by scan records, as `all_glucose_data`. */
  function CombinedPoints(data: seq<Record>): (points: seq<Point>)
    ensures forall r :: r in points <==> r in data && IsPoint(r)
    ensures |points| == |HistoricData(data)| + |ScanData(data)|
  {
    var all := HistoricData(data) + ScanData(data);
    assert forall k :: 0 <= k < |all| ==> IsPoint(all[k]);
    all
  }

  function WindowStart(dayStart: int, i: int): int {
    dayStart + WindowMinutes * i
  }

  predicate InWindow(t: int, dayStart: int, i: int) {
    WindowStart(dayStart, i) <= t < WindowStart(dayStart, i + 1)
  }

  /** The points with `lo <= timestamp < hi`, in order. */
  function PointsIn(points: seq<Point>, lo: int, hi: int): (w: seq<Point>)
    ensures forall p :: p in w <==> p in points && lo <= p.timestamp < hi
  {
    Filter(points, (p: Point) => lo <= p.timestamp < hi)
  }

  /** Python's `max(w, key=get_glucose)`: the first point with the highest value. */
  function FirstMax(w: seq<Point>): (k: nat)
    requires w != []
    ensures k < |w|
    ensures forall j :: 0 <= j < |w| ==> Glucose(w[j]) <= Glucose(w[k])
    ensures forall j :: 0 <= j < k ==> Glucose(w[j]) < Glucose(w[k])
  {
    if |w| == 1 then 0
    else
      var k := FirstMax(w[..|w| - 1]);
      if Glucose(w[|w| - 1]) > Glucose(w[k]) then |w| - 1 else k
  }

  /** Python's `min(w, key=get_glucose)`: the first point with the lowest value. */
  function FirstMin(w: seq<Point>): (k: nat)
    requires w != []
    ensures k < |w|
    ensures forall j :: 0 <= j < |w| ==> Glucose(w[k]) <= Glucose(w[j])
    ensures forall j :: 0 <= j < k ==> Glucose(w[k]) < Glucose(w[j])
  {
    if |w| == 1 then 0
    else
      var k := FirstMin(w[..|w| - 1]);
      if Glucose(w[|w| - 1]) < Glucose(w[k]) then |w| - 1 else k
  }

  function Label(p: Point, mark: Mark): Annotation
  {
    Annotation(p.timestamp, Glucose(p), mark)
  }

  /** The points of window `i`. */
  function WindowPoints(points: seq<Point>, dayStart: int, i: int): (w: seq<Point>)
    ensures forall p :: p in w <==> p in points && InWindow(p.timestamp, dayStart, i)
  {
    PointsIn(points, WindowStart(dayStart, i), WindowStart(dayStart, i + 1))
  }

  /**
   * The labels of window `i`, without any memory of earlier windows: the
   * maximum above, and the minimum below unless it is the same pair.
   */
  function WindowLabels(points: seq<Point>, dayStart: int, i: int): seq<Annotation>
  {
    var w := WindowPoints(points, dayStart, i);
    if w == [] then []
    else
      var top := Label(w[FirstMax(w)], Above);
      var bottom := Label(w[FirstMin(w)], Below);
      if Id(bottom) == Id(top) then [top] else [top, bottom]
  }

  /** Labels that each lie in `[lo, hi)`. */
  predicate WithinSpan(r: seq<Annotation>, lo: int, hi: int) {
    forall k :: 0 <= k < |r| ==> lo <= r[k].timestamp < hi
  }

  /** Label `a` carries the timestamp and value of one of the points. */
  predicate LabelsAPoint(a: Annotation, points: seq<Point>) {
    exists j :: 0 <= j < |points| && Label(points[j], a.mark) == a
  }

  /** Labels that each carry the timestamp and value of some point. */
  predicate FromPoints(r: seq<Annotation>, points: seq<Point>) {
    forall k :: 0 <= k < |r| ==> LabelsAPoint(r[k], points)
  }

  /** Labels none of which shares its `(timestamp, value)` pair with another. */
  predicate DistinctIds(r: seq<Annotation>) {
    forall j, k :: 0 <= j < k < |r| ==> Id(r[j]) != Id(r[k])
  }

  /** Label `a` is a correct extreme with respect to point `p`. */
  predicate Bounds(a: Annotation, p: Point)
  {
    (a.mark == Above ==> Glucose(p) <= a.value) && (a.mark == Below ==> a.value <= Glucose(p))
  }

  /**
   * A window gives at most two labels, the first above and the second below,
   * with different pairs; each lies in the window and is taken from a point.
   */
  lemma WindowLabelsShape(points: seq<Point>, dayStart: int, i: int)
    ensures |WindowLabels(points, dayStart, i)| <= 2
    ensures WindowLabels(points, dayStart, i) != [] ==> WindowLabels(points, dayStart, i)[0].mark == Above
    ensures |WindowLabels(points, dayStart, i)| == 2 ==> WindowLabels(points, dayStart, i)[1].mark == Below
    ensures DistinctIds(WindowLabels(points, dayStart, i))
    ensures WithinSpan(WindowLabels(points, dayStart, i), WindowStart(dayStart, i), WindowStart(dayStart, i + 1))
    ensures FromPoints(WindowLabels(points, dayStart, i), points)
  {
    var w := WindowPoints(points, dayStart, i);
    if w != [] {
      var hi, lo := w[FirstMax(w)], w[FirstMin(w)];
      assert hi in w && lo in w;
    }
  }

  /** A window gives no label exactly when no point falls in it. */
  lemma WindowLabelsEmpty(points: seq<Point>, dayStart: int, i: int)
    ensures WindowLabels(points, dayStart, i) == [] <==>
            forall p :: p in points ==> !InWindow(p.timestamp, dayStart, i)
  {
    var w := WindowPoints(points, dayStart, i);
    if w != [] {
      assert w[0] in w;
    }
  }

  /**
   * A label above is at least, and a label below at most, every point of the
   * window; when one label stands alone it is also the minimum.
   */
  lemma WindowLabelsExtreme(points: seq<Point>, dayStart: int, i: int, p: Point)
    requires p in points && InWindow(p.timestamp, dayStart, i)
    ensures forall k :: 0 <= k < |WindowLabels(points, dayStart, i)| ==> Bounds(WindowLabels(points, dayStart, i)[k], p)
    ensures |WindowLabels(points, dayStart, i)| == 1 ==> WindowLabels(points, dayStart, i)[0].value <= Glucose(p)
  {
    var w := WindowPoints(points, dayStart, i);
    assert p in w;
    var j :| 0 <= j < |w| && w[j] == p;
  }

  /** `a` labels above the first point of `w` that carries its value, and nothing earlier reaches it. */
  predicate EarliestAbove(w: seq<Point>, a: Annotation) {
    exists k :: 0 <= k < |w| && Label(w[k], Above) == a
      && forall j :: 0 <= j < k ==> Glucose(w[j]) < a.value
  }

  /** `a` has the pair of the first point of `w` that carries its value, and nothing earlier is as low. */
  predicate EarliestBelow(w: seq<Point>, a: Annotation) {
    exists k :: 0 <= k < |w| && Id(Label(w[k], Below)) == Id(a)
      && forall j :: 0 <= j < k ==> a.value < Glucose(w[j])
  }

  /**
   * Ties go to the earliest point in historic-then-scan order: no point of
   * the window before the chosen maximum (minimum) equals it in value.
   */
  lemma WindowTieBreak(points: seq<Point>, dayStart: int, i: int)
    requires WindowLabels(points, dayStart, i) != []
    ensures EarliestAbove(WindowPoints(points, dayStart, i), WindowLabels(points, dayStart, i)[0])
    ensures EarliestBelow(WindowPoints(points, dayStart, i), Last(WindowLabels(points, dayStart, i)))
  {
    var w := WindowPoints(points, dayStart, i);
    ChosenAreEarliest(w);
  }

  lemma ChosenAreEarliest(w: seq<Point>)
    requires w != []
    ensures EarliestAbove(w, Label(w[FirstMax(w)], Above))
    ensures EarliestBelow(w, Label(w[FirstMin(w)], Below))
  {
  }

  function Last(r: seq<Annotation>): Annotation
    requires r != []
  {
    r[|r| - 1]
  }

  lemma SpanConcat(a: seq<Annotation>, b: seq<Annotation>, lo: int, mid: int, hi: int)
    requires WithinSpan(a, lo, mid) && WithinSpan(b, mid, hi) && lo <= mid <= hi
    ensures WithinSpan(a + b, lo, hi)
  {
    forall k | 0 <= k < |a + b|
      ensures lo <= (a + b)[k].timestamp < hi
    {
      if k >= |a| {
        assert (a + b)[k] == b[k - |a|];
      }
    }
  }

  lemma FromPointsConcat(a: seq<Annotation>, b: seq<Annotation>, points: seq<Point>)
    requires FromPoints(a, points) && FromPoints(b, points)
    ensures FromPoints(a + b, points)
  {
    forall k | 0 <= k < |a + b|
      ensures LabelsAPoint((a + b)[k], points)
    {
      if k >= |a| {
        assert (a + b)[k] == b[k - |a|];
      } else {
        assert (a + b)[k] == a[k];
      }
    }
  }

  /** Labels of earlier windows and labels of a later one never share a pair: their timestamps differ. */
  lemma DistinctConcat(a: seq<Annotation>, b: seq<Annotation>, lo: int, mid: int, hi: int)
    requires DistinctIds(a) && DistinctIds(b)
    requires WithinSpan(a, lo, mid) && WithinSpan(b, mid, hi)
    ensures DistinctIds(a + b)
  {
    forall j, k | 0 <= j < k < |a + b|
      ensures Id((a + b)[j]) != Id((a + b)[k])
    {
      if j >= |a| {
        assert (a + b)[j] == b[j - |a|] && (a + b)[k] == b[k - |a|];
      } else if k >= |a| {
        assert (a + b)[j] == a[j] && (a + b)[k] == b[k - |a|];
      } else {
        assert (a + b)[j] == a[j] && (a + b)[k] == a[k];
      }
    }
  }

  /** The window of the day a minute falls in. */
  function WindowOf(t: int, dayStart: int): int {
    (t - dayStart) / WindowMinutes
  }

  lemma WindowOfInWindow(t: int, dayStart: int, i: int)
    requires InWindow(t, dayStart, i)
    ensures WindowOf(t, dayStart) == i
  {
  }

  /** Two minutes at or after `dayStart` that fall in the same two-hour window. */
  predicate SameWindow(t: int, u: int, dayStart: int) {
    dayStart <= t && dayStart <= u && WindowOf(t, dayStart) == WindowOf(u, dayStart)
  }

  /** Each label is a correct extreme for every point of its own window. */
  predicate Extremal(r: seq<Annotation>, points: seq<Point>, dayStart: int) {
    forall k, p :: 0 <= k < |r| && p in points && SameWindow(p.timestamp, r[k].timestamp, dayStart)
      ==> Bounds(r[k], p)
  }

  lemma WindowLabelsExtremal(points: seq<Point>, dayStart: int, i: int)
    ensures Extremal(WindowLabels(points, dayStart, i), points, dayStart)
  {
    var r := WindowLabels(points, dayStart, i);
    WindowLabelsShape(points, dayStart, i);
    forall k, p | 0 <= k < |r| && p in points && SameWindow(p.timestamp, r[k].timestamp, dayStart)
      ensures Bounds(r[k], p)
    {
      WindowOfInWindow(r[k].timestamp, dayStart, i);
      assert InWindow(p.timestamp, dayStart, i);
      WindowLabelsExtreme(points, dayStart, i, p);
    }
  }

  lemma ExtremalConcat(a: seq<Annotation>, b: seq<Annotation>, points: seq<Point>, dayStart: int)
    requires Extremal(a, points, dayStart) && Extremal(b, points, dayStart)
    ensures Extremal(a + b, points, dayStart)
  {
    forall k, p | 0 <= k < |a + b| && p in points && SameWindow(p.timestamp, (a + b)[k].timestamp, dayStart)
      ensures Bounds((a + b)[k], p)
    {
      if k >= |a| {
        assert (a + b)[k] == b[k - |a|];
      } else {
        assert (a + b)[k] == a[k];
      }
    }
  }

  /** The labels `f` gives windows `0 .. n-1`, concatenated in window order. */
  function Windows(f: int -> seq<Annotation>, n: nat): seq<Annotation> {
    if n == 0 then [] else Windows(f, n - 1) + f(n - 1)
  }

  lemma {:induction false} WindowsSpan(f: int -> seq<Annotation>, dayStart: int, n: nat)
    requires forall i :: 0 <= i < n ==> WithinSpan(f(i), WindowStart(dayStart, i), WindowStart(dayStart, i + 1))
    ensures WithinSpan(Windows(f, n), WindowStart(dayStart, 0), WindowStart(dayStart, n))
  {
    if n > 0 {
      WindowsSpan(f, dayStart, n - 1);
      SpanConcat(Windows(f, n - 1), f(n - 1), WindowStart(dayStart, 0), WindowStart(dayStart, n - 1), WindowStart(dayStart, n));
    }
  }

  lemma {:induction false} WindowsFromPoints(f: int -> seq<Annotation>, points: seq<Point>, n: nat)
    requires forall i :: 0 <= i < n ==> FromPoints(f(i), points)
    ensures FromPoints(Windows(f, n), points)
  {
    if n > 0 {
      WindowsFromPoints(f, points, n - 1);
      FromPointsConcat(Windows(f, n - 1), f(n - 1), points);
    }
  }

  lemma {:induction false} WindowsDistinct(f: int -> seq<Annotation>, dayStart: int, n: nat)
    requires forall i :: 0 <= i < n ==> WithinSpan(f(i), WindowStart(dayStart, i), WindowStart(dayStart, i + 1))
    requires forall i :: 0 <= i < n ==> DistinctIds(f(i)) && |f(i)| <= 2
    ensures DistinctIds(Windows(f, n)) && |Windows(f, n)| <= 2 * n
  {
    if n > 0 {
      WindowsDistinct(f, dayStart, n - 1);
      WindowsSpan(f, dayStart, n - 1);
      DistinctConcat(Windows(f, n - 1), f(n - 1), WindowStart(dayStart, 0), WindowStart(dayStart, n - 1), WindowStart(dayStart, n));
    }
  }

  lemma {:induction false} WindowsExtremal(f: int -> seq<Annotation>, points: seq<Point>, dayStart: int, n: nat)
    requires forall i :: 0 <= i < n ==> Extremal(f(i), points, dayStart)
    ensures Extremal(Windows(f, n), points, dayStart)
  {
    if n > 0 {
      WindowsExtremal(f, points, dayStart, n - 1);
      ExtremalConcat(Windows(f, n - 1), f(n - 1), points, dayStart);
    }
  }

  /** Window `i` of the day starting at `dayStart` gets `WindowLabels(points, dayStart, i)`. */
  function LabelsOf(points: seq<Point>, dayStart: int): int -> seq<Annotation> {
    i => WindowLabels(points, dayStart, i)
  }

  /** The labels of the whole day: twelve windows from `dayStart`. */
  function DayLabels(points: seq<Point>, dayStart: int): seq<Annotation> {
    Windows(LabelsOf(points, dayStart), WindowCount)
  }

  /**
   * The day's labels lie in `[dayStart, dayStart + 24h)` and are taken from
   * points; there are at most two per window and never the same pair twice;
   * a label above is at least, and a label below at most, every point of
   * its own window.
   */
  lemma DayLabelsSpec(points: seq<Point>, dayStart: int)
    ensures |DayLabels(points, dayStart)| <= 2 * WindowCount
    ensures DistinctIds(DayLabels(points, dayStart))
    ensures WithinSpan(DayLabels(points, dayStart), dayStart, dayStart + MinutesPerDay)
    ensures FromPoints(DayLabels(points, dayStart), points)
    ensures Extremal(DayLabels(points, dayStart), points, dayStart)
  {
    var f := LabelsOf(points, dayStart);
    EveryWindow(points, dayStart, WindowCount);
    WindowsSpan(f, dayStart, WindowCount);
    WindowsDistinct(f, dayStart, WindowCount);
    WindowsFromPoints(f, points, WindowCount);
    WindowsExtremal(f, points, dayStart, WindowCount);
  }

  /** The window facts, for each of the first `n` windows. */
  lemma EveryWindow(points: seq<Point>, dayStart: int, n: nat)
    ensures forall i :: 0 <= i < n ==>
      && WithinSpan(LabelsOf(points, dayStart)(i), WindowStart(dayStart, i), WindowStart(dayStart, i + 1))
      && DistinctIds(LabelsOf(points, dayStart)(i)) && |LabelsOf(points, dayStart)(i)| <= 2
      && FromPoints(LabelsOf(points, dayStart)(i), points)
      && Extremal(LabelsOf(points, dayStart)(i), points, dayStart)
  {
    forall i | 0 <= i < n
      ensures WithinSpan(WindowLabels(points, dayStart, i), WindowStart(dayStart, i), WindowStart(dayStart, i + 1))
      ensures DistinctIds(WindowLabels(points, dayStart, i)) && |WindowLabels(points, dayStart, i)| <= 2
      ensures FromPoints(WindowLabels(points, dayStart, i), points)
      ensures Extremal(WindowLabels(points, dayStart, i), points, dayStart)
    {
      WindowLabelsShape(points, dayStart, i);
      WindowLabelsExtremal(points, dayStart, i);
    }
  }

  /** The `(timestamp, value)` pairs of the labels `r`. */
  function Ids(r: seq<Annotation>): set<(int, int)> {
    set a | a in r :: Id(a)
  }

  /** The pairs of no label, one label and two labels. */
  lemma IdsOfFew(a: Annotation, b: Annotation)
    ensures Ids([]) == {}
    ensures Ids([a]) == {Id(a)}
    ensures Ids([a, b]) == {Id(a), Id(b)}
  {
    assert forall x :: x in [a, b] <==> x == a || x == b;
  }

  /**
   * One pass of the extrema loop, for window `i`, given the pairs already
   * in `annotated_points` (all from earlier windows): the labels drawn and
   * the set afterwards. When the window's end is past the last minute
   * `datetime` can hold, computing it raises and there are no labels.
   */
  method AnnotateWindow(points: seq<Point>, dayStart: int, i: int, annotated: set<(int, int)>)
    returns (labels: Option<seq<Annotation>>, marked: set<(int, int)>)
    requires forall id :: id in annotated ==> id.0 < WindowStart(dayStart, i)
    ensures labels.None? <==> WindowStart(dayStart, i + 1) > LastMinute
    ensures labels.Some? ==> labels.value == WindowLabels(points, dayStart, i)
    ensures labels.Some? ==> marked == annotated + Ids(labels.value)
  {
    marked := annotated;
    // Each window starts where the one before it ended, so only its end can overflow.
    if WindowStart(dayStart, i + 1) > LastMinute {
      return None, marked;
    }
    var drawn := [];
    var inWindow := PointsIn(points, WindowStart(dayStart, i), WindowStart(dayStart, i + 1));
    if inWindow == [] {
      return Some(drawn), marked;
    }
    var top, bottom := Label(inWindow[FirstMax(inWindow)], Above), Label(inWindow[FirstMin(inWindow)], Below);
    IdsOfFew(top, bottom);
    var maxPoint := inWindow[FirstMax(inWindow)];
    var minPoint := inWindow[FirstMin(inWindow)];
    assert maxPoint in inWindow && minPoint in inWindow;

    var maxVal := Glucose(maxPoint);
    var maxId := (maxPoint.timestamp, maxVal);
    assert maxId !in annotated && Id(bottom) !in annotated;
    if maxId !in marked {
      drawn := drawn + [Annotation(maxPoint.timestamp, maxVal, Above)];
      marked := marked + {maxId};
    }

    var minVal := Glucose(minPoint);
    var minId := (minPoint.timestamp, minVal);
    if minId !in marked && minId != maxId {
      drawn := drawn + [Annotation(minPoint.timestamp, minVal, Below)];
      marked := marked + {minId};
    }
    labels := Some(drawn);
  }

  /** Every window ends within the day, and the last one at the next midnight. */
  lemma WindowEnd(dayStart: int, i: int)
    requires 0 <= i < WindowCount
    ensures WindowStart(dayStart, i + 1) <= dayStart + MinutesPerDay
    ensures i + 1 == WindowCount ==> WindowStart(dayStart, i + 1) == dayStart + MinutesPerDay
  {
  }

  /**
   * The extrema loop of `plot_glucose_curve`, with the `annotated_points`
   * set. It produces exactly the window-by-window labels: the set never
   * turns down a maximum, and turns down a minimum only when it is the
   * same pair as that window's maximum. When the day's last window ends
   * past the last minute `datetime` can hold, the loop raises and there
   * are no labels (`None`).
   */
  method AnnotateExtrema(points: seq<Point>, dayStart: int) returns (r: Option<seq<Annotation>>)
    ensures r.None? <==> DayOverflows(dayStart)
    ensures r.Some? ==> r.value == DayLabels(points, dayStart)
  {
    var annotated: set<(int, int)> := {};
    var annotations := [];
    for i := 0 to WindowCount
      invariant annotations == Windows(LabelsOf(points, dayStart), i)
      invariant forall id :: id in annotated ==> id.0 < WindowStart(dayStart, i)
      invariant i > 0 ==> WindowStart(dayStart, i) <= LastMinute
    {
      WindowEnd(dayStart, i);
      var labels;
      labels, annotated := AnnotateWindow(points, dayStart, i, annotated);
      if labels.None? {
        return None;
      }
      WindowLabelsShape(points, dayStart, i);
      annotations := annotations + labels.value;
    }
    WindowEnd(dayStart, WindowCount - 1);
    return Some(annotations);
  }
}
