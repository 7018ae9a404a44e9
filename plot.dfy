/**
 * What `plot_glucose_curve` puts on the chart: the historic curve, the scan
 * dots, the day on the time axis, the extrema labels and the notes.
 */
module GlucoseChart {
  import opened Wrappers
  import opened Timestamps
  import opened GlucoseData
  import opened Extrema
  import opened NoteLanes

  /**
   * The chart's contents; nothing when there is no historic reading to draw,
   * and nothing when the time axis would run past the last day `datetime`
   * can hold (the addition raises `OverflowError`).
   */
  datatype Chart =
    | NoHistoricData
    | DateOutOfRange
    | Plotted(
        curve: seq<(int, int)>,
        scans: seq<(int, int)>,
        dayStart: int,
        labels: seq<Annotation>,
        notes: seq<NotePlacement>)

  /** `(timestamp, historic reading)` of each historic record, in order. */
  function Curve(data: seq<Record>): (c: seq<(int, int)>)
    ensures |c| == |HistoricData(data)|
    ensures forall k :: 0 <= k < |c| ==>
      Some(c[k].1) == HistoricData(data)[k].historicGlucose && c[k].0 == HistoricData(data)[k].timestamp
  {
    var h := HistoricData(data);
    seq(|h|, k requires 0 <= k < |h| => (h[k].timestamp, h[k].historicGlucose.value))
  }

  /** `(timestamp, scan reading)` of each scan record, in order. */
  function Scans(data: seq<Record>): (c: seq<(int, int)>)
    ensures |c| == |ScanData(data)|
    ensures forall k :: 0 <= k < |c| ==>
      Some(c[k].1) == ScanData(data)[k].scanGlucose && c[k].0 == ScanData(data)[k].timestamp
  {
    var s := ScanData(data);
    seq(|s|, k requires 0 <= k < |s| => (s[k].timestamp, s[k].scanGlucose.value))
  }

  /**
   * `plot_glucose_curve`: with no historic record nothing is drawn;
   * otherwise the day is that of the first historic record, the labels are
   * the extrema of its twelve windows over historic and scan points, and
   * the notes are laid out in lanes in file order.
   */
  method PlotGlucoseCurve(data: seq<Record>) returns (chart: Chart)
    ensures chart.NoHistoricData? <==> HistoricData(data) == []
    ensures chart.DateOutOfRange? <==>
      HistoricData(data) != [] && DayOverflows(DayStart(HistoricData(data)[0].timestamp))
    ensures chart.Plotted? ==>
      && chart.curve == Curve(data)
      && chart.scans == Scans(data)
      && chart.dayStart == DayStart(HistoricData(data)[0].timestamp)
      && chart.labels == DayLabels(CombinedPoints(data), chart.dayStart)
      && chart.notes == Placements(NotesData(data))
  {
    var historic := HistoricData(data);
    if historic == [] {
      return NoHistoricData;
    }
    var dayStart := DayStart(historic[0].timestamp);
    var labels := AnnotateExtrema(CombinedPoints(data), dayStart);
    if labels.None? {
      return DateOutOfRange;
    }
    var notes := PlaceNotes(NotesData(data));
    chart := Plotted(Curve(data), Scans(data), dayStart, labels.value, notes);
  }

  /**
   * The chart's day holds its first historic reading, every label lies in
   * that day, and every note is drawn in one of the four lanes.
   */
  lemma PlottedChart(data: seq<Record>, chart: Chart)
    requires HistoricData(data) != []
    requires chart.Plotted?
    requires chart.dayStart == DayStart(HistoricData(data)[0].timestamp)
    requires chart.labels == DayLabels(CombinedPoints(data), chart.dayStart)
    requires chart.notes == Placements(NotesData(data))
    ensures chart.dayStart <= HistoricData(data)[0].timestamp < chart.dayStart + MinutesPerDay
    ensures WithinSpan(chart.labels, chart.dayStart, chart.dayStart + MinutesPerDay)
    ensures |chart.labels| <= 2 * WindowCount
    ensures |chart.notes| == |NotesData(data)|
    ensures forall k :: 0 <= k < |chart.notes| ==> chart.notes[k].lane < LaneCount
  {
    DayLabelsSpec(CombinedPoints(data), chart.dayStart);
  }

  /** A historic record's point is on the curve, at its label's height. */
  lemma OnCurve(data: seq<Record>, p: Record)
    requires p in HistoricData(data)
    ensures (p.timestamp, Glucose(p)) in Curve(data)
  {
    var h := HistoricData(data);
    var m :| 0 <= m < |h| && h[m] == p;
    assert Curve(data)[m] == (p.timestamp, Glucose(p));
  }

  /** A scan record without a historic value is a scan dot, at its label's height. */
  lemma OnScans(data: seq<Record>, p: Record)
    requires p in ScanData(data) && !Truthy(p.historicGlucose)
    ensures (p.timestamp, Glucose(p)) in Scans(data)
  {
    var sc := ScanData(data);
    var m :| 0 <= m < |sc| && sc[m] == p;
    assert Scans(data)[m] == (p.timestamp, Glucose(p));
  }

  /**
   * Every label sits on something drawn: on the curve or on a scan dot.
   * This needs the scan records to leave the historic column blank, since
   * `get_glucose` prefers a historic value and a scan dot shows the scan value.
   */
  lemma LabelsOnDrawnPoints(data: seq<Record>, dayStart: int)
    requires forall r :: r in ScanData(data) ==> !Truthy(r.historicGlucose)
    ensures forall a :: a in DayLabels(CombinedPoints(data), dayStart) ==>
      (a.timestamp, a.value) in Curve(data) || (a.timestamp, a.value) in Scans(data)
  {
    var points := CombinedPoints(data);
    var labels := DayLabels(points, dayStart);
    DayLabelsSpec(points, dayStart);
    forall a | a in labels
      ensures (a.timestamp, a.value) in Curve(data) || (a.timestamp, a.value) in Scans(data)
    {
      var k :| 0 <= k < |labels| && labels[k] == a;
      assert LabelsAPoint(a, points);
      var j :| 0 <= j < |points| && Label(points[j], a.mark) == a;
      var p := points[j];
      assert p in points;
      if IsHistoric(p) {
        OnCurve(data, p);
      } else {
        OnScans(data, p);
      }
    }
  }
}
