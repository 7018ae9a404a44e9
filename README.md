# Daily glucose chart: records, two-hour extrema and note lanes

This project models the core of `main.py`, a script that draws one day of a
glucose monitor's export (LibreView CSV). It covers four parts:

- **Loading** (`load_glucose_data`). The header row and the data rows are
  given as sequences of cells. Rows shorter than the header are skipped.
  A row must also have a notes column (index 13), a `%Y-%m-%d %H:%M`
  timestamp and an integer record type. Its two glucose cells must be blank
  or integers. Every other row is skipped. Blank cells become `None`.
- **Selection** (`plot_glucose_curve`). The chart uses three groups of records:
  - historic readings: type 0 with a truthy historic value;
  - scan readings: type 1 with a truthy scan value;
  - notes: type 6 with non-empty text.

  Without a historic reading nothing is drawn.
- **Extrema**. The day of the first historic reading is cut into twelve
  two-hour windows. In each window the highest reading (first one wins on
  ties) is labelled above the curve. The lowest reading is labelled below,
  unless the `annotated_points` set already holds its `(timestamp, value)`
  pair. A record's value is its historic reading when that is truthy and
  its scan reading otherwise, so a scan record that also carries a
  historic value is labelled with the historic value.
- **Note lanes**. Note `i` starts in lane `i mod 4`. It moves on once, to the
  next lane, when that start lane was last used less than 7200 seconds
  before it (a signed difference). The lane's last time, `note_last_x`, is
  then set to the note's time.

Timestamps are whole minutes counted from 0001-01-01 00:00 in the proleptic
Gregorian calendar. The model proves three facts about this count:

- comparing minutes is the same as comparing the dates and times;
- the minute after any date and time has the next count;
- midnight of a timestamp is `t - t mod 1440`.

The last minute `datetime` can hold is 9999-12-31 23:59. When the first
historic reading falls on that day, the last window's end (midnight plus
24 hours) is out of range and the script raises `OverflowError`. No chart
is drawn; the model says `DateOutOfRange`.

The loops are methods, each proved equal to a reference function:

| loop | method | reference function |
|---|---|---|
| row loop | `GlucoseData.LoadGlucoseData` | `Survivors` |
| extrema loop | `Extrema.AnnotateExtrema` | `DayLabels` |
| note loop | `NoteLanes.PlaceNotes` | `Placements` |

The properties are then proved as lemmas about those functions.

The extrema proof has a consequence. The twelve windows are disjoint in time, so the
`annotated_points` set never turns down a window's maximum. It turns down a
minimum only when that minimum has the same pair as the same window's
maximum. When it does not raise, `AnnotateExtrema` is therefore proved
equal to a set-free definition.

This script assigns lanes by position only. It has no grouping by the
day's mean and no text-width estimate. A moved note is never checked
against its new lane, so two notes close in time can share a lane:
`NoteLanes.MovedNoteNotRechecked` gives five notes one minute apart where
the second and the fifth share lane 1.

## Model

| member | source | states |
|---|---|---|
| Numerals.ParseInt | main.py:53-55 | `int()` on a cell succeeds exactly when, after trimming space and tab to carriage return, it is an optional sign followed by one to 4300 ASCII decimal digits |
| Numerals.ParseLiteral | main.py:53-55 | a trimmed cell converts exactly when it is an optional sign followed by one to 4300 decimal digits |
| Numerals.ParseFormatInt | main.py:53-55 | every integer of at most 4300 digits, written in decimal, parses back to itself |
| Numerals.ParseIntPadded | main.py:53-55 | leading zeros, and any run of space and tab to carriage return before and after the digits, do not change the value `int()` reads, for fields of up to 4300 digits |
| Numerals.ParseIntTooLong | main.py:53-55 | a numeral of more than 4300 digits, leading zeros included, fails to convert whatever whitespace surrounds it |
| Numerals.PadDigitsValue | main.py:50 | a zero-padded field of digits reads back as the number written |
| Numerals.DigitsValuePad | main.py:50 | a field of digits is the zero-padded rendering of its value |
| Numerals.DigitsRoundTrip | main.py:53-55 | the shortest decimal rendering of a number reads back as that number |
| Timestamps.DaysInMonth | main.py:50 | every month has between 28 and 31 days |
| Timestamps.MonthStep | main.py:50 | each month starts the day after the last day of the month before it |
| Timestamps.YearEnd | main.py:50 | December ends on the last day of the year, whose length is 366 days in a leap year and 365 otherwise |
| Timestamps.NextMinuteCount | main.py:50 | the minute after any valid date and time other than the last is valid and has the next count, across the end of an hour, day, month and year |
| Timestamps.InRange | main.py:50 | every valid date and time counts between 0 and the count of 9999-12-31 23:59 |
| Timestamps.OverflowsOnLastDay | main.py:92-93 | adding 24 hours to a reading's midnight leaves the range of `datetime` exactly when the reading is on 9999-12-31 |
| Timestamps.ParseDateTime | main.py:50 | a cell read with `%Y-%m-%d %H:%M` gives only real dates in years 1 to 9999 and real clock times |
| Timestamps.ParsedIsFormatted | main.py:50 | a cell that parses is exactly the rendering of the date and time it parses to |
| Timestamps.FormattedParses | main.py:50 | every valid date and time, rendered, parses back to itself |
| Timestamps.ParseTimestamp | main.py:50 | a timestamp cell converts exactly when it parses as a date and time |
| Timestamps.MinutesOrder | main.py:50 | minute counts compare exactly as the dates and times do (earlier is smaller, equal only when equal) |
| Timestamps.DaysBeforeYearMonotone | main.py:50 | later years start on later days |
| Timestamps.MinuteOfDay | main.py:88 | a timestamp's minute within its day is its clock time, and `replace(hour=0, minute=0)` is `t - t mod 1440` |
| GlucoseData.ParseOptionalInt | main.py:54-55 | a blank glucose cell is `None`; otherwise the cell must parse as an integer |
| GlucoseData.ParseRowSpec | main.py:47-59 | one row converts exactly when it is as long as the header, has a notes column, and the timestamp, type and glucose cells parse; each field is then the parsed cell, and a blank cell is `None` |
| GlucoseData.LoadGlucoseData | main.py:36-61 | the row loop returns exactly the conversions of the converting rows, in row order |
| GlucoseData.SurvivorsConcat | main.py:46-58 | loading two stretches of rows gives the records of each, one after the other |
| GlucoseData.SurvivorsFromRows | main.py:46-60 | a record is loaded exactly when some row converts to it, and there are never more records than rows |
| GlucoseData.SkippedRow | main.py:47-60 | a row that fails to convert leaves the loaded records unchanged |
| GlucoseData.LoadedNotesHaveText | main.py:56 | a loaded record's note text is never empty |
| GlucoseData.FilterSelection | main.py:67-143 | each filter keeps exactly its record type with a present, non-zero value (non-empty text for notes), keeps file order, and no scan record is also historic or a note |
| Seqs.Filter | main.py:67-143 | a comprehension keeps exactly the elements that pass its test, in order and never more |
| Seqs.FilterMapConcat | main.py:46-58 | converting two stretches of rows gives the results of each, one after the other |
| Seqs.FilterMapFrom | main.py:49-58 | every result of the row loop comes from some row |
| Seqs.FilterMapHit | main.py:49-58 | every row that converts contributes its result |
| Seqs.FilterConcat | main.py:67-143 | filtering two stretches gives the kept elements of each, one after the other |
| Extrema.Glucose | main.py:105 | `get_glucose` is never zero on a drawn point; it is the historic reading whenever that is truthy, whatever the record type, and the scan reading otherwise |
| Extrema.CombinedPoints | main.py:87 | `all_glucose_data` holds exactly the historic and scan records, and as many as both lists together |
| Extrema.PointsIn | main.py:95-98 | a window's points are exactly the points of the list with `start <= timestamp < end` |
| Extrema.WindowPoints | main.py:92-98 | the points of window `i` are those between `start + 2i` hours and `start + 2(i+1)` hours |
| Extrema.FirstMax | main.py:106 | `max` picks a point at least as high as all others, and higher than every point before it |
| Extrema.FirstMin | main.py:107 | `min` picks a point at most as low as all others, and lower than every point before it |
| Extrema.WindowLabelsShape | main.py:109-127 | a window gives at most two labels: first the maximum above, then the minimum below; the two pairs differ, and both lie in the window and come from points |
| Extrema.WindowLabelsEmpty | main.py:100-101 | a window gives no label exactly when no point falls in it |
| Extrema.WindowLabelsExtreme | main.py:105-127 | a label above is at least, and a label below at most, every point of its window; a label standing alone is also the minimum |
| Extrema.WindowTieBreak | main.py:106-107 | on ties, the label goes to the earliest point in historic-then-scan order |
| Extrema.WindowLabelsExtremal | main.py:105-127 | each label of a window bounds every point in the same two-hour window of the day |
| Extrema.DistinctConcat | main.py:111-127 | labels of earlier windows never share a pair with labels of a later window |
| Extrema.WindowOfInWindow | main.py:91-92 | a minute in window `i` lies in the `i`-th two-hour stretch after midnight |
| Extrema.WindowsDistinct | main.py:89-127 | window labels joined in window order never repeat a pair, two at most per window |
| Extrema.WindowsSpan | main.py:89-92 | labels joined in window order lie between the first window's start and the last window's end |
| Extrema.DayLabelsSpec | main.py:87-127 | the day's labels are at most 24, never repeat a pair, lie in `[midnight, midnight + 24h)`, come from points, and bound every point of their own window |
| Extrema.AnnotateWindow | main.py:92-127 | one pass of the loop raises exactly when the window's end is past 9999-12-31 23:59; otherwise, when every pair already in the set has a timestamp before the window's start, it draws exactly that window's labels and adds exactly their pairs to `annotated_points` |
| Extrema.WindowEnd | main.py:91-93 | every window ends within the day, and the twelfth at the next midnight |
| Extrema.AnnotateExtrema | main.py:89-127 | the loop raises exactly when the day's end is past the range of `datetime`; otherwise it produces exactly the window-by-window labels in window order |
| NoteLanes.NextLane | main.py:154 | the next lane wraps from 3 to 0 and is never the lane it starts from |
| NoteLanes.ChooseLane | main.py:149-154 | a note keeps lane `i mod 4` exactly when that lane was not used less than 7200 s before; otherwise it takes the next lane |
| NoteLanes.Placements | main.py:147-163 | every note is drawn once, in order, with its own time and text, in a lane from 0 to 3 |
| NoteLanes.LastX | main.py:146-165 | `note_last_x` only ever has keys 0 to 3 |
| NoteLanes.PlaceNotes | main.py:143-165 | the note loop places the notes exactly as `Placements` does |
| NoteLanes.LastInLane | main.py:165 | the last placement in a lane, if any, is one with that lane and no later placement uses it |
| NoteLanes.PlacementsPrefix | main.py:147-165 | the lanes of the first `k` notes do not depend on later notes |
| NoteLanes.LastXTracksLanes | main.py:146-165 | `note_last_x` holds exactly the lanes some note went into, each with the time of the last note placed there |
| NoteLanes.LastXUpdate | main.py:165 | placing a note sets its lane's entry to the note's time and leaves every other lane's entry as it was |
| NoteLanes.PlacementLane | main.py:148-154 | note `k`'s lane is chosen from the lane times left by the notes before it |
| NoteLanes.LaneRule | main.py:148-155 | note `k` is in lane `k mod 4` or the next one; it is in the next one exactly when the last earlier note in lane `k mod 4` is less than two hours before it |
| NoteLanes.MovedNoteNotRechecked | main.py:151-154 | five notes one minute apart put the second and the fifth in the same lane, less than two hours apart |
| GlucoseChart.Curve | main.py:72-73 | the curve holds each historic record's time and reading, in order |
| GlucoseChart.Scans | main.py:82-83 | the scan dots hold each scan record's time and reading, in order |
| GlucoseChart.PlotGlucoseCurve | main.py:63-165 | nothing is drawn exactly when there is no historic reading; it raises exactly when the first historic reading's day ends past the range of `datetime`; otherwise the chart shows the curve, the scan dots, the day of the first historic reading, its extrema labels and the notes in their lanes |
| GlucoseChart.PlottedChart | main.py:133-135 | the chart's day contains its first historic reading, every label lies in that day, and every note is in one of four lanes |
| GlucoseChart.OnCurve | main.py:72-78 | a historic record's label point lies on the drawn curve |
| GlucoseChart.OnScans | main.py:82-84 | a scan record without a historic value has its label point on its drawn scan dot |
| GlucoseChart.LabelsOnDrawnPoints | main.py:72-127 | when no scan record carries a historic value, every label sits on the curve or on a scan dot |

## Left out

- `set_chinese_font` and the font search: it only changes plotting settings and prints.
- Reading the file: `open`, UTF-8 decoding, `csv.reader` and skipping the first line are not modelled. The header and the data rows are inputs.
- All drawing calls to the plotting library: the figure, axis limits and ticks, the grey target band, titles, the grid, the layout, `plt.show()`. The model produces what each call receives.
- Floating-point positions: the label offsets (+10 and -20 points), the lane heights -0.15, -0.25, -0.35 and -0.45 times the y-limit of 350, and the arrow styles. The model keeps the lane index and the Above/Below mark instead.
- The `print` messages, including the one for the case with no historic data. That case is modelled as `NoHistoricData`.
- The `OverflowError` traceback: the model gives `DateOutOfRange` in its place. The labels drawn for windows 0 to 10 before it are discarded with the figure.
- The `__main__` block and its fixed file path.
- Timestamps.ParseDateTime: accepts only the zero-padded 16-character form of ASCII digits. `strptime` also accepts single-digit fields, some other whitespace, and non-ASCII decimal digits, which its `\d` matches.
- Numerals.ParseInt: accepts only ASCII digits and ASCII whitespace. `int()` also accepts `_` separators, non-ASCII decimal digits, and non-ASCII whitespace around the number (U+0085, U+00A0, U+3000 and the other Unicode spaces). The 4300-digit limit is CPython's default from 3.11 on; the model does not follow a limit changed with `sys.set_int_max_str_digits` or `PYTHONINTMAXSTRDIGITS`, nor older interpreters without one.
- Seconds and time zones: `%Y-%m-%d %H:%M` carries neither, so a timestamp is a whole number of minutes.
