/**
 * The rows of the glucose export and the records `load_glucose_data` builds
 * from them, with the record-type filters of `plot_glucose_curve`.
 */
module GlucoseData {
  import opened Wrappers
  import opened Seqs
  import opened Numerals
  import opened Timestamps

  /** Column positions of the export. */
  const TimestampColumn := 2
  const RecordTypeColumn := 3
  const HistoricColumn := 4
  const ScanColumn := 5
  const NotesColumn := 13

  /** Record types of the export. */
  const HistoricType := 0
  const ScanType := 1
  const NoteType := 6

  /** One record; `timestamp` counts minutes (see module Timestamps). */
  datatype Record = Record(
    timestamp: int,
    recordType: int,
    historicGlucose: Option<int>,
    scanGlucose: Option<int>,
    notes: Option<string>)

  /** An optional integer cell: blank is `None`, otherwise it must parse. */
  function ParseOptionalInt(cell: string): (r: Option<Option<int>>)
    ensures cell == "" ==> r == Some(None)
    ensures cell != "" ==> (r.Some? <==> ParseInt(cell).Some?)
    ensures r.Some? && cell != "" ==> r.value == ParseInt(cell)
  {
    if cell == "" then Some(None)
    else match ParseInt(cell)
      case Some(v) => Some(Some(v))
      case None => None
  }

  /** The conversion of one data row, `None` where the row is skipped. */
  function ParseRow(header: seq<string>, row: seq<string>): Option<Record> {
    if |row| < |header| || |row| <= NotesColumn then None
    else
      match (ParseTimestamp(row[TimestampColumn]), ParseInt(row[RecordTypeColumn]),
             ParseOptionalInt(row[HistoricColumn]), ParseOptionalInt(row[ScanColumn]))
      case (Some(t), Some(kind), Some(historic), Some(scan)) =>
        Some(Record(t, kind, historic, scan,
                    if row[NotesColumn] == "" then None else Some(row[NotesColumn])))
      case _ => None
  }

  /**
   * A row converts exactly when it is as long as the header, reaches the
   * notes column, and its timestamp, type and glucose cells parse; each
   * field is then the parsed cell, a blank cell giving `None`.
   */
  lemma ParseRowSpec(header: seq<string>, row: seq<string>)
    ensures ParseRow(header, row).Some? <==>
      && |row| >= |header|
      && |row| > NotesColumn
      && ParseTimestamp(row[TimestampColumn]).Some?
      && ParseInt(row[RecordTypeColumn]).Some?
      && (row[HistoricColumn] == "" || ParseInt(row[HistoricColumn]).Some?)
      && (row[ScanColumn] == "" || ParseInt(row[ScanColumn]).Some?)
    ensures ParseRow(header, row).Some? ==>
      var r := ParseRow(header, row).value;
      && ParseTimestamp(row[TimestampColumn]) == Some(r.timestamp)
      && ParseInt(row[RecordTypeColumn]) == Some(r.recordType)
      && r.historicGlucose == (if row[HistoricColumn] == "" then None else ParseInt(row[HistoricColumn]))
      && r.scanGlucose == (if row[ScanColumn] == "" then None else ParseInt(row[ScanColumn]))
      && r.notes == (if row[NotesColumn] == "" then None else Some(row[NotesColumn]))
  {
  }

  /** The conversion applied to every row, for a given header. */
  function Converter(header: seq<string>): seq<string> -> Option<Record> {
    row => ParseRow(header, row)
  }

  /** The records of the rows that convert, in row order. */
  function Survivors(header: seq<string>, rows: seq<seq<string>>): seq<Record> {
    FilterMap(rows, Converter(header))
  }

  /**
   * The row loop of `load_glucose_data`: each row that is too short or fails
   * to convert is passed over and the loop goes on.
   */
  method LoadGlucoseData(header: seq<string>, rows: seq<seq<string>>) returns (data: seq<Record>)
    ensures data == Survivors(header, rows)
  {
    data := [];
    for i := 0 to |rows|
      invariant data == FilterMap(rows[..i], Converter(header))
    {
      assert rows[..i + 1][..i] == rows[..i];
      var row := rows[i];
      if |row| < |header| {
        continue;
      }
      match ParseRow(header, row)
      case Some(rec) =>
        data := data + [rec];
      case None =>
    }
    assert rows[..|rows|] == rows;
  }

  /** The records kept from two stretches of rows are those of each, in order. */
  lemma SurvivorsConcat(header: seq<string>, rows: seq<seq<string>>, more: seq<seq<string>>)
    ensures Survivors(header, rows + more) == Survivors(header, rows) + Survivors(header, more)
  {
    FilterMapConcat(rows, more, Converter(header));
  }

  /** Some row of `rows` converts to `rec`. */
  predicate ConvertedFrom(rec: Record, header: seq<string>, rows: seq<seq<string>>) {
    exists k :: 0 <= k < |rows| && ParseRow(header, rows[k]) == Some(rec)
  }

  /** A record is loaded exactly when some row converts to it; there are never more records than rows. */
  lemma SurvivorsFromRows(header: seq<string>, rows: seq<seq<string>>)
    ensures |Survivors(header, rows)| <= |rows|
    ensures forall rec :: rec in Survivors(header, rows) <==> ConvertedFrom(rec, header, rows)
  {
    var f := Converter(header);
    forall rec | rec in Survivors(header, rows)
      ensures ConvertedFrom(rec, header, rows)
    {
      FilterMapFrom(rows, f, rec);
      var k :| 0 <= k < |rows| && f(rows[k]) == Some(rec);
      assert ParseRow(header, rows[k]) == Some(rec);
    }
    forall rec | ConvertedFrom(rec, header, rows)
      ensures rec in Survivors(header, rows)
    {
      var k :| 0 <= k < |rows| && ParseRow(header, rows[k]) == Some(rec);
      assert f(rows[k]) == Some(rec);
      FilterMapHit(rows, f, k);
    }
  }

  /** A row that does not convert leaves the loaded records as they were. */
  lemma SkippedRow(header: seq<string>, rows: seq<seq<string>>, bad: seq<string>)
    requires ParseRow(header, bad).None?
    ensures Survivors(header, rows + [bad]) == Survivors(header, rows)
  {
    assert (rows + [bad])[..|rows|] == rows;
  }

  /** Python truthiness of an optional integer: neither `None` nor 0. */
  predicate Truthy(v: Option<int>) {
    v.Some? && v.value != 0
  }

  predicate IsHistoric(r: Record) {
    r.recordType == HistoricType && Truthy(r.historicGlucose)
  }

  predicate IsScan(r: Record) {
    r.recordType == ScanType && Truthy(r.scanGlucose)
  }

  predicate IsNote(r: Record) {
    r.recordType == NoteType && r.notes.Some? && r.notes.value != ""
  }

  function HistoricData(data: seq<Record>): seq<Record> {
    Filter(data, IsHistoric)
  }

  function ScanData(data: seq<Record>): seq<Record> {
    Filter(data, IsScan)
  }

  function NotesData(data: seq<Record>): seq<Record> {
    Filter(data, IsNote)
  }

  /**
   * The three filters select by record type and a present, truthy value,
   * keep file order, and never share a record.
   */
  lemma FilterSelection(data: seq<Record>, more: seq<Record>)
    ensures forall r :: r in HistoricData(data) <==> r in data && r.recordType == 0 && r.historicGlucose.Some? && r.historicGlucose.value != 0
    ensures forall r :: r in ScanData(data) <==> r in data && r.recordType == 1 && r.scanGlucose.Some? && r.scanGlucose.value != 0
    ensures forall r :: r in NotesData(data) <==> r in data && r.recordType == 6 && r.notes.Some? && |r.notes.value| > 0
    ensures HistoricData(data + more) == HistoricData(data) + HistoricData(more)
    ensures ScanData(data + more) == ScanData(data) + ScanData(more)
    ensures NotesData(data + more) == NotesData(data) + NotesData(more)
    ensures forall r :: r in ScanData(data) ==> r !in HistoricData(data) && r !in NotesData(data)
  {
    FilterConcat(data, more, IsHistoric);
    FilterConcat(data, more, IsScan);
    FilterConcat(data, more, IsNote);
  }

  /** A loaded note always has text: a blank notes cell becomes `None`. */
  lemma LoadedNotesHaveText(header: seq<string>, rows: seq<seq<string>>)
    ensures forall r :: r in Survivors(header, rows) && r.notes.Some? ==> r.notes.value != ""
  {
    forall r | r in Survivors(header, rows) && r.notes.Some?
      ensures r.notes.value != ""
    {
      SurvivorsFromRows(header, rows);
      var k :| 0 <= k < |rows| && ParseRow(header, rows[k]) == Some(r);
      ParseRowSpec(header, rows[k]);
    }
  }
}
