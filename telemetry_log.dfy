/**
 * The append-only CSV log tide_sensor_data.csv: write_data_to_file,
 * read_data_from_file and the Delete Data action. The file is a list of
 * text lines, or None while it does not exist; a line is one CSV record
 * with comma-separated, unquoted fields.
 */
module TelemetryLog {
  import opened Wrappers
  import opened Decimal
  import Text
  import Timestamps
  import Lists
  import opened MessageParser

  /** One tuple of the data list and one row of the log: (timestamp, battery, solar, ultrasonic, rssi). */
  datatype Measurement = Measurement(stamp: Timestamps.Timestamp, battery: Reading, solar: Reading,
                                     ultrasonic: Reading, rssi: Reading)

  /** The shape the reader produces: two voltages, then two integers. */
  predicate WellTyped(m: Measurement)
  {
    m.battery.Volts? && m.solar.Volts? && m.ultrasonic.Int? && m.rssi.Int?
  }

  /** The measurement as it is stored: the timestamp at second precision. */
  function AtSeconds(m: Measurement): Measurement
  {
    m.(stamp := Timestamps.Truncate(m.stamp))
  }

  function AllAtSeconds(ms: seq<Measurement>): seq<Measurement>
  {
    Lists.Map(AtSeconds, ms)
  }

  const HeaderFields: seq<string> :=
    ["Timestamp", "Battery Voltage (V)", "Solar Voltage (V)", "Ultrasonic Range", "RSSI"]

  /** The header record written when the file is created. */
  const Header: string := Text.Join(HeaderFields)

  /** str() of a value: an int as itself, a voltage as the repr of its float. */
  function ReadingText(r: Reading): string
  {
    match r
    case Int(n) => IntText(n)
    case Volts(m) => MilliText(m)
  }

  function RowFields(m: Measurement): seq<string>
  {
    [Timestamps.Format(m.stamp), ReadingText(m.battery), ReadingText(m.solar),
     ReadingText(m.ultrasonic), ReadingText(m.rssi)]
  }

  /** writer.writerow of one (formatted timestamp, battery, solar, ultrasonic, rssi) tuple. */
  function EncodeRow(m: Measurement): string
  {
    Text.Join(RowFields(m))
  }

  /** The records of the rows, in order. */
  function EncodeRows(ms: seq<Measurement>): seq<string>
  {
    Lists.Map(EncodeRow, ms)
  }

  /** The comprehension's element for one record; None where strptime, float() or row[k] would raise. */
  function DecodeRow(line: string): Option<Measurement>
  {
    var cols := Text.Split(line);
    if |cols| < 5 then None
    else
      match (Timestamps.Parse(cols[0]), ParseMilli(cols[1]), ParseMilli(cols[2]),
             ParseInt(cols[3]), ParseInt(cols[4]))
      case (Some(t), Some(b), Some(s), Some(u), Some(r)) =>
        Some(Measurement(t, Volts(b), Volts(s), Int(u), Int(r)))
      case _ => None
  }

  /** All records decoded in order, or None as soon as one of them cannot be. */
  function DecodeAll(lines: seq<string>): Option<seq<Measurement>>
  {
    Lists.MapAll(DecodeRow, lines)
  }

  /** read_data_from_file: every exception is swallowed and gives []. */
  function ReadRows(file: Option<seq<string>>): (rows: seq<Measurement>)
    ensures file.None? ==> rows == []
    ensures file == Some([]) ==> rows == []
    ensures file.Some? && |file.value| >= 1 && DecodeAll(file.value[1..]).None? ==> rows == []
    ensures file.Some? && |file.value| >= 1 && DecodeAll(file.value[1..]).Some? ==>
              |rows| == |file.value| - 1
              && forall i :: 1 <= i < |file.value| ==> DecodeRow(file.value[i]) == Some(rows[i - 1])
  {
    match file
    case None => []
    case Some(lines) =>
      if lines == [] then []
      else
        match DecodeAll(lines[1..])
        case None => []
        case Some(rows) =>
          assert forall i :: 1 <= i < |lines| ==> lines[i] == lines[1..][i - 1];
          rows
  }

  /** The lines the writer appends to: the existing file, or a fresh file holding the header. */
  function Existing(file: Option<seq<string>>): seq<string>
  {
    match file
    case None => [Header]
    case Some(lines) => lines
  }

  /** The file after write_data_to_file; canOpen is false when open() fails, and nothing changes. */
  function Appended(file: Option<seq<string>>, rows: seq<Measurement>, canOpen: bool): (r: Option<seq<string>>)
    ensures !canOpen ==> r == file
    ensures canOpen && file.Some? ==> r.Some? && file.value <= r.value
    ensures canOpen && file.None? ==> r.Some? && |r.value| >= 1 && r.value[0] == Header
  {
    if !canOpen then file else Some(Existing(file) + EncodeRows(rows))
  }

  /**
   * A successful write keeps every existing line, adds the header first only
   * when there was no file, and then one record per row, in order.
   */
  lemma AppendedLines(file: Option<seq<string>>, rows: seq<Measurement>)
    ensures file.None? ==> Existing(file) == [Header]
    ensures file.Some? ==> Existing(file) == file.value
    ensures |Appended(file, rows, true).value| == |Existing(file)| + |rows|
    ensures Appended(file, rows, true).value[..|Existing(file)|] == Existing(file)
    ensures forall i :: 0 <= i < |rows| ==> Appended(file, rows, true).value[|Existing(file)| + i] == EncodeRow(rows[i])
  {
    Lists.Appends(Existing(file), EncodeRows(rows));
    Lists.MapAt(EncodeRow, rows);
  }

  /** A file the reader fully decodes: absent, or a first line followed by decodable records. */
  predicate Intact(file: Option<seq<string>>)
  {
    file.None? || (|file.value| >= 1 && DecodeAll(file.value[1..]).Some?)
  }

  lemma ReadingTextNoComma(r: Reading)
    ensures Text.NoComma(ReadingText(r))
  {
  }

  /** A written record reads back as the measurement at second precision. */
  lemma RowRoundTrip(m: Measurement)
    requires WellTyped(m)
    ensures DecodeRow(EncodeRow(m)) == Some(AtSeconds(m))
  {
    var cols := RowFields(m);
    Timestamps.FormatNoComma(m.stamp);
    ReadingTextNoComma(m.battery);
    ReadingTextNoComma(m.solar);
    ReadingTextNoComma(m.ultrasonic);
    ReadingTextNoComma(m.rssi);
    Text.SplitJoin(cols);
    Timestamps.FormatParse(m.stamp);
    MilliTextRoundTrip(m.battery.milli);
    MilliTextRoundTrip(m.solar.milli);
    IntTextRoundTrip(m.ultrasonic.n);
    IntTextRoundTrip(m.rssi.n);
  }

  /** Written records read back, in order, as the measurements at second precision. */
  lemma DecodeEncoded(ms: seq<Measurement>)
    requires forall i :: 0 <= i < |ms| ==> WellTyped(ms[i])
    ensures DecodeAll(EncodeRows(ms)) == Some(AllAtSeconds(ms))
  {
    forall i | 0 <= i < |ms| ensures DecodeRow(EncodeRow(ms[i])) == Some(AtSeconds(ms[i])) {
      RowRoundTrip(ms[i]);
    }
    Lists.MapAllAfterMap(DecodeRow, EncodeRow, AtSeconds, ms);
  }

  /**
   * Appending keeps the log readable, and a read afterwards returns the
   * earlier rows followed by the new ones; a failed open adds nothing.
   */
  lemma LoadAfterAppend(file: Option<seq<string>>, rows: seq<Measurement>, canOpen: bool)
    requires Intact(file)
    requires forall i :: 0 <= i < |rows| ==> WellTyped(rows[i])
    ensures Intact(Appended(file, rows, canOpen))
    ensures ReadRows(Appended(file, rows, canOpen))
            == ReadRows(file) + (if canOpen then AllAtSeconds(rows) else [])
  {
    if canOpen {
      LoadAfterWrite(file, rows);
      ReadRowsOf(Existing(file) + EncodeRows(rows));
    } else {
      assert ReadRows(file) + [] == ReadRows(file);
    }
  }

  /** The decoded records after a successful write: those before it, then the new rows. */
  lemma LoadAfterWrite(file: Option<seq<string>>, rows: seq<Measurement>)
    requires Intact(file)
    requires forall i :: 0 <= i < |rows| ==> WellTyped(rows[i])
    ensures DecodeAll(Existing(file)[1..]).Some?
    ensures DecodeAll(Existing(file)[1..]).value == ReadRows(file)
    ensures DecodeAll((Existing(file) + EncodeRows(rows))[1..])
            == Some(ReadRows(file) + AllAtSeconds(rows))
  {
    var ls := Existing(file);
    var written := EncodeRows(rows);
    Lists.DropFirst(ls, written);
    DecodeEncoded(rows);
    if file.None? {
      assert ls[1..] == [];
    }
    Lists.MapAllConcat(DecodeRow, ls[1..], written);
  }

  lemma ReadRowsOf(lines: seq<string>)
    requires |lines| >= 1 && DecodeAll(lines[1..]).Some?
    ensures ReadRows(Some(lines)) == DecodeAll(lines[1..]).value
  {
  }

  /** Writing rows to a missing (or deleted) file and reading it gives the rows back. */
  lemma FreshLogRoundTrip(rows: seq<Measurement>)
    requires forall i :: 0 <= i < |rows| ==> WellTyped(rows[i])
    ensures Appended(None, rows, true).value[0] == Header
    ensures ReadRows(Appended(None, rows, true)) == AllAtSeconds(rows)
  {
    LoadAfterAppend(None, rows, true);
  }

  /**
   * A file that exists but is empty gets no header, so the first row written
   * takes the header's place and is skipped by the next read.
   */
  lemma EmptyFileLosesFirstRow(rows: seq<Measurement>)
    requires |rows| >= 1
    requires forall i :: 0 <= i < |rows| ==> WellTyped(rows[i])
    ensures ReadRows(Appended(Some([]), rows, true)) == AllAtSeconds(rows[1..])
  {
    var written := EncodeRows(rows);
    assert Appended(Some([]), rows, true) == Some(written) by {
      assert [] + written == written;
    }
    Lists.MapDrop(EncodeRow, rows, 1);
    ReadAfterFirstLine(written, rows[1..]);
  }

  /** A file whose lines after the first are the records of some rows reads back as those rows. */
  lemma ReadAfterFirstLine(lines: seq<string>, rows: seq<Measurement>)
    requires |lines| >= 1 && lines[1..] == EncodeRows(rows)
    requires forall i :: 0 <= i < |rows| ==> WellTyped(rows[i])
    ensures ReadRows(Some(lines)) == AllAtSeconds(rows)
  {
    DecodeEncoded(rows);
    ReadRowsOf(lines);
  }

  /** Records read from the file carry no sub-second part, so storing them again changes nothing. */
  lemma ReadRowsAtSeconds(file: Option<seq<string>>)
    ensures AllAtSeconds(ReadRows(file)) == ReadRows(file)
  {
    var rows := ReadRows(file);
    Lists.MapAt(AtSeconds, rows);
    forall i | 0 <= i < |rows| ensures AtSeconds(rows[i]) == rows[i] {
      DecodeRowAtSeconds(file.value[i + 1]);
    }
  }

  lemma DecodeRowAtSeconds(line: string)
    requires DecodeRow(line).Some?
    ensures AtSeconds(DecodeRow(line).value) == DecodeRow(line).value
  {
  }

  /** The file after delete_data: absent, unless it existed and could not be removed. */
  function Deleted(file: Option<seq<string>>, canRemove: bool): (r: Option<seq<string>>)
    ensures r.None? <==> file.None? || canRemove
    ensures r.Some? ==> r == file
  {
    if file.Some? && !canRemove then file else None
  }

  /**
   * After a successful delete a read gives [], and the next write starts a
   * fresh file with the header that reads back as the rows written.
   */
  lemma DeleteThenWrite(file: Option<seq<string>>, rows: seq<Measurement>)
    requires forall i :: 0 <= i < |rows| ==> WellTyped(rows[i])
    ensures ReadRows(Deleted(file, true)) == []
    ensures Appended(Deleted(file, true), rows, true).value[0] == Header
    ensures ReadRows(Appended(Deleted(file, true), rows, true)) == AllAtSeconds(rows)
  {
    FreshLogRoundTrip(rows);
  }

  /** The file tide_sensor_data.csv, shared by the reader thread and the Delete Data button. */
  class CsvLog {
    var lines: Option<seq<string>>

    constructor (existing: Option<seq<string>>)
      ensures lines == existing
    {
      lines := existing;
    }

    /** write_data_to_file (lines 56-68). */
    method Write(rows: seq<Measurement>, canOpen: bool)
      modifies this
      ensures lines == Appended(old(lines), rows, canOpen)
    {
      if !canOpen {
        return;
      }
      var fileExists := lines.Some?;
      if !fileExists {
        lines := Some([Header]);
      }
      ghost var existing := Existing(old(lines));
      assert rows[..0] == [];
      assert lines.value == existing + EncodeRows(rows[..0]);
      for i := 0 to |rows|
        invariant lines == Some(existing + EncodeRows(rows[..i]))
      {
        var row := EncodeRow(rows[i]);
        Lists.MapPrefix(EncodeRow, rows, i);
        Lists.AppendOne(existing, EncodeRows(rows[..i]), row);
        lines := Some(lines.value + [row]);
      }
      assert rows[..|rows|] == rows;
    }

    /**
     * delete_data (lines 231-237): remove the file if it exists. canRemove is
     * false when os.remove fails; the exception then leaves the file in place.
     */
    method Delete(canRemove: bool)
      modifies this
      ensures lines == Deleted(old(lines), canRemove)
    {
      if lines.Some? {
        if !canRemove {
          return;
        }
        lines := None;
      }
    }
  }
}
