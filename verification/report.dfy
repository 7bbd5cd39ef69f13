/** The tabular report, at the level of rows and fields: a fixed header row
    followed by one three-field row per classification row. Quoting, line
    terminators and UTF-8 encoding belong to the CSV writer and are not
    modelled. */
module Report {
  import opened Wrappers
  import opened Classification

  const Header: seq<string> := ["ExternalId", "Status", "Details"]

  /** The fields `writer.writerow` receives for one row. */
  function Fields(row: Row): seq<string> {
    [row.id, row.status.Name(), row.detail]
  }

  /** `writer.writerows(result)`: one line of fields per row, in order. */
  function FieldRows(rows: seq<Row>): (lines: seq<seq<string>>)
    ensures |lines| == |rows|
    ensures forall i :: 0 <= i < |rows| ==> |lines[i]| == 3 && lines[i] == Fields(rows[i])
  {
    if rows == [] then [] else FieldRows(rows[..|rows| - 1]) + [Fields(rows[|rows| - 1])]
  }

  /** The empty-result check and the report: no report at all for an empty
      `result`, otherwise the header line followed by the rows' lines. */
  function Render(rows: seq<Row>): (report: Option<seq<seq<string>>>)
    ensures report.None? <==> rows == []
    ensures report.Some? ==>
              && |report.value| == |rows| + 1
              && report.value[0] == Header
              && (forall i :: 0 <= i < |report.value| ==> |report.value[i]| == 3)
              && (forall i :: 0 <= i < |rows| ==> report.value[i + 1] == Fields(rows[i]))
  {
    if rows == [] then None else Some([Header] + FieldRows(rows))
  }

  /** Reads a status column back. */
  function ParseStatus(name: string): Option<Status> {
    if name == "Preserved" then Some(Preserved)
    else if name == "Missing" then Some(Missing)
    else if name == "New" then Some(New)
    else None
  }

  /** Status names are distinct, so the status column identifies the status:
      reading a name gives back exactly the status it was written from. */
  lemma ParseStatusInverse(name: string, status: Status)
    ensures ParseStatus(name) == Some(status) <==> name == status.Name()
  {
  }

  /** Reads one report line back into a row; `None` unless it has three
      fields and a known status. */
  function ReadRow(fields: seq<string>): Option<Row> {
    if |fields| != 3 then None
    else match ParseStatus(fields[1])
      case Some(status) => Some(Row(fields[0], status, fields[2]))
      case None => None
  }

  /** Reads a sequence of data lines back into rows. */
  function ReadRows(lines: seq<seq<string>>): Option<seq<Row>> {
    if lines == [] then Some([])
    else match (ReadRows(lines[..|lines| - 1]), ReadRow(lines[|lines| - 1]))
      case (Some(rows), Some(row)) => Some(rows + [row])
      case _ => None
  }

  /** Reads a whole report: the header, then at least one data line. */
  function ReadReport(table: seq<seq<string>>): Option<seq<Row>> {
    if |table| < 2 || table[0] != Header then None else ReadRows(table[1..])
  }

  lemma {:induction false} ReadFieldRows(rows: seq<Row>)
    ensures ReadRows(FieldRows(rows)) == Some(rows)
  {
    if rows != [] {
      var n := |rows| - 1;
      ReadFieldRows(rows[..n]);
      var lines := FieldRows(rows);
      assert lines[..n] == FieldRows(rows[..n]);
      ParseStatusInverse(rows[n].status.Name(), rows[n].status);
      assert ReadRow(lines[n]) == Some(rows[n]);
      assert rows[..n] + [rows[n]] == rows;
    }
  }

  /** Whenever a report is produced it reads back to exactly the rows it was
      rendered from, in the same order. */
  lemma RenderRoundTrip(rows: seq<Row>)
    ensures Render(rows).Some? ==> ReadReport(Render(rows).value) == Some(rows)
  {
    if rows != [] {
      var table := Render(rows).value;
      assert table[1..] == FieldRows(rows);
      ReadFieldRows(rows);
    }
  }
}
