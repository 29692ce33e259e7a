/**
 The part of `generate_excel` that decides what is written: nothing, with a
 warning, when there are no records; otherwise one sheet whose columns are
 the two record keys, one row per record in order, with no index column.
 */
module Exporter {
  import opened Options
  import opened Extractor

  const ShortNameColumn: string := "Short Name"
  const DefinitionRefColumn: string := "Definition Ref"
  const NoDataMessage: string := "No data to create Excel file."

  /** A cell holds the record's value; a `None` value is an empty cell. */
  datatype Sheet = Sheet(header: seq<string>, rows: seq<seq<Option<string>>>)

  datatype Export = NoData(warning: string) | Write(sheet: Sheet)

  function Row(r: Record): seq<Option<string>> {
    [r.shortName, r.definitionRef]
  }

  /** What `generate_excel` writes for `data`. */
  function GenerateExcel(data: seq<Record>): (e: Export)
    ensures e.NoData? <==> data == []
    ensures e.NoData? ==> e.warning == NoDataMessage
    ensures e.Write? ==> e.sheet.header == [ShortNameColumn, DefinitionRefColumn]
                         && |e.sheet.rows| == |data|
                         && forall i :: 0 <= i < |data| ==> |e.sheet.rows[i]| == 2
  {
    if data == [] then NoData(NoDataMessage)
    else Write(Sheet([ShortNameColumn, DefinitionRefColumn], seq(|data|, i requires 0 <= i < |data| => Row(data[i]))))
  }

  /** Reading the rows of a sheet back as records, column by column. */
  function ReadBack(s: Sheet): seq<Record>
    requires forall i :: 0 <= i < |s.rows| ==> |s.rows[i]| == 2
  {
    seq(|s.rows|, i requires 0 <= i < |s.rows| && |s.rows[i]| == 2 => Record(s.rows[i][0], s.rows[i][1]))
  }

  /** Writing non-empty data and reading the sheet back gives the same
      records in the same order. */
  lemma ExportRoundTrip(data: seq<Record>)
    requires data != []
    ensures GenerateExcel(data).Write? && ReadBack(GenerateExcel(data).sheet) == data
  {
  }
}
