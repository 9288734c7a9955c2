/** The processing steps of deploy_script.py's `main`, from the generated
    table to the final report: paginate, write the envelope, read it back,
    clean, aggregate. */
module Pipeline {
  import opened Common
  import Csv
  import Pagination
  import Envelope
  import Report

  /** `rows_page`. */
  const RowsPage: nat := 1000

  /** The whole run for a given table. Records whose text fields need no CSV
      quoting survive the envelope unchanged, so the report is the one of
      the cleaned input table; an empty table has no page to concatenate. */
  method Run(similarity: (string, string) -> real, table: Report.Table)
    returns (r: Result<map<string, Report.ReportRow>>)
    ensures (forall t :: t in table ==> Csv.PlainTransaction(t)) ==>
              r == if table == [] then Err(NothingToConcatenate)
                   else Report.Aggregate(Report.CleanTable(similarity, table))
  {
    var paged := Pagination.Paginate(table, RowsPage);
    assert paged.Ok?;  // the page size is positive
    var pages := paged.value;
    var envelope := Envelope.Csv2Json(pages);
    var df := Envelope.ReadFromApi(envelope);
    if (forall t :: t in table ==> Csv.PlainTransaction(t)) {
      Envelope.TableRoundTrip(table, RowsPage, pages);
    }
    if df.Err? {
      return Err(df.error);
    }
    var cleaned := Report.CleanTable(similarity, df.value);
    r := Report.Aggregate(cleaned);
  }
}
