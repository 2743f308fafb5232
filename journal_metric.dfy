/** `add_journal_metric`: the journal impact is prepared upstream; the stage
    only checks that it is there. */
module JournalMetric {
  import opened Text
  import opened Cells
  import opened Frames
  import opened Utils

  const Required: seq<string> := ["journal_impact"]

  /** `add_journal_metric(df)`: the frame itself, or the guard's error. */
  function AddJournalMetric(t: Table): (r: Result<Table>)
    ensures r.Success? <==> "journal_impact" in t.columns
    ensures r.Success? ==> r.value == t
  {
    match RequireColumns(t.columns.Keys, Required, "journal_metric")
    case Ok => Success(t)
    case Fail(e) => Failure(e)
  }

  /** Without the column the error names it exactly. */
  lemma JournalMetricMessage(t: Table)
    requires "journal_impact" !in t.columns
    ensures AddJournalMetric(t) == Failure(ValueError(MissingMessage("journal_metric", ["journal_impact"])))
    ensures MissingMessage("journal_metric", ["journal_impact"])
      == "journal_metric" + ": missing required columns: " + "journal_impact"
  {
    assert MissingColumns(t.columns.Keys, Required) == ["journal_impact"];
  }
}
