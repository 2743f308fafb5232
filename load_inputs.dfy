/** `prepare_inputs`: list and date columns are normalised in place, then the
    key columns are checked. Reading the parquet file is not modelled. */
module LoadInputs {
  import opened Cells
  import opened Frames
  import opened Utils

  const DefaultListColumns: seq<string> := [
    "work_author_ids",
    "work_author_positions",
    "work_author_positions_list",
    "patent_inventor_ids",
    "patent_assignee_names",
    "patent_assignee_types",
    "ipc_codes",
    "work_institution_names",
    "work_institution_types",
    "work_institution_country_codes",
    "institution_country_codes",
    "work_latlon_list",
    "patent_assignee_latlon_list",
    "work_referenced_works",
    "patent_cited_works",
    "work_reference_dates",
    "patent_reference_dates",
    "work_reference_age_days",
    "patent_reference_age_days",
    "work_reference_cited_by_counts",
    "patent_reference_cited_by_counts",
    "patent_doi_references"
  ]

  const DefaultDateColumns: seq<string> := ["work_publication_date", "patent_filing_date", "patent_date"]

  const Required: seq<string> := ["paper_id", "pair_source", "work_doi"]

  const NoPatentColumn: string := "prepare_inputs: missing required columns: patent_id or patent_id_us"

  /** `given or default`: an absent or empty list of names falls back. */
  function OrDefault(given: Option<seq<string>>, default: seq<string>): (r: seq<string>)
    ensures given.None? || given == Some([]) ==> r == default
    ensures given.Some? && given.value != [] ==> r == given.value
  {
    if given.Some? && given.value != [] then given.value else default
  }

  /** The frame's value after the two normalisation loops. */
  function Normalized(t: Table, listColumns: seq<string>, dateColumns: seq<string>,
                      literalEval: string -> Option<Cell>, toDate: Cell -> Option<int>): (r: Table)
    requires t.Valid()
    ensures r.Valid()
  {
    ApplyToColumns(ApplyToColumns(t, listColumns, Decoder(literalEval)), dateColumns, DateCoercer(toDate))
  }

  /** `prepare_inputs(df, list_columns, date_columns)`. The normalisation
      writes into the caller's frame before the checks, so a raise leaves the
      frame normalised. */
  function PrepareInputsSpec(t: Table, listColumns: Option<seq<string>>, dateColumns: Option<seq<string>>,
                             literalEval: string -> Option<Cell>, toDate: Cell -> Option<int>): (o: Outcome)
    requires t.Valid()
    ensures o.table.Valid()
  {
    var n := Normalized(t, OrDefault(listColumns, DefaultListColumns), OrDefault(dateColumns, DefaultDateColumns),
                        literalEval, toDate);
    var missing := MissingColumns(n.columns.Keys, Required);
    if missing != [] then Outcome(n, Fail(ValueError(MissingMessage("prepare_inputs", missing))))
    else if "patent_id_us" !in n.columns && "patent_id" !in n.columns then Outcome(n, Fail(ValueError(NoPatentColumn)))
    else Outcome(n, Ok)
  }

  /** `prepare_inputs`, updating `df` in place. */
  method PrepareInputs(f: Frame, listColumns: Option<seq<string>>, dateColumns: Option<seq<string>>,
                       literalEval: string -> Option<Cell>, toDate: Cell -> Option<int>) returns (status: Status)
    requires f.Valid()
    modifies f
    ensures f.Valid() && Outcome(f.View(), status) == PrepareInputsSpec(old(f.View()), listColumns, dateColumns, literalEval, toDate)
  {
    var lists := OrDefault(listColumns, DefaultListColumns);
    var dates := OrDefault(dateColumns, DefaultDateColumns);
    NormalizeListColumns(f, lists, literalEval);
    EnsureDatetime(f, dates, toDate);
    var missing := MissingColumns(f.columns.Keys, Required);
    if missing != [] {
      return Fail(ValueError(MissingMessage("prepare_inputs", missing)));
    }
    if "patent_id_us" !in f.columns && "patent_id" !in f.columns {
      return Fail(ValueError(NoPatentColumn));
    }
    status := Ok;
  }

  /** Normalisation keeps the rows and the set of columns: each listed column
      that is present is replaced by its decoded or coerced image (a column
      on both lists by both, decoding first), an absent one is not created,
      and the others are untouched. */
  lemma NormalizedColumns(t: Table, listColumns: seq<string>, dateColumns: seq<string>,
                          literalEval: string -> Option<Cell>, toDate: Cell -> Option<int>)
    requires t.Valid()
    ensures var r := Normalized(t, listColumns, dateColumns, literalEval, toDate);
      && r.rows == t.rows && r.columns.Keys == t.columns.Keys
      && forall n | n in t.columns ::
           var decoded := if n in listColumns then MapCells(t.columns[n], Decoder(literalEval)) else t.columns[n];
           r.columns[n] == if n in dateColumns then MapCells(decoded, DateCoercer(toDate)) else decoded
  {
    DecoderIdempotent(literalEval);
    DateCoercerIdempotent(toDate);
    ApplyToColumnsEffect(t, listColumns, Decoder(literalEval));
    ApplyToColumnsEffect(ApplyToColumns(t, listColumns, Decoder(literalEval)), dateColumns, DateCoercer(toDate));
  }

  /** The stage raises exactly when a key column or both patent columns are
      absent; the first message names every absent key column, in order. The
      checks see the same column names as the input. */
  lemma PrepareInputsStatus(t: Table, listColumns: Option<seq<string>>, dateColumns: Option<seq<string>>,
                            literalEval: string -> Option<Cell>, toDate: Cell -> Option<int>)
    requires t.Valid()
    ensures var o := PrepareInputsSpec(t, listColumns, dateColumns, literalEval, toDate);
      && o.table.rows == t.rows && o.table.columns.Keys == t.columns.Keys
      && (o.status == Ok <==>
            (forall c | c in Required :: c in t.columns) && ("patent_id_us" in t.columns || "patent_id" in t.columns))
      && ((exists c | c in Required :: c !in t.columns) ==>
            o.status == Fail(ValueError(MissingMessage("prepare_inputs", MissingColumns(t.columns.Keys, Required)))))
      && ((forall c | c in Required :: c in t.columns) && o.status != Ok ==> o.status == Fail(ValueError(NoPatentColumn)))
  {
    var lists := OrDefault(listColumns, DefaultListColumns);
    var dates := OrDefault(dateColumns, DefaultDateColumns);
    NormalizedColumns(t, lists, dates, literalEval, toDate);
    var missing := MissingColumns(t.columns.Keys, Required);
    if missing != [] {
      assert missing[0] in missing;
    }
  }
}
