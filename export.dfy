/** `prepare_export`: the final renaming, the missing-column guard and projection onto the
    published column list, and the stripping of characters Excel refuses. */
module Export {
  import opened Text
  import opened Cells
  import opened Frames
  import opened Utils

  /** `RENAME_MAP`, in its insertion order: (old name, new name). */
  const RenameMap: seq<(string, string)> := [
    ("patent_num_references", "patent_reference_list_length"),
    ("num_work_references", "work_reference_list_length"),
    ("work_reference_age_days_mean", "mean_age_of_work_references"),
    ("patent_reference_age_days_mean", "mean_age_of_patent_references"),
    ("relative_filing_date", "lag_days"),
    ("avg_haversine_km", "geographical_distance")]

  /** `FINAL_COLUMNS`, the published header in order. */
  const FinalColumns: seq<string> := [
    "patent_id", "patent_id_us", "paper_id", "work_doi", "pair_id", "pair_source",
    "author_team_size", "inventor_team_size", "team_size_difference",
    "multiple_assignee", "multiple_author_institution", "assignee_type", "author_type",
    "journal_impact", "word_overlap_score", "semantic_similarity_score", "citation_overlap_score",
    "previous_experience", "previous_experience_first_last",
    "primary_topic_display_name", "primary_subfield_display_name",
    "primary_field_display_name", "primary_domain_display_name",
    "wipo_fields", "ipc_codes", "ipc_sectors", "international_collab", "geographical_distance",
    "publication_year", "patent_priority_year", "lag_days",
    "mean_age_of_work_references", "mean_age_of_patent_references",
    "work_reference_cited_by_counts_mean", "patent_reference_cited_by_counts_mean",
    "work_reference_list_length", "patent_reference_list_length",
    "patent_num_claims", "patent_first_claim_length"]

  // ---------------------------------------------------------------------
  // _rename_columns

  /** One entry of the loop: rename when only the old name is there, drop
      the old column when both are, else nothing. */
  function RenameStep(t: Table, from: string, to: string): (r: Table)
    ensures r.rows == t.rows
    ensures t.Valid() ==> r.Valid()
  {
    if from in t.columns && to !in t.columns then
      Table((t.columns - {from})[to := t.columns[from]], t.rows)
    else if from in t.columns then t.Without({from})
    else t
  }

  /** The frame after the loop has handled `pairs`, in order. */
  function RenameAll(t: Table, pairs: seq<(string, string)>): (r: Table)
    ensures r.rows == t.rows
    ensures t.Valid() ==> r.Valid()
    decreases |pairs|
  {
    if pairs == [] then t
    else
      var last := pairs[|pairs| - 1];
      RenameStep(RenameAll(t, pairs[..|pairs| - 1]), last.0, last.1)
  }

  /** `_rename_columns(df)`: the loop that rebinds `df`. */
  method RenameColumns(t: Table) returns (r: Table)
    ensures r == RenameAll(t, RenameMap)
  {
    r := t;
    var k := 0;
    while k < |RenameMap|
      invariant 0 <= k <= |RenameMap|
      invariant r == RenameAll(t, RenameMap[..k])
    {
      assert RenameMap[..k + 1][..k] == RenameMap[..k];
      var (from, to) := RenameMap[k];
      if from in r.columns && to !in r.columns {
        r := Table((r.columns - {from})[to := r.columns[from]], r.rows);
      } else if from in r.columns {
        r := r.Without({from});
      }
      k := k + 1;
    }
    assert RenameMap[..k] == RenameMap;
  }

  /** Old names are distinct, new names are distinct, and no new name is an old one. */
  predicate WellFormed(pairs: seq<(string, string)>) {
    DistinctNames(pairs) && NoChain(pairs)
  }

  predicate DistinctNames(pairs: seq<(string, string)>) {
    forall i, j | 0 <= i < j < |pairs| :: pairs[i].0 != pairs[j].0 && pairs[i].1 != pairs[j].1
  }

  predicate NoChain(pairs: seq<(string, string)>) {
    forall i, j | 0 <= i < |pairs| && 0 <= j < |pairs| :: pairs[i].1 != pairs[j].0
  }

  lemma RenameMapDistinct()
    ensures DistinctNames(RenameMap)
  {
  }

  lemma RenameMapNoChain()
    ensures NoChain(RenameMap)
  {
  }

  lemma RenameMapWellFormed()
    ensures WellFormed(RenameMap)
  {
    RenameMapDistinct();
    RenameMapNoChain();
  }

  predicate Mentioned(pairs: seq<(string, string)>, n: string) {
    exists i :: 0 <= i < |pairs| && (pairs[i].0 == n || pairs[i].1 == n)
  }

  /** A column the map does not mention passes through as it is. */
  lemma {:induction false} RenameUntouched(t: Table, pairs: seq<(string, string)>, n: string)
    requires !Mentioned(pairs, n)
    ensures n in RenameAll(t, pairs).columns <==> n in t.columns
    ensures n in t.columns ==> RenameAll(t, pairs).columns[n] == t.columns[n]
    decreases |pairs|
  {
    if pairs != [] {
      var init := pairs[..|pairs| - 1];
      RenameUntouched(t, init, n);
    }
  }

  /** After the loop no old name of the map is a column. */
  lemma {:induction false} RenameOldGone(t: Table, pairs: seq<(string, string)>, i: int)
    requires WellFormed(pairs) && 0 <= i < |pairs|
    ensures pairs[i].0 !in RenameAll(t, pairs).columns
    decreases |pairs|
  {
    var init := pairs[..|pairs| - 1];
    var last := pairs[|pairs| - 1];
    assert WellFormed(init);
    if i < |init| {
      RenameOldGone(t, init, i);
      assert init[i] == pairs[i];
    }
  }

  /** The pair's new column: the old column's values when only the old one
      was there, the new column's own values when it already was, and
      nothing when neither was. */
  lemma {:induction false} RenameCarries(t: Table, pairs: seq<(string, string)>, i: int)
    requires WellFormed(pairs) && 0 <= i < |pairs|
    ensures var r := RenameAll(t, pairs);
      var (from, to) := pairs[i];
      && (to in r.columns <==> from in t.columns || to in t.columns)
      && (from in t.columns && to !in t.columns ==> r.columns[to] == t.columns[from])
      && (to in t.columns ==> r.columns[to] == t.columns[to])
    decreases |pairs|
  {
    var init := pairs[..|pairs| - 1];
    var last := pairs[|pairs| - 1];
    assert WellFormed(init);
    if i < |init| {
      assert init[i] == pairs[i];
      RenameCarries(t, init, i);
    } else {
      forall j | 0 <= j < |init| ensures init[j].0 != last.0 && init[j].1 != last.0
        && init[j].0 != last.1 && init[j].1 != last.1 {
        assert init[j] == pairs[j];
      }
      RenameUntouched(t, init, last.0);
      RenameUntouched(t, init, last.1);
    }
  }

  // ---------------------------------------------------------------------
  // prepare_export

  /** The exported sheet: its header in order and its columns. */
  datatype Sheet = Sheet(header: seq<string>, table: Table)

  function Stripped(col: seq<Cell>): (r: seq<Cell>)
    ensures |r| == |col|
  {
    MapCells(col, StripIllegalExcelChars)
  }

  function ExportMessage(missing: seq<string>): string {
    "prepare_export: missing required final columns: " + Join(missing, ", ")
  }

  /** `prepare_export(df)` as a value. */
  function ExportSpec(t: Table): (r: Result<Sheet>)
    requires t.Valid()
    ensures r.Failure? ==> r.error == ValueError(ExportMessage(MissingColumns(RenameAll(t, RenameMap).columns.Keys, FinalColumns)))
    ensures r.Success? ==> r.value.header == FinalColumns && r.value.table.Valid() && r.value.table.rows == t.rows
  {
    var renamed := RenameAll(t, RenameMap);
    var missing := MissingColumns(renamed.columns.Keys, FinalColumns);
    if missing != [] then Failure(ValueError(ExportMessage(missing)))
    else
      Success(Sheet(FinalColumns, Table(map c | c in FinalColumns :: Stripped(renamed.columns[c]), t.rows)))
  }

  /** `prepare_export(df)`. The caller's frame is not changed: every step
      works on a new frame. */
  method PrepareExport(t: Table) returns (r: Result<Sheet>)
    requires t.Valid()
    ensures r == ExportSpec(t)
  {
    var renamed := RenameColumns(t);
    var missing := MissingColumns(renamed.columns.Keys, FinalColumns);
    if missing != [] {
      return Failure(ValueError(ExportMessage(missing)));
    }
    r := Success(Sheet(FinalColumns, Table(map c | c in FinalColumns :: Stripped(renamed.columns[c]), t.rows)));
  }

  /** The export raises exactly when a final column is absent after renaming. */
  lemma ExportStatus(t: Table)
    requires t.Valid()
    ensures ExportSpec(t).Success? <==>
      forall c :: c in FinalColumns ==> c in RenameAll(t, RenameMap).columns
  {
    var missing := MissingColumns(RenameAll(t, RenameMap).columns.Keys, FinalColumns);
    if missing != [] {
      assert missing[0] in missing;
    }
  }

  /** The sheet has exactly the final columns, each the renamed frame's
      column with illegal characters removed from its strings; other cells
      are as they were. */
  lemma ExportColumns(t: Table, c: string, i: int)
    requires t.Valid() && ExportSpec(t).Success? && c in FinalColumns && 0 <= i < t.rows
    ensures var s := ExportSpec(t).value.table;
      var renamed := RenameAll(t, RenameMap);
      && s.columns.Keys == set n | n in FinalColumns
      && c in renamed.columns
      && (renamed.columns[c][i].Str? ==> s.columns[c][i] == Str(StripIllegal(renamed.columns[c][i].s)))
      && (!renamed.columns[c][i].Str? ==> s.columns[c][i] == renamed.columns[c][i])
  {
    ExportStatus(t);
  }

  /** A published column that the map renames comes from the old column when
      the new name was absent. */
  lemma ExportRenamed(t: Table, i: int, k: int)
    requires t.Valid() && ExportSpec(t).Success? && 0 <= i < |RenameMap| && 0 <= k < t.rows
    requires RenameMap[i].0 in t.columns && RenameMap[i].1 !in t.columns
    ensures RenameMap[i].1 in ExportSpec(t).value.table.columns
    ensures ExportSpec(t).value.table.columns[RenameMap[i].1][k]
      == StripIllegalExcelChars(t.columns[RenameMap[i].0][k])
  {
    RenameMapWellFormed();
    RenameCarries(t, RenameMap, i);
    assert RenameMap[i].1 in FinalColumns by {
      assert i == 0 || i == 1 || i == 2 || i == 3 || i == 4 || i == 5;
    }
  }

  /** No old name of the map is a published column. */
  lemma OldNamesNotFinal()
    ensures forall i, k | 0 <= i < |RenameMap| && 0 <= k < |FinalColumns| :: RenameMap[i].0 != FinalColumns[k]
  {
  }

  /** The loop does nothing to a frame that has none of the old names. */
  lemma {:induction false} RenameNoOld(t: Table, pairs: seq<(string, string)>)
    requires forall i | 0 <= i < |pairs| :: pairs[i].0 !in t.columns
    ensures RenameAll(t, pairs) == t
    decreases |pairs|
  {
    if pairs != [] {
      var init := pairs[..|pairs| - 1];
      forall i | 0 <= i < |init| ensures init[i].0 !in t.columns {
        assert init[i] == pairs[i];
      }
      RenameNoOld(t, init);
    }
  }

  lemma StrippedIdempotent(col: seq<Cell>)
    ensures Stripped(Stripped(col)) == Stripped(col)
  {
    forall k | 0 <= k < |col| ensures StripIllegalExcelChars(Stripped(col)[k]) == Stripped(col)[k] {
      if col[k].Str? {
        StripIllegalIdempotent(col[k].s);
      }
    }
  }

  /** Rebuilding a map of stripped columns over its own key list gives it back. */
  lemma RebuildStripped(m: map<string, seq<Cell>>, names: seq<string>)
    requires m.Keys == set n | n in names
    requires forall c | c in m :: Stripped(m[c]) == m[c]
    ensures (map c | c in names :: Stripped(m[c])) == m
  {
  }

  /** The exported columns are already free of illegal characters. */
  lemma ExportedStripped(t: Table)
    requires t.Valid() && ExportSpec(t).Success?
    ensures var s := ExportSpec(t).value.table;
      && s.columns.Keys == set n | n in FinalColumns
      && forall c | c in s.columns :: Stripped(s.columns[c]) == s.columns[c]
  {
    var renamed := RenameAll(t, RenameMap);
    var s := ExportSpec(t).value.table;
    ExportStatus(t);
    forall c | c in s.columns ensures Stripped(s.columns[c]) == s.columns[c] {
      StrippedIdempotent(renamed.columns[c]);
    }
  }

  /** The exported sheet carries none of the old names, so renaming it again
      does nothing. */
  lemma ExportedRenameNoop(t: Table)
    requires t.Valid() && ExportSpec(t).Success?
    ensures RenameAll(ExportSpec(t).value.table, RenameMap) == ExportSpec(t).value.table
  {
    var s := ExportSpec(t).value.table;
    ExportedStripped(t);
    OldNamesNotFinal();
    RenameNoOld(s, RenameMap);
  }

  /** Exporting an exported sheet again changes nothing. */
  lemma ExportIdempotent(t: Table)
    requires t.Valid() && ExportSpec(t).Success?
    ensures ExportSpec(ExportSpec(t).value.table) == ExportSpec(t)
  {
    var s := ExportSpec(t).value.table;
    ExportedStripped(t);
    ExportedRenameNoop(t);
    ExportStatus(s);
    RebuildStripped(s.columns, FinalColumns);
  }
}
