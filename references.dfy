/** `add_reference_features`: reference counts and mean ages / cited-by counts. */
module References {
  import opened Cells
  import opened Frames
  import opened Utils

  const Required: seq<string> := [
    "work_referenced_works", "patent_doi_references",
    "work_reference_age_days", "patent_reference_age_days",
    "work_reference_cited_by_counts", "patent_reference_cited_by_counts"]

  const Outputs: set<string> := {
    "num_work_references", "patent_num_references",
    "work_reference_age_days_mean", "patent_reference_age_days_mean",
    "work_reference_cited_by_counts_mean", "patent_reference_cited_by_counts_mean"}

  predicate Present(t: Table) {
    && "work_referenced_works" in t.columns && "patent_doi_references" in t.columns
    && "work_reference_age_days" in t.columns && "patent_reference_age_days" in t.columns
    && "work_reference_cited_by_counts" in t.columns && "patent_reference_cited_by_counts" in t.columns
  }

  lemma PresentIff(t: Table)
    ensures Present(t) <==> forall c :: c in Required ==> c in t.columns
  {
    if Present(t) {
      forall c | c in Required ensures c in t.columns {
        var k :| 0 <= k < |Required| && Required[k] == c;
        assert k == 0 || k == 1 || k == 2 || k == 3 || k == 4 || k == 5;
      }
    } else {
      assert Required[0] in Required && Required[1] in Required && Required[2] in Required;
      assert Required[3] in Required && Required[4] in Required && Required[5] in Required;
    }
  }

  /** The output column names differ from each other and from the inputs. */
  lemma NamesDiffer()
    ensures "num_work_references" != "patent_num_references"
    ensures "num_work_references" != "work_reference_age_days_mean"
    ensures "num_work_references" != "patent_reference_age_days_mean"
    ensures "num_work_references" != "work_reference_cited_by_counts_mean"
    ensures "num_work_references" != "patent_reference_cited_by_counts_mean"
    ensures "patent_num_references" != "work_reference_age_days_mean"
    ensures "patent_num_references" != "patent_reference_age_days_mean"
    ensures "patent_num_references" != "work_reference_cited_by_counts_mean"
    ensures "patent_num_references" != "patent_reference_cited_by_counts_mean"
    ensures "work_reference_age_days_mean" != "patent_reference_age_days_mean"
    ensures "work_reference_age_days_mean" != "work_reference_cited_by_counts_mean"
    ensures "work_reference_age_days_mean" != "patent_reference_cited_by_counts_mean"
    ensures "patent_reference_age_days_mean" != "work_reference_cited_by_counts_mean"
    ensures "patent_reference_age_days_mean" != "patent_reference_cited_by_counts_mean"
    ensures "work_reference_cited_by_counts_mean" != "patent_reference_cited_by_counts_mean"
    ensures "num_work_references" != "work_referenced_works"
    ensures "num_work_references" != "patent_doi_references"
    ensures "num_work_references" != "work_reference_age_days"
    ensures "num_work_references" != "patent_reference_age_days"
    ensures "num_work_references" != "work_reference_cited_by_counts"
    ensures "num_work_references" != "patent_reference_cited_by_counts"
    ensures "patent_num_references" != "work_referenced_works"
    ensures "patent_num_references" != "patent_doi_references"
    ensures "patent_num_references" != "work_reference_age_days"
    ensures "patent_num_references" != "patent_reference_age_days"
    ensures "patent_num_references" != "work_reference_cited_by_counts"
    ensures "patent_num_references" != "patent_reference_cited_by_counts"
    ensures "work_reference_age_days_mean" != "work_referenced_works"
    ensures "work_reference_age_days_mean" != "patent_doi_references"
    ensures "work_reference_age_days_mean" != "work_reference_age_days"
    ensures "work_reference_age_days_mean" != "patent_reference_age_days"
    ensures "work_reference_age_days_mean" != "work_reference_cited_by_counts"
    ensures "work_reference_age_days_mean" != "patent_reference_cited_by_counts"
    ensures "patent_reference_age_days_mean" != "work_referenced_works"
    ensures "patent_reference_age_days_mean" != "patent_doi_references"
    ensures "patent_reference_age_days_mean" != "work_reference_age_days"
    ensures "patent_reference_age_days_mean" != "patent_reference_age_days"
    ensures "patent_reference_age_days_mean" != "work_reference_cited_by_counts"
    ensures "patent_reference_age_days_mean" != "patent_reference_cited_by_counts"
    ensures "work_reference_cited_by_counts_mean" != "work_referenced_works"
    ensures "work_reference_cited_by_counts_mean" != "patent_doi_references"
    ensures "work_reference_cited_by_counts_mean" != "work_reference_age_days"
    ensures "work_reference_cited_by_counts_mean" != "patent_reference_age_days"
    ensures "work_reference_cited_by_counts_mean" != "work_reference_cited_by_counts"
    ensures "work_reference_cited_by_counts_mean" != "patent_reference_cited_by_counts"
    ensures "patent_reference_cited_by_counts_mean" != "work_referenced_works"
    ensures "patent_reference_cited_by_counts_mean" != "patent_doi_references"
    ensures "patent_reference_cited_by_counts_mean" != "work_reference_age_days"
    ensures "patent_reference_cited_by_counts_mean" != "patent_reference_age_days"
    ensures "patent_reference_cited_by_counts_mean" != "work_reference_cited_by_counts"
    ensures "patent_reference_cited_by_counts_mean" != "patent_reference_cited_by_counts"
  {
  }

  /** The frame after the two count columns are written. */
  function WithCounts(t: Table): (r: Table)
    requires t.Valid() && Present(t)
    ensures r.Valid() && r.rows == t.rows
  {
    t.With("num_work_references", MapCells(t.columns["work_referenced_works"], SafeLen))
     .With("patent_num_references", MapCells(t.columns["patent_doi_references"], SafeLen))
  }

  /** The frame after `add_reference_features` and whether it raised. A mean
      column whose list holds a non-numeric entry raises, after the columns
      written before it. */
  function ReferencesSpec(t: Table): (o: Outcome)
    requires t.Valid()
    ensures o.table.Valid() && o.table.rows == t.rows
    ensures o.status == Ok ==> Present(t) && Outputs <= o.table.columns.Keys
  {
    var req := RequireColumns(t.columns.Keys, Required, "references");
    if req != Ok then Outcome(t, req)
    else
      PresentIff(t);
      NamesDiffer();
      var t0 := WithCounts(t);
      var m1 := TryMap(t.columns["work_reference_age_days"], MeanOrNan);
      var m2 := TryMap(t.columns["patent_reference_age_days"], MeanOrNan);
      var m3 := TryMap(t.columns["work_reference_cited_by_counts"], MeanOrNan);
      var m4 := TryMap(t.columns["patent_reference_cited_by_counts"], MeanOrNan);
      if m1.Failure? then Outcome(t0, Fail(m1.error))
      else
        var t1 := t0.With("work_reference_age_days_mean", m1.value);
        if m2.Failure? then Outcome(t1, Fail(m2.error))
        else
          var t2 := t1.With("patent_reference_age_days_mean", m2.value);
          if m3.Failure? then Outcome(t2, Fail(m3.error))
          else
            var t3 := t2.With("work_reference_cited_by_counts_mean", m3.value);
            if m4.Failure? then Outcome(t3, Fail(m4.error))
            else Outcome(t3.With("patent_reference_cited_by_counts_mean", m4.value), Ok)
  }

  /** `add_reference_features(df)`, updating `df` in place. */
  method AddReferenceFeatures(f: Frame) returns (status: Status)
    requires f.Valid()
    modifies f
    ensures f.Valid() && Outcome(f.View(), status) == ReferencesSpec(old(f.View()))
  {
    status := RequireColumns(f.columns.Keys, Required, "references");
    if status != Ok {
      return;
    }
    PresentIff(f.View());
    var m1 := TryMap(f.columns["work_reference_age_days"], MeanOrNan);
    var m2 := TryMap(f.columns["patent_reference_age_days"], MeanOrNan);
    var m3 := TryMap(f.columns["work_reference_cited_by_counts"], MeanOrNan);
    var m4 := TryMap(f.columns["patent_reference_cited_by_counts"], MeanOrNan);
    f.SetColumn("num_work_references", MapCells(f.columns["work_referenced_works"], SafeLen));
    f.SetColumn("patent_num_references", MapCells(f.columns["patent_doi_references"], SafeLen));
    if m1.Failure? {
      return Fail(m1.error);
    }
    f.SetColumn("work_reference_age_days_mean", m1.value);
    if m2.Failure? {
      return Fail(m2.error);
    }
    f.SetColumn("patent_reference_age_days_mean", m2.value);
    if m3.Failure? {
      return Fail(m3.error);
    }
    f.SetColumn("work_reference_cited_by_counts_mean", m3.value);
    if m4.Failure? {
      return Fail(m4.error);
    }
    f.SetColumn("patent_reference_cited_by_counts_mean", m4.value);
  }

  /** The stage raises a ValueError naming every absent input column, in
      the listed order, and otherwise only by a non-numeric list entry. */
  lemma ReferencesStatus(t: Table)
    requires t.Valid()
    ensures var o := ReferencesSpec(t);
      && (!Present(t) ==>
            o == Outcome(t, Fail(ValueError(MissingMessage("references", MissingColumns(t.columns.Keys, Required))))))
      && (o.status.Fail? && Present(t) ==> o.status == Fail(Crash))
  {
    PresentIff(t);
    if Present(t) {
      TryMapEffect(t.columns["work_reference_age_days"], MeanOrNan);
      TryMapEffect(t.columns["patent_reference_age_days"], MeanOrNan);
      TryMapEffect(t.columns["work_reference_cited_by_counts"], MeanOrNan);
      TryMapEffect(t.columns["patent_reference_cited_by_counts"], MeanOrNan);
    }
  }

  /** On success each derived column is the per-row map of its input. */
  lemma ReferencesValues(t: Table)
    requires t.Valid() && ReferencesSpec(t).status == Ok
    ensures var o := ReferencesSpec(t);
      && (forall n :: n in Outputs ==> n in o.table.columns)
      && o.table.columns["num_work_references"] == MapCells(t.columns["work_referenced_works"], SafeLen)
      && o.table.columns["patent_num_references"] == MapCells(t.columns["patent_doi_references"], SafeLen)
      && TryMap(t.columns["work_reference_age_days"], MeanOrNan)
         == Success(o.table.columns["work_reference_age_days_mean"])
      && TryMap(t.columns["patent_reference_age_days"], MeanOrNan)
         == Success(o.table.columns["patent_reference_age_days_mean"])
      && TryMap(t.columns["work_reference_cited_by_counts"], MeanOrNan)
         == Success(o.table.columns["work_reference_cited_by_counts_mean"])
      && TryMap(t.columns["patent_reference_cited_by_counts"], MeanOrNan)
         == Success(o.table.columns["patent_reference_cited_by_counts_mean"])
  {
    NamesDiffer();
  }

  /** The counts are the list lengths of the referenced works and of the
      patent's DOI references (not of its cited works). */
  lemma ReferencesCounts(t: Table, i: int)
    requires t.Valid() && ReferencesSpec(t).status == Ok && 0 <= i < t.rows
    ensures var r := ReferencesSpec(t).table;
      && r.columns["num_work_references"][i] == SafeLen(t.columns["work_referenced_works"][i])
      && r.columns["patent_num_references"][i] == SafeLen(t.columns["patent_doi_references"][i])
  {
    ReferencesValues(t);
  }

  /** Each mean column holds the mean of its list's non-null entries. */
  lemma ReferencesMeans(t: Table, i: int)
    requires t.Valid() && ReferencesSpec(t).status == Ok && 0 <= i < t.rows
    ensures var r := ReferencesSpec(t).table;
      && MeanOrNan(t.columns["work_reference_age_days"][i]).Success?
      && MeanOrNan(t.columns["patent_reference_age_days"][i]).Success?
      && MeanOrNan(t.columns["work_reference_cited_by_counts"][i]).Success?
      && MeanOrNan(t.columns["patent_reference_cited_by_counts"][i]).Success?
      && r.columns["work_reference_age_days_mean"][i] == MeanOrNan(t.columns["work_reference_age_days"][i]).value
      && r.columns["patent_reference_age_days_mean"][i] == MeanOrNan(t.columns["patent_reference_age_days"][i]).value
      && r.columns["work_reference_cited_by_counts_mean"][i]
         == MeanOrNan(t.columns["work_reference_cited_by_counts"][i]).value
      && r.columns["patent_reference_cited_by_counts_mean"][i]
         == MeanOrNan(t.columns["patent_reference_cited_by_counts"][i]).value
  {
    ReferencesValues(t);
    TryMapEffect(t.columns["work_reference_age_days"], MeanOrNan);
    TryMapEffect(t.columns["patent_reference_age_days"], MeanOrNan);
    TryMapEffect(t.columns["work_reference_cited_by_counts"], MeanOrNan);
    TryMapEffect(t.columns["patent_reference_cited_by_counts"], MeanOrNan);
  }

  /** A mean is missing, never 0, for a non-list or an all-null list. */
  lemma ReferencesMeanMissing(t: Table, i: int)
    requires t.Valid() && ReferencesSpec(t).status == Ok && 0 <= i < t.rows
    requires var c := t.columns["work_reference_age_days"][i];
      !c.List? || forall x :: x in c.items ==> x.Missing?
    ensures ReferencesSpec(t).table.columns["work_reference_age_days_mean"][i] == Missing
  {
    ReferencesMeans(t, i);
  }

  /** Only the six derived columns are written. */
  lemma ReferencesColumns(t: Table)
    requires t.Valid() && ReferencesSpec(t).status == Ok
    ensures var r := ReferencesSpec(t).table;
      && r.columns.Keys == t.columns.Keys + Outputs
      && forall n :: n in t.columns && n !in Outputs ==> r.columns[n] == t.columns[n]
  {
    PresentIff(t);
  }
}
