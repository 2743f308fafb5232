/** `add_citation_overlap`: the per-row citation overlap score. */
module CitationOverlap {
  import opened Cells
  import opened Frames
  import opened Utils
  import opened Scores

  const Required: seq<string> := ["patent_cited_works", "work_referenced_works"]

  /** The frame after `add_citation_overlap` and whether it raised. */
  function CitationOverlapSpec(t: Table): (o: Outcome)
    requires t.Valid()
    ensures o.table.Valid() && o.table.rows == t.rows
    ensures o.status != Ok ==> o.table == t
    ensures o.status == Ok ==> "patent_cited_works" in t.columns && "work_referenced_works" in t.columns
  {
    var req := RequireColumns(t.columns.Keys, Required, "citation_overlap");
    if req != Ok then Outcome(t, req)
    else
      assert Required[1] in Required;
      Outcome(t.With("citation_overlap_score",
                ZipCells(t.columns["patent_cited_works"], t.columns["work_referenced_works"], CitationOverlapScore)), Ok)
  }

  /** `add_citation_overlap(df)`, updating `df` in place. */
  method AddCitationOverlap(f: Frame) returns (status: Status)
    requires f.Valid()
    modifies f
    ensures f.Valid() && Outcome(f.View(), status) == CitationOverlapSpec(old(f.View()))
  {
    status := RequireColumns(f.columns.Keys, Required, "citation_overlap");
    if status == Ok {
      f.SetColumn("citation_overlap_score",
        ZipCells(f.columns["patent_cited_works"], f.columns["work_referenced_works"], CitationOverlapScore));
    }
  }

  lemma CitationOverlapStatus(t: Table)
    requires t.Valid()
    ensures var o := CitationOverlapSpec(t);
      && (o.status == Ok <==> "patent_cited_works" in t.columns && "work_referenced_works" in t.columns)
      && (o.status != Ok ==>
            o.status == Fail(ValueError(MissingMessage("citation_overlap", MissingColumns(t.columns.Keys, Required)))))
  {
    if "patent_cited_works" in t.columns && "work_referenced_works" in t.columns {
      forall c | c in Required ensures c in t.columns {
        assert c == Required[0] || c == Required[1];
      }
    } else {
      assert Required[0] in Required && Required[1] in Required;
    }
  }

  /** Each row's score is computed from that row's two cells only, with the
      patent's cited works as the denominator side; it is missing or a
      fraction in [0, 1]. No other column changes. */
  lemma CitationOverlapRow(t: Table, i: int)
    requires t.Valid() && CitationOverlapSpec(t).status == Ok && 0 <= i < t.rows
    ensures var r := CitationOverlapSpec(t).table;
      && r.columns["citation_overlap_score"][i]
         == CitationOverlapScore(t.columns["patent_cited_works"][i], t.columns["work_referenced_works"][i])
      && (r.columns["citation_overlap_score"][i].Missing?
          || 0.0 <= r.columns["citation_overlap_score"][i].r <= 1.0)
      && r.columns.Keys == t.columns.Keys + {"citation_overlap_score"}
      && forall n :: n in t.columns && n != "citation_overlap_score" ==> r.columns[n] == t.columns[n]
  {
  }
}
