/** `add_patent_claims`: the claim counts are prepared upstream; the stage
    only checks that they are there. */
module PatentClaims {
  import opened Text
  import opened Cells
  import opened Frames
  import opened Utils

  const Required: seq<string> := ["patent_num_claims", "patent_first_claim_length"]

  /** `add_patent_claims(df)`: the frame itself, or the guard's error. */
  function AddPatentClaims(t: Table): (r: Result<Table>)
    ensures r.Success? <==> "patent_num_claims" in t.columns && "patent_first_claim_length" in t.columns
    ensures r.Success? ==> r.value == t
    ensures r.Failure? ==> r.error == ValueError(MissingMessage("patent_claims", MissingColumns(t.columns.Keys, Required)))
  {
    assert Required[0] in Required && Required[1] in Required;
    match RequireColumns(t.columns.Keys, Required, "patent_claims")
    case Ok => Success(t)
    case Fail(e) => Failure(e)
  }

  /** With both columns absent both are named, counts first. */
  lemma PatentClaimsBothMissing(t: Table)
    requires "patent_num_claims" !in t.columns && "patent_first_claim_length" !in t.columns
    ensures AddPatentClaims(t)
      == Failure(ValueError(MissingMessage("patent_claims", ["patent_num_claims", "patent_first_claim_length"])))
  {
    assert MissingColumns(t.columns.Keys, Required) == Required;
  }

  /** With one column absent only that one is named. */
  lemma PatentClaimsOneMissing(t: Table)
    requires "patent_num_claims" in t.columns && "patent_first_claim_length" !in t.columns
    ensures AddPatentClaims(t) == Failure(ValueError(MissingMessage("patent_claims", ["patent_first_claim_length"])))
  {
    assert MissingColumns(t.columns.Keys, Required) == ["patent_first_claim_length"];
  }
}
