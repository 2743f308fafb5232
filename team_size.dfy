/** `add_team_size_features`: author and inventor counts and their difference. */
module TeamSize {
  import opened Cells
  import opened Frames
  import opened Utils

  const Required: seq<string> := ["work_author_ids", "patent_inventor_ids"]

  /** Subtraction of two nullable integer cells: missing if either is. */
  function Difference(a: Cell, b: Cell): (r: Cell)
    ensures r.Int? <==> a.Int? && b.Int?
    ensures r.Int? ==> r.i == a.i - b.i
    ensures !r.Int? ==> r == Missing
  {
    if a.Int? && b.Int? then Int(a.i - b.i) else Missing
  }

  /** The frame after `add_team_size_features` and whether it raised. */
  function TeamSizeSpec(t: Table): (o: Outcome)
    requires t.Valid()
    ensures o.table.Valid() && o.table.rows == t.rows
    ensures o.status != Ok ==> o.table == t
  {
    var req := RequireColumns(t.columns.Keys, Required, "team_size");
    if req != Ok then Outcome(t, req)
    else
      var a := MapCells(t.columns["work_author_ids"], SafeLen);
      var b := MapCells(t.columns["patent_inventor_ids"], SafeLen);
      Outcome(t.With("author_team_size", a).With("inventor_team_size", b)
               .With("team_size_difference", ZipCells(a, b, Difference)), Ok)
  }

  /** `add_team_size_features(df)`, updating `df` in place. */
  method AddTeamSizeFeatures(f: Frame) returns (status: Status)
    requires f.Valid()
    modifies f
    ensures f.Valid() && Outcome(f.View(), status) == TeamSizeSpec(old(f.View()))
  {
    status := RequireColumns(f.columns.Keys, Required, "team_size");
    if status != Ok {
      return;
    }
    var a := MapCells(f.columns["work_author_ids"], SafeLen);
    var b := MapCells(f.columns["patent_inventor_ids"], SafeLen);
    f.SetColumn("author_team_size", a);
    f.SetColumn("inventor_team_size", b);
    f.SetColumn("team_size_difference", ZipCells(f.columns["author_team_size"], f.columns["inventor_team_size"], Difference));
  }

  /** The stage raises exactly when an input list column is absent. */
  lemma TeamSizeStatus(t: Table)
    requires t.Valid()
    ensures var o := TeamSizeSpec(t);
      && (o.status == Ok <==> "work_author_ids" in t.columns && "patent_inventor_ids" in t.columns)
      && (o.status != Ok ==>
            o.status == Fail(ValueError(MissingMessage("team_size", MissingColumns(t.columns.Keys, Required)))))
  {
    if "work_author_ids" in t.columns && "patent_inventor_ids" in t.columns {
      forall c | c in Required ensures c in t.columns {
        assert c == Required[0] || c == Required[1];
      }
    } else {
      assert Required[0] in Required && Required[1] in Required;
    }
  }

  /** Each row: the two sizes are the list lengths (missing for a non-list,
      never negative), and the difference is missing unless both are defined. */
  lemma TeamSizeRow(t: Table, i: int)
    requires t.Valid() && TeamSizeSpec(t).status == Ok && 0 <= i < t.rows
    ensures var r := TeamSizeSpec(t).table;
      var authors := t.columns["work_author_ids"][i];
      var inventors := t.columns["patent_inventor_ids"][i];
      && r.columns["author_team_size"][i] == (if authors.List? then Int(|authors.items|) else Missing)
      && r.columns["inventor_team_size"][i] == (if inventors.List? then Int(|inventors.items|) else Missing)
      && (r.columns["author_team_size"][i].Int? ==> r.columns["author_team_size"][i].i >= 0)
      && (r.columns["inventor_team_size"][i].Int? ==> r.columns["inventor_team_size"][i].i >= 0)
      && r.columns["team_size_difference"][i]
         == (if authors.List? && inventors.List? then Int(|authors.items| - |inventors.items|) else Missing)
  {
  }

  /** Only the three size columns are written. */
  lemma TeamSizeColumns(t: Table)
    requires t.Valid() && TeamSizeSpec(t).status == Ok
    ensures var r := TeamSizeSpec(t).table;
      && r.columns.Keys == t.columns.Keys + {"author_team_size", "inventor_team_size", "team_size_difference"}
      && forall n :: n in t.columns && n !in {"author_team_size", "inventor_team_size", "team_size_difference"} ==>
           r.columns[n] == t.columns[n]
  {
  }
}
