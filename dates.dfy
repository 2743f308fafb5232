/** `add_date_features`: calendar years and the publication–filing lag.
    A timestamp is a day number; `yearOf` is the calendar year of a day. */
module Dates {
  import opened Cells
  import opened Frames
  import opened Utils

  const Required: seq<string> := ["work_publication_date", "patent_filing_date"]

  /** A column the `.dt` accessor accepts: timestamps and NaT only. */
  predicate IsDateColumn(col: seq<Cell>) {
    forall i :: 0 <= i < |col| ==> col[i].Date? || col[i].Missing?
  }

  /** `.dt.year.astype("Int64")` on one cell. */
  function YearCell(c: Cell, yearOf: int -> int): (r: Cell)
    ensures c.Date? ==> r == Int(yearOf(c.day))
    ensures !c.Date? ==> r == Missing
  {
    if c.Date? then Int(yearOf(c.day)) else Missing
  }

  /** `(a - b).dt.days` on one row: signed whole days, missing with either date. */
  function LagCell(a: Cell, b: Cell): (r: Cell)
    ensures a.Date? && b.Date? ==> r == Int(a.day - b.day)
    ensures !(a.Date? && b.Date?) ==> r == Missing
  {
    if a.Date? && b.Date? then Int(a.day - b.day) else Missing
  }

  function Years(col: seq<Cell>, yearOf: int -> int): (r: seq<Cell>)
    ensures |r| == |col| && forall i :: 0 <= i < |col| ==> r[i] == YearCell(col[i], yearOf)
  {
    seq(|col|, i requires 0 <= i < |col| => YearCell(col[i], yearOf))
  }

  /** The frame after `add_date_features` and whether it raised. A column
      that is not of datetime kind makes `.dt` raise, after any column
      written before it. */
  function DateFeaturesSpec(t: Table, yearOf: int -> int): (o: Outcome)
    requires t.Valid()
    ensures o.table.Valid() && o.table.rows == t.rows
    ensures o.status == Ok ==> "work_publication_date" in t.columns && "patent_filing_date" in t.columns
  {
    var req := RequireColumns(t.columns.Keys, Required, "dates");
    if req != Ok then Outcome(t, req)
    else
      assert Required[1] in Required;
      var pub := t.columns["work_publication_date"];
      var filing := t.columns["patent_filing_date"];
      if !IsDateColumn(pub) then Outcome(t, Fail(Crash))
      else
        var t1 := t.With("publication_year", Years(pub, yearOf));
        if !IsDateColumn(filing) then Outcome(t1, Fail(Crash))
        else
          var t2 := t1.With("patent_priority_year", Years(filing, yearOf));
          Outcome(t2.With("lag_days", ZipCells(pub, filing, LagCell)), Ok)
  }

  /** `add_date_features(df)`, updating `df` in place. */
  method AddDateFeatures(f: Frame, yearOf: int -> int) returns (status: Status)
    requires f.Valid()
    modifies f
    ensures f.Valid() && Outcome(f.View(), status) == DateFeaturesSpec(old(f.View()), yearOf)
  {
    status := RequireColumns(f.columns.Keys, Required, "dates");
    if status != Ok {
      return;
    }
    var pub := f.columns["work_publication_date"];
    var filing := f.columns["patent_filing_date"];
    if !IsDateColumn(pub) {
      status := Fail(Crash);
      return;
    }
    f.SetColumn("publication_year", Years(pub, yearOf));
    if !IsDateColumn(filing) {
      status := Fail(Crash);
      return;
    }
    f.SetColumn("patent_priority_year", Years(filing, yearOf));
    f.SetColumn("lag_days", ZipCells(f.columns["work_publication_date"], f.columns["patent_filing_date"], LagCell));
  }

  lemma DateFeaturesStatus(t: Table, yearOf: int -> int)
    requires t.Valid()
    ensures var o := DateFeaturesSpec(t, yearOf);
      && (o.status == Ok <==>
            "work_publication_date" in t.columns && "patent_filing_date" in t.columns
            && IsDateColumn(t.columns["work_publication_date"]) && IsDateColumn(t.columns["patent_filing_date"]))
      && (!("work_publication_date" in t.columns && "patent_filing_date" in t.columns) ==>
            o == Outcome(t, Fail(ValueError(MissingMessage("dates", MissingColumns(t.columns.Keys, Required))))))
  {
    if "work_publication_date" in t.columns && "patent_filing_date" in t.columns {
      forall c | c in Required ensures c in t.columns {
        assert c == Required[0] || c == Required[1];
      }
    } else {
      assert Required[0] in Required && Required[1] in Required;
    }
  }

  /** Each row: the two years are the calendar years of the dates (missing
      where the date is), and the lag is publication minus filing in days,
      negative when the paper came first. */
  lemma DateFeaturesRow(t: Table, yearOf: int -> int, i: int)
    requires t.Valid() && DateFeaturesSpec(t, yearOf).status == Ok && 0 <= i < t.rows
    ensures var r := DateFeaturesSpec(t, yearOf).table;
      var pub := t.columns["work_publication_date"][i];
      var filing := t.columns["patent_filing_date"][i];
      && r.columns["publication_year"][i] == (if pub.Date? then Int(yearOf(pub.day)) else Missing)
      && r.columns["patent_priority_year"][i] == (if filing.Date? then Int(yearOf(filing.day)) else Missing)
      && (r.columns["lag_days"][i].Int? <==> pub.Date? && filing.Date?)
      && (r.columns["lag_days"][i].Int? ==>
            r.columns["lag_days"][i].i == pub.day - filing.day
            && (r.columns["lag_days"][i].i < 0 <==> pub.day < filing.day))
  {
    var pub := t.columns["work_publication_date"];
    var filing := t.columns["patent_filing_date"];
    var t1 := t.With("publication_year", Years(pub, yearOf));
    var t2 := t1.With("patent_priority_year", Years(filing, yearOf));
    var r := t2.With("lag_days", ZipCells(pub, filing, LagCell));
    assert DateFeaturesSpec(t, yearOf).table == r;
    assert r.columns["publication_year"] == Years(pub, yearOf);
    assert r.columns["patent_priority_year"] == Years(filing, yearOf);
  }

  /** Only the three derived columns are written. */
  lemma DateFeaturesColumns(t: Table, yearOf: int -> int)
    requires t.Valid() && DateFeaturesSpec(t, yearOf).status == Ok
    ensures var r := DateFeaturesSpec(t, yearOf).table;
      && r.columns.Keys == t.columns.Keys + {"publication_year", "patent_priority_year", "lag_days"}
      && forall n :: n in t.columns && n !in {"publication_year", "patent_priority_year", "lag_days"} ==>
           r.columns[n] == t.columns[n]
  {
  }
}
