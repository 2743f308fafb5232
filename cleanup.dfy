/** `cleanup_reference_ages`: negative mean ages become missing. */
module Cleanup {
  import opened Cells
  import opened Frames

  /** The mean-age columns the cleanup looks at, in the order it takes them:
      the pipeline's own names and the notebook's. */
  const Targets: seq<string> := [
    "work_reference_age_days_mean", "mean_age_of_work_references",
    "patent_reference_age_days_mean", "mean_age_of_patent_references"]

  predicate Negative(c: Cell) {
    (c.Int? && c.i < 0) || (c.Real? && c.r < 0.0)
  }

  /** A cell `x < 0` can be asked of: a number, a boolean, or a null, which
      `pd.notna` stops before the comparison. */
  predicate Comparable(c: Cell) {
    c.Missing? || c.Int? || c.Real? || c.Bool?
  }

  /** `np.nan if pd.notna(x) and x < 0 else x`. Comparing a string, a
      timestamp or a list with 0 raises. */
  function NegativeToMissing(c: Cell): (r: Result<Cell>)
    ensures r.Success? <==> Comparable(c)
    ensures r.Failure? ==> r.error == Crash
    ensures r.Success? ==> !Negative(r.value)
    ensures r.Success? && !Negative(c) ==> r.value == c
    ensures Negative(c) ==> r == Success(Missing)
  {
    match c
    case Missing => Success(Missing)
    case Int(i) => if i < 0 then Success(Missing) else Success(c)
    case Real(x) => if x < 0.0 then Success(Missing) else Success(c)
    case Bool(_) => Success(c)
    case _ => Failure(Crash)
  }

  /** The frame after `cleanup_reference_ages` and whether it raised. */
  function CleanupSpec(t: Table): (o: Outcome)
    requires t.Valid()
    ensures o.table.Valid() && o.table.rows == t.rows
  {
    TryColumns(Outcome(t, Ok), Targets, NegativeToMissing)
  }

  /** `cleanup_reference_ages(df)`, updating `df` in place. */
  method CleanupReferenceAges(f: Frame) returns (status: Status)
    requires f.Valid()
    modifies f
    ensures f.Valid() && Outcome(f.View(), status) == CleanupSpec(old(f.View()))
  {
    ghost var o := Outcome(f.View(), Ok);
    assert Targets[..0] == [];
    status := f.ApplyColumn(Targets[0], Targets[0], NegativeToMissing);
    assert Outcome(f.View(), status) == TryColumns(o, Targets[..1], NegativeToMissing) by {
      assert Targets[..1][..0] == Targets[..0];
    }
    if status != Ok {
      TryColumnsStopped(o, Targets, 1, NegativeToMissing);
      return;
    }
    status := f.ApplyColumn(Targets[1], Targets[1], NegativeToMissing);
    assert Outcome(f.View(), status) == TryColumns(o, Targets[..2], NegativeToMissing) by {
      assert Targets[..2][..1] == Targets[..1];
    }
    if status != Ok {
      TryColumnsStopped(o, Targets, 2, NegativeToMissing);
      return;
    }
    status := f.ApplyColumn(Targets[2], Targets[2], NegativeToMissing);
    assert Outcome(f.View(), status) == TryColumns(o, Targets[..3], NegativeToMissing) by {
      assert Targets[..3][..2] == Targets[..2];
    }
    if status != Ok {
      TryColumnsStopped(o, Targets, 3, NegativeToMissing);
      return;
    }
    status := f.ApplyColumn(Targets[3], Targets[3], NegativeToMissing);
    assert Outcome(f.View(), status) == TryColumns(o, Targets[..4], NegativeToMissing) by {
      assert Targets[..4][..3] == Targets[..3];
    }
    assert Targets[..4] == Targets;
  }

  lemma TargetsDistinct()
    ensures Distinct(Targets)
  {
  }

  /** The cleanup raises only on a cell that cannot be compared with 0, in
      a mean-age column that is present. */
  lemma CleanupStatus(t: Table)
    requires t.Valid()
    ensures var o := CleanupSpec(t);
      && (o.status == Ok <==>
            forall n, i :: n in Targets && n in t.columns && 0 <= i < t.rows ==> Comparable(t.columns[n][i]))
      && (o.status != Ok ==> o.status == Fail(Crash))
  {
    TargetsDistinct();
    TryColumnsEffect(t, Targets, NegativeToMissing);
    forall n | n in t.columns {
      TryMapEffect(t.columns[n], NegativeToMissing);
    }
  }

  /** Afterwards each present mean-age cell is the input cell with a
      negative value replaced by missing, so none is negative; every other
      column is as it was and no column is added or removed. */
  lemma CleanupCells(t: Table)
    requires t.Valid() && CleanupSpec(t).status == Ok
    ensures var r := CleanupSpec(t).table;
      && r.columns.Keys == t.columns.Keys
      && (forall n :: n in t.columns && n !in Targets ==> r.columns[n] == t.columns[n])
      && forall n, i :: n in Targets && n in t.columns && 0 <= i < t.rows ==>
           && NegativeToMissing(t.columns[n][i]).Success?
           && r.columns[n][i] == NegativeToMissing(t.columns[n][i]).value
           && !Negative(r.columns[n][i])
           && (!Negative(t.columns[n][i]) ==> r.columns[n][i] == t.columns[n][i])
  {
    TargetsDistinct();
    TryColumnsEffect(t, Targets, NegativeToMissing);
    forall n | n in t.columns {
      TryMapEffect(t.columns[n], NegativeToMissing);
    }
  }

  /** Cleaning a cleaned frame changes nothing. */
  lemma CleanupIdempotent(t: Table)
    requires t.Valid() && CleanupSpec(t).status == Ok
    ensures var r := CleanupSpec(t).table; CleanupSpec(r) == Outcome(r, Ok)
  {
    var r := CleanupSpec(t).table;
    CleanupCells(t);
    forall n, i | n in Targets && n in r.columns && 0 <= i < r.rows
      ensures NegativeToMissing(r.columns[n][i]) == Success(r.columns[n][i])
    {
    }
    TryColumnsFixed(r, Targets, NegativeToMissing);
  }
}
