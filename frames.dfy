/** A pandas DataFrame as the pipeline uses it: uniquely named columns of
    equal length. `Table` is the value of a frame at one moment;
    `Frame` is the mutable object the stages update in place. */
module Frames {
  import opened Cells

  predicate Distinct<T(==)>(s: seq<T>) {
    forall i, j | 0 <= i < j < |s| :: s[i] != s[j]
  }

  /** `series.apply(f)`. */
  function MapCells(col: seq<Cell>, f: Cell -> Cell): (r: seq<Cell>)
    ensures |r| == |col|
    ensures forall i :: 0 <= i < |col| ==> r[i] == f(col[i])
  {
    seq(|col|, i requires 0 <= i < |col| => f(col[i]))
  }

  /** `series.apply(g)` where `g` may raise: the first failure aborts. */
  function TryMap(col: seq<Cell>, g: Cell -> Result<Cell>): (r: Result<seq<Cell>>)
    ensures r.Success? ==> |r.value| == |col|
  {
    if col == [] then Success([])
    else
      match g(col[0])
      case Failure(e) => Failure(e)
      case Success(c) =>
        match TryMap(col[1..], g)
        case Failure(e) => Failure(e)
        case Success(rest) => Success([c] + rest)
  }

  /** The apply succeeds exactly when `g` succeeds on every cell, and then
      holds `g`'s value for each cell; a failure is the failure of some cell. */
  lemma {:induction false} TryMapEffect(col: seq<Cell>, g: Cell -> Result<Cell>)
    ensures var r := TryMap(col, g);
      && (r.Success? <==> forall i :: 0 <= i < |col| ==> g(col[i]).Success?)
      && (r.Success? ==> forall i :: 0 <= i < |col| ==> r.value[i] == g(col[i]).value)
      && (r.Failure? ==> exists i :: 0 <= i < |col| && g(col[i]) == Failure(r.error))
  {
    if col != [] {
      TryMapEffect(col[1..], g);
      var r := TryMap(col, g);
      if g(col[0]).Success? && TryMap(col[1..], g).Success? {
        forall i | 0 <= i < |col| ensures r.value[i] == g(col[i]).value {
          if i > 0 { assert col[1..][i - 1] == col[i]; }
        }
      }
      if r.Failure? && g(col[0]).Success? {
        var j :| 0 <= j < |col[1..]| && g(col[1..][j]) == Failure(r.error);
        assert col[1..][j] == col[j + 1];
      }
      if g(col[0]).Success? && !TryMap(col[1..], g).Success? {
        var j :| 0 <= j < |col[1..]| && !g(col[1..][j]).Success?;
        assert col[1..][j] == col[j + 1];
      }
    }
  }

  /** A row-wise function of two columns. */
  function ZipCells(a: seq<Cell>, b: seq<Cell>, f: (Cell, Cell) -> Cell): (r: seq<Cell>)
    requires |a| == |b|
    ensures |r| == |a|
    ensures forall i :: 0 <= i < |a| ==> r[i] == f(a[i], b[i])
  {
    seq(|a|, i requires 0 <= i < |a| => f(a[i], b[i]))
  }

  /** `df[name] = scalar` broadcasts the scalar to every row. */
  function Fill(c: Cell, n: nat): (r: seq<Cell>)
    ensures |r| == n && forall i :: 0 <= i < n ==> r[i] == c
  {
    seq(n, _ => c)
  }

  datatype Table = Table(columns: map<string, seq<Cell>>, rows: nat) {

    ghost predicate Valid() {
      forall n :: n in columns ==> |columns[n]| == rows
    }

    /** `df[name] = values`. */
    function With(name: string, values: seq<Cell>): (t: Table)
      ensures t.columns == columns[name := values] && t.rows == rows
      ensures Valid() && |values| == rows ==> t.Valid()
    {
      Table(columns[name := values], rows)
    }

    /** `df.drop(columns=drop, errors="ignore")`. */
    function Without(drop: set<string>): (t: Table)
      ensures t.columns == columns - drop && t.rows == rows
      ensures Valid() ==> t.Valid()
    {
      Table(columns - drop, rows)
    }
  }

  /** The result of a stage that updates a frame in place: the frame's new
      value and whether the stage raised. */
  datatype Outcome = Outcome(table: Table, status: Status)

  /** One `df[target] = df[source].apply(g)` step of a stage, taken only if
      the stage has not raised yet and `source` is a column; a raising `g`
      leaves the frame as it was and records the error. */
  function TryColumn(o: Outcome, source: string, target: string, g: Cell -> Result<Cell>): (r: Outcome)
    requires o.table.Valid()
    ensures r.table.Valid() && r.table.rows == o.table.rows
    ensures o.status != Ok || source !in o.table.columns ==> r == o
    ensures r.status != Ok ==> r.table == o.table
  {
    if o.status != Ok || source !in o.table.columns then o
    else
      match TryMap(o.table.columns[source], g)
      case Failure(e) => Outcome(o.table, Fail(e))
      case Success(col) => Outcome(o.table.With(target, col), Ok)
  }

  /** A step taken on a column either raises, exactly when `g` raises on
      some cell, or writes `g` of every cell into `target` and nothing else. */
  lemma TryColumnEffect(o: Outcome, source: string, target: string, g: Cell -> Result<Cell>)
    requires o.table.Valid() && o.status == Ok && source in o.table.columns
    ensures var r := TryColumn(o, source, target, g);
      && (r.status == Ok <==> forall i :: 0 <= i < o.table.rows ==> g(o.table.columns[source][i]).Success?)
      && (r.status != Ok ==> exists i :: 0 <= i < o.table.rows && g(o.table.columns[source][i]) == Failure(r.status.error))
      && (r.status == Ok ==>
            && r.table.columns.Keys == o.table.columns.Keys + {target}
            && (forall n :: n in o.table.columns && n != target ==> r.table.columns[n] == o.table.columns[n])
            && (forall i :: 0 <= i < o.table.rows ==> r.table.columns[target][i] == g(o.table.columns[source][i]).value))
  {
    TryMapEffect(o.table.columns[source], g);
  }

  /** A step whose cell function can only crash keeps a stage's status
      within "no error" or "crashed". */
  lemma TryColumnCrashOnly(o: Outcome, source: string, target: string, g: Cell -> Result<Cell>)
    requires o.table.Valid() && (o.status == Ok || o.status == Fail(Crash))
    requires forall c :: g(c).Failure? ==> g(c).error == Crash
    ensures var r := TryColumn(o, source, target, g); r.status == Ok || r.status == Fail(Crash)
  {
    if o.status == Ok && source in o.table.columns {
      TryColumnEffect(o, source, target, g);
    }
  }

  /** `TryColumn` on each name in turn, each column written in place of
      itself: `if n in df.columns: df[n] = df[n].apply(g)` for every `n`. */
  function TryColumns(o: Outcome, names: seq<string>, g: Cell -> Result<Cell>): (r: Outcome)
    requires o.table.Valid()
    ensures r.table.Valid() && r.table.rows == o.table.rows
    decreases |names|
  {
    if names == [] then o
    else
      var last := names[|names| - 1];
      TryColumn(TryColumns(o, names[..|names| - 1], g), last, last, g)
  }

  /** With distinct names, the chain succeeds exactly when `g` succeeds on
      every present listed column; it then holds `g`'s image of each such
      column and leaves the others and the set of columns as they were. A
      failure is the failure of `g` on some cell of a listed column. */
  lemma {:induction false} TryColumnsEffect(t: Table, names: seq<string>, g: Cell -> Result<Cell>)
    requires t.Valid() && Distinct(names)
    ensures var r := TryColumns(Outcome(t, Ok), names, g);
      && (r.status == Ok <==> forall n :: n in names && n in t.columns ==> TryMap(t.columns[n], g).Success?)
      && (r.status != Ok ==>
            exists n, i :: n in names && n in t.columns && 0 <= i < t.rows && g(t.columns[n][i]) == Failure(r.status.error))
      && (r.status == Ok ==>
            && r.table.columns.Keys == t.columns.Keys
            && forall n :: n in t.columns ==>
                 if n in names then TryMap(t.columns[n], g) == Success(r.table.columns[n])
                 else r.table.columns[n] == t.columns[n])
    decreases |names|
  {
    if names != [] {
      var init := names[..|names| - 1];
      var last := names[|names| - 1];
      assert names == init + [last];
      assert Distinct(init);
      assert last !in init;
      TryColumnsEffect(t, init, g);
      var p := TryColumns(Outcome(t, Ok), init, g);
      if p.status == Ok && last in t.columns {
        assert p.table.columns[last] == t.columns[last];
        var m := TryMap(t.columns[last], g);
        if m.Failure? {
          TryMapEffect(t.columns[last], g);
          var i :| 0 <= i < |t.columns[last]| && g(t.columns[last][i]) == Failure(m.error);
          assert g(t.columns[last][i]) == Failure(m.error);
        }
      }
    }
  }

  /** Once the chain has raised, the remaining names change nothing. */
  lemma {:induction false} TryColumnsStopped(o: Outcome, names: seq<string>, k: nat, g: Cell -> Result<Cell>)
    requires o.table.Valid() && k <= |names|
    requires TryColumns(o, names[..k], g).status != Ok
    ensures TryColumns(o, names, g) == TryColumns(o, names[..k], g)
    decreases |names| - k
  {
    if k < |names| {
      assert names[..k + 1][..k] == names[..k];
      TryColumnsStopped(o, names, k + 1, g);
    } else {
      assert names[..k] == names;
    }
  }

  /** A chain over columns where `g` already leaves every cell as it is
      changes nothing. */
  lemma {:induction false} TryColumnsFixed(t: Table, names: seq<string>, g: Cell -> Result<Cell>)
    requires t.Valid()
    requires forall n, i :: n in names && n in t.columns && 0 <= i < t.rows ==> g(t.columns[n][i]) == Success(t.columns[n][i])
    ensures TryColumns(Outcome(t, Ok), names, g) == Outcome(t, Ok)
    decreases |names|
  {
    if names != [] {
      var init := names[..|names| - 1];
      var last := names[|names| - 1];
      assert names == init + [last];
      TryColumnsFixed(t, init, g);
      if last in t.columns {
        var col := t.columns[last];
        TryMapEffect(col, g);
        assert TryMap(col, g).value == col;
        assert t.columns[last := col] == t.columns;
      }
    }
  }

  class Frame {
    var columns: map<string, seq<Cell>>
    var rows: nat

    function View(): Table
      reads this
    {
      Table(columns, rows)
    }

    ghost predicate Valid()
      reads this
    {
      View().Valid()
    }

    constructor FromTable(t: Table)
      requires t.Valid()
      ensures Valid() && View() == t
    {
      columns, rows := t.columns, t.rows;
    }

    /** `df.copy()`. */
    method Copy() returns (g: Frame)
      requires Valid()
      ensures fresh(g) && g.Valid() && g.View() == View()
    {
      g := new Frame.FromTable(View());
    }

    /** `df[name] = values`. */
    method SetColumn(name: string, values: seq<Cell>)
      requires Valid() && |values| == rows
      modifies this
      ensures Valid() && View() == old(View()).With(name, values)
    {
      columns := columns[name := values];
    }

    /** A `TryColumn` step on the frame itself. */
    method ApplyColumn(source: string, target: string, g: Cell -> Result<Cell>) returns (status: Status)
      requires Valid()
      modifies this
      ensures Valid() && Outcome(View(), status) == TryColumn(Outcome(old(View()), Ok), source, target, g)
    {
      status := Ok;
      if source in columns {
        var r := TryMap(columns[source], g);
        if r.Failure? {
          status := Fail(r.error);
        } else {
          SetColumn(target, r.value);
        }
      }
    }

    /** `df = df.drop(columns=drop, errors="ignore")` on the object itself. */
    method DropColumns(drop: set<string>)
      requires Valid()
      modifies this
      ensures Valid() && View() == old(View()).Without(drop)
    {
      columns := columns - drop;
    }
  }
}
