/** `add_international_collab`: whether a pair spans more than one country,
    from the first of three column sets that the frame has. */
module InternationalCollab {
  import opened Cells
  import opened Frames
  import opened Utils
  import OrgCollab

  const NoStrategyMessage: string :=
    "international_collab: missing required columns: "
    + "collab_countries OR (work_institution_country_codes+patent_assignee_country) "
    + "OR (institution_country_codes+patent_assignee_country)"

  /** `{c for c in countries if c}`. */
  function TruthySet(items: seq<Cell>): set<Cell> {
    set k | 0 <= k < |items| && Truthy(items[k]) :: items[k]
  }

  /** Building that set raises: a truthy entry cannot be hashed. */
  predicate HashFails(items: seq<Cell>) {
    exists k :: 0 <= k < |items| && Truthy(items[k]) && OrgCollab.Unhashable(items[k])
  }

  /** A set has more than one member exactly when it holds two different values. */
  lemma TwoMembers(s: set<Cell>)
    ensures |s| > 1 <==> exists x, y :: x in s && y in s && x != y
  {
    if |s| > 1 {
      var x :| x in s;
      assert |s - {x}| == |s| - 1;
      var y :| y in s - {x};
    }
    if exists x, y :: x in s && y in s && x != y {
      var x, y :| x in s && y in s && x != y;
      SubsetCard({x, y}, s);
    }
  }

  /** `_has_multiple_countries(countries)`: missing for a non-list or for no
      truthy country, else whether two different countries occur. */
  function HasMultipleCountries(c: Cell): (r: Result<Cell>)
    ensures r.Failure? <==> c.List? && HashFails(c.items)
    ensures r.Failure? ==> r.error == Crash
    ensures r.Success? ==> r.value.Missing? || r.value.Bool?
    ensures r.Success? ==> (r.value.Missing? <==> !c.List? || TruthySet(c.items) == {})
    ensures r.Success? && r.value.Bool? ==>
      (r.value.b <==> exists i, j :: 0 <= i < |c.items| && 0 <= j < |c.items|
                        && Truthy(c.items[i]) && Truthy(c.items[j]) && c.items[i] != c.items[j])
  {
    if !c.List? then Success(Missing)
    else if HashFails(c.items) then Failure(Crash)
    else
      var unique := TruthySet(c.items);
      if unique == {} then Success(Missing)
      else
        TwoMembers(unique);
        TruthyPairs(c.items);
        Success(Bool(|unique| > 1))
  }

  /** Two different members of the set are two truthy entries that differ. */
  lemma TruthyPairs(items: seq<Cell>)
    ensures (exists x, y :: x in TruthySet(items) && y in TruthySet(items) && x != y) <==>
      exists i, j :: 0 <= i < |items| && 0 <= j < |items|
        && Truthy(items[i]) && Truthy(items[j]) && items[i] != items[j]
  {
    var s := TruthySet(items);
    if exists x, y :: x in s && y in s && x != y {
      var x, y :| x in s && y in s && x != y;
      var i :| 0 <= i < |items| && Truthy(items[i]) && items[i] == x;
      var j :| 0 <= j < |items| && Truthy(items[j]) && items[j] == y;
    }
    if exists i, j :: 0 <= i < |items| && 0 <= j < |items| && Truthy(items[i]) && Truthy(items[j]) && items[i] != items[j] {
      var i, j :| 0 <= i < |items| && 0 <= j < |items| && Truthy(items[i]) && Truthy(items[j]) && items[i] != items[j];
      assert items[i] in s && items[j] in s;
    }
  }

  /** The country set of strategies (b) and (c): the truthy work countries
      (none for a non-list) and the patent country if it is truthy. */
  function PairCountries(work: Cell, patent: Cell): (r: Result<set<Cell>>)
    ensures r.Failure? <==> (work.List? && HashFails(work.items)) || (Truthy(patent) && OrgCollab.Unhashable(patent))
    ensures r.Failure? ==> r.error == Crash
    ensures r.Success? ==>
      forall x :: x in r.value <==>
        (work.List? && x in TruthySet(work.items)) || (Truthy(patent) && x == patent)
  {
    var items := if work.List? then work.items else [];
    if HashFails(items) then Failure(Crash)
    else
      var countries := TruthySet(items);
      if Truthy(patent) then
        if OrgCollab.Unhashable(patent) then Failure(Crash) else Success(countries + {patent})
      else Success(countries)
  }

  /** `_compute(row)` and `_compute_alt(row)`. */
  function PairCollab(work: Cell, patent: Cell): (r: Result<Cell>)
    ensures r.Failure? <==> PairCountries(work, patent).Failure?
    ensures r.Success? ==> (r.value.Missing? <==> PairCountries(work, patent).value == {})
    ensures r.Success? && !r.value.Missing? ==>
      r.value.Bool? && (r.value.b <==> exists x, y :: x in PairCountries(work, patent).value
                                         && y in PairCountries(work, patent).value && x != y)
  {
    match PairCountries(work, patent)
    case Failure(e) => Failure(e)
    case Success(countries) =>
      if countries == {} then Success(Missing)
      else
        TwoMembers(countries);
        Success(Bool(|countries| > 1))
  }

  /** A single country, however often repeated, gives false, not missing. */
  lemma SingleCountryIsFalse(c: Cell)
    requires Truthy(c) && !OrgCollab.Unhashable(c)
    ensures HasMultipleCountries(List([c, c])) == Success(Bool(false))
    ensures PairCollab(List([c, c]), c) == Success(Bool(false))
    ensures PairCollab(Missing, c) == Success(Bool(false))
  {
    var items := [c, c];
    assert TruthySet(items) == {c} by {
      assert items[0] == c;
    }
    assert !HashFails(items);
    assert TruthySet([]) == {};
    assert !HashFails([]);
  }

  /** A paper from one country and a patent from another: true. No truthy
      country anywhere: missing. */
  lemma PairCollabExamples()
    ensures PairCollab(List([Str("US")]), Str("DE")) == Success(Bool(true))
    ensures PairCollab(List([Str(""), Missing]), Missing) == Success(Missing)
  {
    var items := [Str("US")];
    assert TruthySet(items) == {Str("US")} by {
      assert items[0] == Str("US");
    }
    assert !HashFails(items);
    assert |{Str("US"), Str("DE")}| == 2;
    var blank := [Str(""), Missing];
    assert !Truthy(blank[0]) && !Truthy(blank[1]);
    assert TruthySet(blank) == {};
    assert !HashFails(blank);
  }

  /** Tuple countries are hashable and compared whole; a list as the
      patent country cannot be added to the set. */
  lemma TupleCountries()
    ensures HasMultipleCountries(List([Tuple([Str("US")]), Tuple([Str("DE")])])) == Success(Bool(true))
    ensures PairCollab(List([Str("US")]), Tuple([Str("US")])) == Success(Bool(true))
    ensures PairCollab(List([Str("US")]), List([Str("DE")])) == Failure(Crash)
  {
    var us := Tuple([Str("US")]);
    var de := Tuple([Str("DE")]);
    assert !OrgCollab.Unhashable(us) by {
      assert !OrgCollab.Unhashable(us.parts[0]);
    }
    assert !OrgCollab.Unhashable(de) by {
      assert !OrgCollab.Unhashable(de.parts[0]);
    }
    var items := [us, de];
    assert !HashFails(items);
    assert Truthy(items[0]) && Truthy(items[1]) && items[0] != items[1];
    var work := [Str("US")];
    assert TruthySet(work) == {Str("US")} by {
      assert work[0] == Str("US");
    }
    assert !HashFails(work);
    assert |{Str("US"), us}| == 2;
    assert OrgCollab.Unhashable(List([Str("DE")]));
  }

  /** `df.apply(f, axis=1)` over two columns, where `f` may raise: the first
      failure aborts. */
  function TryZip(a: seq<Cell>, b: seq<Cell>, g: (Cell, Cell) -> Result<Cell>): (r: Result<seq<Cell>>)
    requires |a| == |b|
    ensures r.Success? ==> |r.value| == |a|
    decreases |a|
  {
    if a == [] then Success([])
    else
      match g(a[0], b[0])
      case Failure(e) => Failure(e)
      case Success(c) =>
        match TryZip(a[1..], b[1..], g)
        case Failure(e) => Failure(e)
        case Success(rest) => Success([c] + rest)
  }

  /** The row-wise apply succeeds exactly when `g` succeeds on every row, and
      then holds `g`'s value for each row. */
  lemma {:induction false} TryZipEffect(a: seq<Cell>, b: seq<Cell>, g: (Cell, Cell) -> Result<Cell>)
    requires |a| == |b|
    ensures var r := TryZip(a, b, g);
      && (r.Success? <==> forall i :: 0 <= i < |a| ==> g(a[i], b[i]).Success?)
      && (r.Success? ==> forall i :: 0 <= i < |a| ==> r.value[i] == g(a[i], b[i]).value)
    decreases |a|
  {
    if a != [] {
      TryZipEffect(a[1..], b[1..], g);
      var r := TryZip(a, b, g);
      if g(a[0], b[0]).Success? && TryZip(a[1..], b[1..], g).Success? {
        forall i | 0 <= i < |a| ensures r.value[i] == g(a[i], b[i]).value {
          if i > 0 { assert a[1..][i - 1] == a[i] && b[1..][i - 1] == b[i]; }
        }
      }
      if g(a[0], b[0]).Success? && !TryZip(a[1..], b[1..], g).Success? {
        var j :| 0 <= j < |a[1..]| && !g(a[1..][j], b[1..][j]).Success?;
        assert a[1..][j] == a[j + 1] && b[1..][j] == b[j + 1];
      }
    }
  }

  /** Strategies (b) and (c), reading the work countries from `work`. */
  function PairStrategy(t: Table, work: string): (o: Outcome)
    requires t.Valid()
    ensures o.table.Valid() && o.table.rows == t.rows
    ensures o.status != Ok ==> o.table == t
  {
    var req := RequireColumns(t.columns.Keys, [work, "patent_assignee_country"], "international_collab");
    if req != Ok then Outcome(t, req)
    else
      assert [work, "patent_assignee_country"][1] in [work, "patent_assignee_country"];
      match TryZip(t.columns[work], t.columns["patent_assignee_country"], PairCollab)
      case Failure(e) => Outcome(t, Fail(e))
      case Success(col) => Outcome(t.With("international_collab", col), Ok)
  }

  /** The frame after `add_international_collab` and whether it raised. */
  function InternationalCollabSpec(t: Table): (o: Outcome)
    requires t.Valid()
    ensures o.table.Valid() && o.table.rows == t.rows
    ensures o.status != Ok ==> o.table == t
  {
    if "collab_countries" in t.columns then
      TryColumn(Outcome(t, Ok), "collab_countries", "international_collab", HasMultipleCountries)
    else if "work_institution_country_codes" in t.columns && "patent_assignee_country" in t.columns then
      PairStrategy(t, "work_institution_country_codes")
    else if "institution_country_codes" in t.columns && "patent_assignee_country" in t.columns then
      PairStrategy(t, "institution_country_codes")
    else Outcome(t, Fail(ValueError(NoStrategyMessage)))
  }

  /** One of strategies (b) and (c) on the frame itself. */
  method ApplyPairStrategy(f: Frame, work: string) returns (status: Status)
    requires f.Valid()
    modifies f
    ensures f.Valid() && Outcome(f.View(), status) == PairStrategy(old(f.View()), work)
  {
    status := RequireColumns(f.columns.Keys, [work, "patent_assignee_country"], "international_collab");
    if status != Ok {
      return;
    }
    assert [work, "patent_assignee_country"][1] in [work, "patent_assignee_country"];
    var col := TryZip(f.columns[work], f.columns["patent_assignee_country"], PairCollab);
    if col.Failure? {
      status := Fail(col.error);
      return;
    }
    f.SetColumn("international_collab", col.value);
  }

  /** `add_international_collab(df)`, updating `df` in place. */
  method AddInternationalCollab(f: Frame) returns (status: Status)
    requires f.Valid()
    modifies f
    ensures f.Valid() && Outcome(f.View(), status) == InternationalCollabSpec(old(f.View()))
  {
    if "collab_countries" in f.columns {
      status := f.ApplyColumn("collab_countries", "international_collab", HasMultipleCountries);
    } else if "work_institution_country_codes" in f.columns && "patent_assignee_country" in f.columns {
      status := ApplyPairStrategy(f, "work_institution_country_codes");
    } else if "institution_country_codes" in f.columns && "patent_assignee_country" in f.columns {
      status := ApplyPairStrategy(f, "institution_country_codes");
    } else {
      status := Fail(ValueError(NoStrategyMessage));
    }
  }

  predicate HasStrategy(t: Table) {
    || "collab_countries" in t.columns
    || ("work_institution_country_codes" in t.columns && "patent_assignee_country" in t.columns)
    || ("institution_country_codes" in t.columns && "patent_assignee_country" in t.columns)
  }

  /** The stage raises the ValueError exactly when no strategy's columns are
      there; otherwise it can only fail on an unhashable country, and the
      column checks inside strategies (b) and (c) never fire. */
  lemma InternationalCollabStatus(t: Table)
    requires t.Valid()
    ensures var o := InternationalCollabSpec(t);
      && (!HasStrategy(t) <==> o.status == Fail(ValueError(NoStrategyMessage)))
      && (HasStrategy(t) ==> o.status == Ok || o.status == Fail(Crash))
  {
    if "collab_countries" in t.columns {
      var o := InternationalCollabSpec(t);
      if o.status != Ok {
        TryMapEffect(t.columns["collab_countries"], HasMultipleCountries);
      }
    } else {
      var work := if "work_institution_country_codes" in t.columns then "work_institution_country_codes"
                  else "institution_country_codes";
      if HasStrategy(t) {
        var req := [work, "patent_assignee_country"];
        forall c | c in req ensures c in t.columns {
          assert c == req[0] || c == req[1];
        }
        var r := TryZip(t.columns[work], t.columns["patent_assignee_country"], PairCollab);
        TryZipEffect(t.columns[work], t.columns["patent_assignee_country"], PairCollab);
        if r.Failure? {
          TryZipFailure(t.columns[work], t.columns["patent_assignee_country"]);
        }
      }
    }
  }

  /** `PairCollab` fails only with `Crash`, so its apply does too. */
  lemma {:induction false} TryZipFailure(a: seq<Cell>, b: seq<Cell>)
    requires |a| == |b| && TryZip(a, b, PairCollab).Failure?
    ensures TryZip(a, b, PairCollab).error == Crash
    decreases |a|
  {
    if PairCollab(a[0], b[0]).Success? {
      TryZipFailure(a[1..], b[1..]);
    }
  }

  /** With `collab_countries` present, each row's flag is that row's
      `_has_multiple_countries`, whatever other country columns exist. */
  lemma CollabCountriesRow(t: Table, i: int)
    requires t.Valid() && "collab_countries" in t.columns && InternationalCollabSpec(t).status == Ok
    requires 0 <= i < t.rows
    ensures var r := InternationalCollabSpec(t).table;
      Success(r.columns["international_collab"][i]) == HasMultipleCountries(t.columns["collab_countries"][i])
  {
    TryMapEffect(t.columns["collab_countries"], HasMultipleCountries);
  }

  /** Otherwise each row's flag is `_compute` on the work and patent
      countries of the strategy in use. */
  lemma PairRow(t: Table, i: int)
    requires t.Valid() && "collab_countries" !in t.columns && InternationalCollabSpec(t).status == Ok
    requires 0 <= i < t.rows
    ensures var work := if "work_institution_country_codes" in t.columns then "work_institution_country_codes"
                        else "institution_country_codes";
      var r := InternationalCollabSpec(t).table;
      && work in t.columns && "patent_assignee_country" in t.columns
      && Success(r.columns["international_collab"][i])
         == PairCollab(t.columns[work][i], t.columns["patent_assignee_country"][i])
  {
    var work := if "work_institution_country_codes" in t.columns then "work_institution_country_codes"
                else "institution_country_codes";
    var req := [work, "patent_assignee_country"];
    assert req[0] in req && req[1] in req;
    TryZipEffect(t.columns[work], t.columns["patent_assignee_country"], PairCollab);
  }

  /** Only `international_collab` is written. */
  lemma InternationalCollabColumns(t: Table)
    requires t.Valid() && InternationalCollabSpec(t).status == Ok
    ensures var r := InternationalCollabSpec(t).table;
      && r.columns.Keys == t.columns.Keys + {"international_collab"}
      && forall n :: n in t.columns && n != "international_collab" ==> r.columns[n] == t.columns[n]
  {
  }
}
