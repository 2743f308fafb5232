/** `add_org_collab_features`: multiple assignees or institutions and the
    organisation type of each side. */
module OrgCollab {
  import opened Cells
  import opened Frames
  import opened Utils

  const Required: seq<string> := [
    "patent_assignee_names", "work_institution_names",
    "patent_assignee_types", "work_institution_types"]

  predicate Present(t: Table) {
    && "patent_assignee_names" in t.columns && "work_institution_names" in t.columns
    && "patent_assignee_types" in t.columns && "work_institution_types" in t.columns
  }

  lemma PresentIff(t: Table)
    ensures Present(t) <==> forall c :: c in Required ==> c in t.columns
  {
    if Present(t) {
      forall c | c in Required ensures c in t.columns {
        var k :| 0 <= k < |Required| && Required[k] == c;
        assert k == 0 || k == 1 || k == 2 || k == 3;
      }
    } else {
      assert Required[0] in Required && Required[1] in Required;
      assert Required[2] in Required && Required[3] in Required;
    }
  }

  // ---------------------------------------------------------------------
  // _unique_count and the two "multiple" flags

  /** A list entry Python cannot hash, so that putting it in a set raises:
      a list, or a tuple holding something unhashable. */
  predicate Unhashable(c: Cell)
    decreases c
  {
    match c
    case List(_) => true
    case Tuple(ps) => exists k :: 0 <= k < |ps| && Unhashable(ps[k])
    case _ => false
  }

  predicate HasUnhashable(items: seq<Cell>) {
    exists k :: 0 <= k < |items| && Unhashable(items[k])
  }

  /** `len({v for v in value if v is not None})`. */
  function UniqueCount(items: seq<Cell>): (n: nat)
    ensures n <= |items|
    ensures n == |(set k | 0 <= k < |items| && !items[k].Missing? :: items[k])|
  {
    CountBound(items);
    |(set k | 0 <= k < |items| && !items[k].Missing? :: items[k])|
  }

  lemma {:induction false} CountBound(items: seq<Cell>)
    ensures |(set k | 0 <= k < |items| && !items[k].Missing? :: items[k])| <= |items|
  {
    if items != [] {
      var rest := items[1..];
      CountBound(rest);
      var s := set k | 0 <= k < |items| && !items[k].Missing? :: items[k];
      var s' := set k | 0 <= k < |rest| && !rest[k].Missing? :: rest[k];
      assert s <= s' + {items[0]} by {
        forall c | c in s ensures c in s' + {items[0]} {
          var k :| 0 <= k < |items| && !items[k].Missing? && items[k] == c;
          if k > 0 { assert rest[k - 1] == c; }
        }
      }
      SubsetCard(s, s' + {items[0]});
    }
  }

  /** `_unique_count(x) > 1 if isinstance(x, list) else pd.NA`; the set
      comprehension raises on an unhashable entry. */
  function MultipleFlag(c: Cell): (r: Result<Cell>)
    ensures r.Failure? <==> c.List? && HasUnhashable(c.items)
    ensures r.Failure? ==> r.error == Crash
    ensures r.Success? ==> (r.value.Missing? <==> !c.List?)
    ensures r.Success? && c.List? ==> r.value == Bool(UniqueCount(c.items) > 1)
  {
    if !c.List? then Success(Missing)
    else if HasUnhashable(c.items) then Failure(Crash)
    else Success(Bool(UniqueCount(c.items) > 1))
  }

  /** One value, however often repeated, is not "multiple". */
  lemma MultipleFlagRepeated(x: Cell, n: nat)
    requires !x.Missing? && !Unhashable(x) && n >= 1
    ensures MultipleFlag(List(seq(n, _ => x))) == Success(Bool(false))
  {
    var items := seq(n, _ => x);
    var s := set k | 0 <= k < |items| && !items[k].Missing? :: items[k];
    assert s == {x} by {
      assert items[0] in s;
    }
  }

  /** Two different non-null values are "multiple", with nulls ignored. */
  lemma MultipleFlagTwo(x: Cell, y: Cell)
    requires !x.Missing? && !y.Missing? && !Unhashable(x) && !Unhashable(y) && x != y
    ensures MultipleFlag(List([x, Missing, y])) == Success(Bool(true))
  {
    var items := [x, Missing, y];
    var s := set k | 0 <= k < |items| && !items[k].Missing? :: items[k];
    assert s == {x, y} by {
      assert items[0] in s && items[2] in s;
    }
  }

  // ---------------------------------------------------------------------
  // _assignee_type

  /** Membership in `_COMPANY_CODES`: 2 and 3 as integers, floats and the
      strings Python prints for them. */
  predicate IsCompanyCode(c: Cell) {
    || c == Int(2) || c == Int(3) || c == Real(2.0) || c == Real(3.0)
    || c == Str("2") || c == Str("2.0") || c == Str("3") || c == Str("3.0")
  }

  /** `all(v in _COMPANY_CODES for v in items)`, which stops at the first
      entry that is not a code and raises if it reaches an unhashable one. */
  function AllCompany(items: seq<Cell>): (r: Result<bool>)
    ensures r == Success(true) <==> forall k :: 0 <= k < |items| ==> IsCompanyCode(items[k])
    ensures r == Success(false) ==> exists k :: 0 <= k < |items| && !IsCompanyCode(items[k])
    ensures r.Failure? ==> r.error == Crash && HasUnhashable(items)
  {
    if items == [] then Success(true)
    else if Unhashable(items[0]) then Failure(Crash)
    else if !IsCompanyCode(items[0]) then Success(false)
    else
      var r := AllCompany(items[1..]);
      assert forall k :: 1 <= k < |items| ==> items[1..][k - 1] == items[k];
      r
  }

  /** An entry that is not a code, reached before any unhashable entry,
      decides "not all". */
  lemma {:induction false} AllCompanyFirstMiss(items: seq<Cell>, j: int)
    requires 0 <= j < |items| && !IsCompanyCode(items[j]) && !Unhashable(items[j])
    requires forall k :: 0 <= k < j ==> IsCompanyCode(items[k])
    ensures AllCompany(items) == Success(false)
  {
    if j > 0 {
      assert items[1..][j - 1] == items[j];
      AllCompanyFirstMiss(items[1..], j - 1);
    }
  }

  function AssigneeType(c: Cell): (r: Result<Cell>)
    ensures !c.List? ==> r == Success(Missing)
    ensures r.Success? ==> r.value in {Missing, Str("company"), Str("non-company")}
    ensures c.List? ==>
      (r == Success(Str("company")) <==> forall k :: 0 <= k < |c.items| ==> IsCompanyCode(c.items[k]))
    ensures r.Failure? ==> r.error == Crash && c.List? && HasUnhashable(c.items)
  {
    if !c.List? then Success(Missing)
    else
      match AllCompany(c.items)
      case Failure(e) => Failure(e)
      case Success(all) => Success(Str(if all then "company" else "non-company"))
  }

  /** Every code form counts and an empty list is a company. */
  /** A tuple is hashable when its parts are: a list holding one tuple has
      one distinct entry, and a tuple is no company code. A tuple holding a
      list cannot be hashed. */
  lemma TupleEntries()
    ensures MultipleFlag(List([Tuple([Str("Acme"), Str("US")])])) == Success(Bool(false))
    ensures AssigneeType(List([Tuple([Str("2")])])) == Success(Str("non-company"))
    ensures MultipleFlag(List([Tuple([List([])])])) == Failure(Crash)
  {
    var t := Tuple([Str("Acme"), Str("US")]);
    assert !Unhashable(t) by {
      assert !Unhashable(t.parts[0]) && !Unhashable(t.parts[1]);
    }
    MultipleFlagRepeated(t, 1);
    assert seq(1, _ => t) == [t];
    var u := Tuple([Str("2")]);
    assert !Unhashable(u) by {
      assert !Unhashable(u.parts[0]);
    }
    assert !IsCompanyCode(u);
    AllCompanyFirstMiss([u], 0);
    var w := Tuple([List([])]);
    assert Unhashable(w.parts[0]);
    assert Unhashable(List([w]).items[0]);
  }

  lemma AssigneeTypeExamples()
    ensures AssigneeType(List([])) == Success(Str("company"))
    ensures AssigneeType(List([Int(2), Str("3.0"), Real(3.0)])) == Success(Str("company"))
    ensures AssigneeType(List([Int(2), Int(4)])) == Success(Str("non-company"))
  {
    assert IsCompanyCode(Int(2)) && IsCompanyCode(Str("3.0")) && IsCompanyCode(Real(3.0));
    AllCompanyFirstMiss([Int(2), Int(4)], 1);
  }

  // ---------------------------------------------------------------------
  // _normalize_institution_types and _author_type

  /** One entry of `_normalize_institution_types`. */
  function InstitutionKind(c: Cell): (k: string)
    ensures k in {"company", "education", "other"}
    ensures k == "company" <==> c == Str("company")
    ensures k == "education" <==> c == Str("education")
  {
    if c == Str("company") then "company"
    else if c == Str("education") then "education"
    else "other"
  }

  /** The normalised list: one kind per entry, in order. */
  function NormalizedTypes(items: seq<Cell>): (r: seq<string>)
    ensures |r| == |items|
    ensures forall k :: 0 <= k < |items| ==> r[k] == InstitutionKind(items[k])
  {
    seq(|items|, k requires 0 <= k < |items| => InstitutionKind(items[k]))
  }

  /** `_normalize_institution_types(value)`, built by appending in a loop. */
  method NormalizeInstitutionTypes(value: Cell) returns (r: Option<seq<string>>)
    ensures r.None? <==> !value.List?
    ensures r.Some? ==> r.value == NormalizedTypes(value.items)
  {
    if !value.List? {
      return None;
    }
    var normalized: seq<string> := [];
    var k := 0;
    while k < |value.items|
      invariant 0 <= k <= |value.items|
      invariant normalized == NormalizedTypes(value.items[..k])
    {
      var t := value.items[k];
      if t == Str("company") {
        normalized := normalized + ["company"];
      } else if t == Str("education") {
        normalized := normalized + ["education"];
      } else {
        normalized := normalized + ["other"];
      }
      assert value.items[..k + 1][..k] == value.items[..k];
      k := k + 1;
    }
    assert value.items[..k] == value.items;
    return Some(normalized);
  }

  function AuthorType(c: Cell): (r: Cell)
    ensures !c.List? <==> r == Missing
    ensures r in {Missing, Str("company"), Str("education"), Str("other")}
    ensures c.List? ==> (r == Str("company") <==> forall k :: 0 <= k < |c.items| ==> c.items[k] == Str("company"))
    ensures c.List? && r == Str("education") ==> forall k :: 0 <= k < |c.items| ==> c.items[k] == Str("education")
  {
    if !c.List? then Missing
    else
      var n := NormalizedTypes(c.items);
      if forall k :: 0 <= k < |n| ==> n[k] == "company" then Str("company")
      else if forall k :: 0 <= k < |n| ==> n[k] == "education" then Str("education")
      else Str("other")
  }

  /** "education" needs every entry to be education and at least one. */
  lemma AuthorTypeEducation(c: Cell)
    requires c.List?
    ensures AuthorType(c) == Str("education") <==>
      |c.items| > 0 && forall k :: 0 <= k < |c.items| ==> c.items[k] == Str("education")
  {
    if |c.items| > 0 && forall k :: 0 <= k < |c.items| ==> c.items[k] == Str("education") {
      assert NormalizedTypes(c.items)[0] == "education";
    }
  }

  // ---------------------------------------------------------------------
  // the stage

  /** The frame after `add_org_collab_features` and whether it raised. */
  function OrgCollabSpec(t: Table): (o: Outcome)
    requires t.Valid()
    ensures o.table.Valid() && o.table.rows == t.rows
    ensures o.status == Ok ==> Present(t)
  {
    var req := RequireColumns(t.columns.Keys, Required, "org_collab");
    if req != Ok then Outcome(t, req)
    else
      PresentIff(t);
      var o1 := TryColumn(Outcome(t, Ok), "patent_assignee_names", "multiple_assignee", MultipleFlag);
      var o2 := TryColumn(o1, "work_institution_names", "multiple_author_institution", MultipleFlag);
      var o3 := TryColumn(o2, "patent_assignee_types", "assignee_type", AssigneeType);
      if o3.status != Ok then o3
      else Outcome(o3.table.With("author_type", MapCells(t.columns["work_institution_types"], AuthorType)), Ok)
  }

  /** `add_org_collab_features(df)`, updating `df` in place. */
  method AddOrgCollabFeatures(f: Frame) returns (status: Status)
    requires f.Valid()
    modifies f
    ensures f.Valid() && Outcome(f.View(), status) == OrgCollabSpec(old(f.View()))
  {
    status := RequireColumns(f.columns.Keys, Required, "org_collab");
    if status != Ok {
      return;
    }
    PresentIff(f.View());
    ghost var types := f.columns["work_institution_types"];
    status := f.ApplyColumn("patent_assignee_names", "multiple_assignee", MultipleFlag);
    if status != Ok {
      return;
    }
    status := f.ApplyColumn("work_institution_names", "multiple_author_institution", MultipleFlag);
    if status != Ok {
      return;
    }
    status := f.ApplyColumn("patent_assignee_types", "assignee_type", AssigneeType);
    if status != Ok {
      return;
    }
    assert f.columns["work_institution_types"] == types;
    f.SetColumn("author_type", MapCells(f.columns["work_institution_types"], AuthorType));
  }

  /** The stage raises a ValueError naming every absent input column, and
      otherwise only on an unhashable list entry. */
  lemma OrgCollabStatus(t: Table)
    requires t.Valid()
    ensures var o := OrgCollabSpec(t);
      && (!Present(t) ==>
            o == Outcome(t, Fail(ValueError(MissingMessage("org_collab", MissingColumns(t.columns.Keys, Required))))))
      && (Present(t) ==>
            && (o.status == Ok <==>
                  forall i :: 0 <= i < t.rows ==>
                    && MultipleFlag(t.columns["patent_assignee_names"][i]).Success?
                    && MultipleFlag(t.columns["work_institution_names"][i]).Success?
                    && AssigneeType(t.columns["patent_assignee_types"][i]).Success?)
            && (o.status != Ok ==> o.status == Fail(Crash)))
  {
    PresentIff(t);
    if Present(t) {
      var o1 := TryColumn(Outcome(t, Ok), "patent_assignee_names", "multiple_assignee", MultipleFlag);
      var o2 := TryColumn(o1, "work_institution_names", "multiple_author_institution", MultipleFlag);
      TryColumnEffect(Outcome(t, Ok), "patent_assignee_names", "multiple_assignee", MultipleFlag);
      if o1.status == Ok {
        TryColumnEffect(o1, "work_institution_names", "multiple_author_institution", MultipleFlag);
        if o2.status == Ok {
          TryColumnEffect(o2, "patent_assignee_types", "assignee_type", AssigneeType);
        }
      }
    }
  }

  /** Each row of the four written columns, and nothing else changes. */
  lemma OrgCollabRow(t: Table, i: int)
    requires t.Valid() && OrgCollabSpec(t).status == Ok && 0 <= i < t.rows
    ensures var r := OrgCollabSpec(t).table;
      && MultipleFlag(t.columns["patent_assignee_names"][i]) == Success(r.columns["multiple_assignee"][i])
      && MultipleFlag(t.columns["work_institution_names"][i]) == Success(r.columns["multiple_author_institution"][i])
      && AssigneeType(t.columns["patent_assignee_types"][i]) == Success(r.columns["assignee_type"][i])
      && r.columns["author_type"][i] == AuthorType(t.columns["work_institution_types"][i])
  {
    var o1 := TryColumn(Outcome(t, Ok), "patent_assignee_names", "multiple_assignee", MultipleFlag);
    var o2 := TryColumn(o1, "work_institution_names", "multiple_author_institution", MultipleFlag);
    TryColumnEffect(Outcome(t, Ok), "patent_assignee_names", "multiple_assignee", MultipleFlag);
    TryColumnEffect(o1, "work_institution_names", "multiple_author_institution", MultipleFlag);
    TryColumnEffect(o2, "patent_assignee_types", "assignee_type", AssigneeType);
  }

  /** Only the four derived columns are written. */
  lemma OrgCollabColumns(t: Table)
    requires t.Valid() && OrgCollabSpec(t).status == Ok
    ensures var r := OrgCollabSpec(t).table;
      var out := {"multiple_assignee", "multiple_author_institution", "assignee_type", "author_type"};
      && r.columns.Keys == t.columns.Keys + out
      && forall n :: n in t.columns && n !in out ==> r.columns[n] == t.columns[n]
  {
    var o1 := TryColumn(Outcome(t, Ok), "patent_assignee_names", "multiple_assignee", MultipleFlag);
    var o2 := TryColumn(o1, "work_institution_names", "multiple_author_institution", MultipleFlag);
    TryColumnEffect(Outcome(t, Ok), "patent_assignee_names", "multiple_assignee", MultipleFlag);
    TryColumnEffect(o1, "work_institution_names", "multiple_author_institution", MultipleFlag);
    TryColumnEffect(o2, "patent_assignee_types", "assignee_type", AssigneeType);
  }
}
