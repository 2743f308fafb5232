/** `add_author_experience`: whether a record's authors, or its first and
    last authors, appeared in a record visited earlier in date order. */
module AuthorExperience {
  import opened Text
  import opened Cells
  import opened Frames
  import opened Utils

  const NoOrderMessage: string :=
    "author_experience: missing required columns: need at least one ordering column among "
    + "work_publication_date, patent_date, patent_filing_date"

  // ---------------------------------------------------------------------
  // _first_last_authors

  predicate IsEndTag(p: Cell) {
    p == Str("first") || p == Str("last")
  }

  /** The authors whose position is "first" or "last", in order; a list-valued position,
      which Python cannot hash, counts as untagged here. */
  function Tagged(authors: seq<Cell>, positions: seq<Cell>): (r: seq<Cell>)
    requires |authors| == |positions|
    ensures |r| <= |authors|
    ensures forall x :: x in r ==> x in authors
    ensures r == [] <==> forall k :: 0 <= k < |authors| ==> !IsEndTag(positions[k])
  {
    if authors == [] then []
    else
      var rest := Tagged(authors[1..], positions[1..]);
      assert forall k :: 1 <= k < |authors| ==> positions[1..][k - 1] == positions[k];
      (if IsEndTag(positions[0]) then [authors[0]] else []) + rest
  }

  /** An author is kept exactly when some index carries that author with
      position "first" or "last". */
  lemma {:induction false} TaggedIff(authors: seq<Cell>, positions: seq<Cell>, x: Cell)
    requires |authors| == |positions|
    ensures x in Tagged(authors, positions) <==>
      exists k :: 0 <= k < |authors| && IsEndTag(positions[k]) && authors[k] == x
    decreases |authors|
  {
    if authors != [] {
      TaggedIff(authors[1..], positions[1..], x);
      assert forall k :: 1 <= k < |authors| ==>
        positions[1..][k - 1] == positions[k] && authors[1..][k - 1] == authors[k];
      if exists k :: 0 <= k < |authors| && IsEndTag(positions[k]) && authors[k] == x {
        var k :| 0 <= k < |authors| && IsEndTag(positions[k]) && authors[k] == x;
        if k > 0 {
          assert IsEndTag(positions[1..][k - 1]) && authors[1..][k - 1] == x;
        }
      }
    }
  }

  /** The filter keeps or drops each author on its own position alone. */
  lemma TaggedSingle(a: Cell, p: Cell)
    ensures Tagged([a], [p]) == if IsEndTag(p) then [a] else []
  {
    assert [a][1..] == [] && [p][1..] == [];
  }

  /** The filter works piecewise, so the kept authors keep their order and
      an author tagged twice is kept twice. */
  lemma {:induction false} TaggedAppend(a1: seq<Cell>, p1: seq<Cell>, a2: seq<Cell>, p2: seq<Cell>)
    requires |a1| == |p1| && |a2| == |p2|
    ensures Tagged(a1 + a2, p1 + p2) == Tagged(a1, p1) + Tagged(a2, p2)
    decreases |a1|
  {
    if a1 == [] {
      assert a1 + a2 == a2 && p1 + p2 == p2;
      assert Tagged(a1, p1) == [];
    } else {
      var a, p := a1 + a2, p1 + p2;
      var head := if IsEndTag(p1[0]) then [a1[0]] else [];
      assert a[0] == a1[0] && p[0] == p1[0];
      assert a[1..] == a1[1..] + a2 && p[1..] == p1[1..] + p2;
      TaggedAppend(a1[1..], p1[1..], a2, p2);
      var x, y := Tagged(a1[1..], p1[1..]), Tagged(a2, p2);
      assert Tagged(a, p) == head + (x + y);
      assert Tagged(a1, p1) == head + x;
      ConcatAssoc(head, x, y);
    }
  }

  lemma ConcatAssoc<T>(a: seq<T>, b: seq<T>, c: seq<T>)
    ensures a + (b + c) == (a + b) + c
  {
  }

  /** Positions "first" and "middle" select the first author only. */
  lemma FirstLastTaggedExample(a: Cell, b: Cell)
    ensures FirstLastAuthors([a, b], List([Str("first"), Str("middle")])) == [a]
  {
    assert Str("middle") != Str("first") && Str("middle") != Str("last") by {
      assert Str("middle").s[0] == 'm';
    }
    TaggedAppend([a], [Str("first")], [b], [Str("middle")]);
    TaggedSingle(a, Str("first"));
    TaggedSingle(b, Str("middle"));
    assert [a, b] == [a] + [b];
    assert [Str("first"), Str("middle")] == [Str("first")] + [Str("middle")];
  }

  /** `_first_last_authors(authors, positions)` on an author list: the
      tagged authors when every author has a position, else the first and
      the last author (one author once). */
  function FirstLastAuthors(authors: seq<Cell>, positions: Cell): (r: seq<Cell>)
    ensures forall x :: x in r ==> x in authors
    ensures authors == [] ==> r == []
    ensures authors != [] && positions.List? && |positions.items| == |authors| ==>
      r == Tagged(authors, positions.items)
    ensures authors != [] && !(positions.List? && |positions.items| == |authors|) ==>
      && |r| == (if |authors| == 1 then 1 else 2)
      && r[0] == authors[0] && r[|r| - 1] == authors[|authors| - 1]
  {
    if authors == [] then []
    else if positions.List? && |positions.items| == |authors| then Tagged(authors, positions.items)
    else if |authors| == 1 then [authors[0]]
    else [authors[0], authors[|authors| - 1]]
  }

  // ---------------------------------------------------------------------
  // the visiting order

  /** An int or float cell's value on the real line. */
  function Numeric(c: Cell): real
    requires c.Int? || c.Real?
  {
    if c.Int? then c.i as real else c.r
  }

  /** One column's `sort_values` order: values ascending, nulls last; ints
      and floats compare numerically and False sorts before True. */
  predicate CellLe(a: Cell, b: Cell) {
    if a.Missing? then b.Missing?
    else if b.Missing? then true
    else if a.Date? && b.Date? then a.day <= b.day
    else if (a.Int? || a.Real?) && (b.Int? || b.Real?) then Numeric(a) <= Numeric(b)
    else if a.Bool? && b.Bool? then !a.b || b.b
    else if a.Str? && b.Str? then !StrLt(b.s, a.s)
    else true
  }

  lemma CellLeTotal(a: Cell, b: Cell)
    ensures CellLe(a, b) || CellLe(b, a)
  {
    if a.Str? && b.Str? {
      StrLtAsymmetric(a.s, b.s);
    }
  }

  /** The ordering columns that are present, in the order publication,
      grant, filing. */
  function OrderColumns(t: Table): (r: seq<string>)
    ensures forall c :: c in r <==>
      c in t.columns && (c == "work_publication_date" || c == "patent_date" || c == "patent_filing_date")
  {
    (if "work_publication_date" in t.columns then ["work_publication_date"] else [])
    + (if "patent_date" in t.columns then ["patent_date"] else [])
    + (if "patent_filing_date" in t.columns then ["patent_filing_date"] else [])
  }

  /** `sort_values(cols)` order between rows `i` and `j`: lexicographic over
      `cols`. */
  predicate KeyLe(t: Table, cols: seq<string>, i: nat, j: nat)
    requires t.Valid() && i < t.rows && j < t.rows
    decreases |cols|
  {
    if cols == [] || cols[0] !in t.columns then cols == [] || KeyLe(t, cols[1..], i, j)
    else
      var a := t.columns[cols[0]][i];
      var b := t.columns[cols[0]][j];
      if CellLe(a, b) && CellLe(b, a) then KeyLe(t, cols[1..], i, j)
      else CellLe(a, b)
  }

  lemma {:induction false} KeyLeTotal(t: Table, cols: seq<string>, i: nat, j: nat)
    requires t.Valid() && i < t.rows && j < t.rows
    ensures KeyLe(t, cols, i, j) || KeyLe(t, cols, j, i)
    decreases |cols|
  {
    if cols != [] {
      KeyLeTotal(t, cols[1..], i, j);
      if cols[0] in t.columns {
        CellLeTotal(t.columns[cols[0]][i], t.columns[cols[0]][j]);
      }
    }
  }

  /** What `df.sort_values(order_cols).index` guarantees of a frame with
      the default index: every row once, non-decreasing in the key. Rows
      with equal keys may come in any order. */
  ghost predicate IsRowOrder(t: Table, order: seq<nat>)
    requires t.Valid()
  {
    && |order| == t.rows
    && (forall k :: 0 <= k < |order| ==> order[k] < t.rows)
    && Distinct(order)
    && forall k :: 0 <= k < |order| - 1 ==> KeyLe(t, OrderColumns(t), order[k], order[k + 1])
  }

  predicate SortedBy(t: Table, cols: seq<string>, s: seq<nat>)
    requires t.Valid() && forall k :: 0 <= k < |s| ==> s[k] < t.rows
  {
    forall k :: 0 <= k < |s| - 1 ==> KeyLe(t, cols, s[k], s[k + 1])
  }

  /** Insert row `x` into a key-sorted list of rows. */
  function Insert(t: Table, cols: seq<string>, x: nat, s: seq<nat>): (r: seq<nat>)
    requires t.Valid() && x < t.rows && forall k :: 0 <= k < |s| ==> s[k] < t.rows
    requires SortedBy(t, cols, s)
    ensures |r| == |s| + 1
    ensures forall y :: y in r <==> y == x || y in s
    ensures forall k :: 0 <= k < |r| ==> r[k] < t.rows
    ensures SortedBy(t, cols, r)
    ensures s != [] && r[0] != x ==> r[0] == s[0]
  {
    if s == [] then [x]
    else if KeyLe(t, cols, x, s[0]) then [x] + s
    else
      KeyLeTotal(t, cols, x, s[0]);
      var rest := Insert(t, cols, x, s[1..]);
      assert forall k :: 1 <= k < |s| ==> s[1..][k - 1] == s[k];
      [s[0]] + rest
  }

  /** An insertion sort of rows `0 .. n-1`, one valid visiting order. */
  function SortRows(t: Table, cols: seq<string>, n: nat): (r: seq<nat>)
    requires t.Valid() && n <= t.rows
    ensures |r| == n && Distinct(r)
    ensures forall k :: 0 <= k < |r| ==> r[k] < n
    ensures SortedBy(t, cols, r)
  {
    if n == 0 then []
    else
      var s := SortRows(t, cols, n - 1);
      var r := Insert(t, cols, n - 1, s);
      assert forall k :: 0 <= k < |r| ==> r[k] == n - 1 || r[k] in s;
      InsertKeepsDistinct(t, cols, n - 1, s);
      r
  }

  lemma InsertKeepsDistinct(t: Table, cols: seq<string>, x: nat, s: seq<nat>)
    requires t.Valid() && x < t.rows && forall k :: 0 <= k < |s| ==> s[k] < t.rows
    requires SortedBy(t, cols, s) && Distinct(s) && x !in s
    ensures Distinct(Insert(t, cols, x, s))
  {
    var r := Insert(t, cols, x, s);
    forall i, j | 0 <= i < j < |r| ensures r[i] != r[j] {
      InsertDistinct(t, cols, x, s, i, j);
    }
  }

  lemma {:induction false} InsertDistinct(t: Table, cols: seq<string>, x: nat, s: seq<nat>, i: int, j: int)
    requires t.Valid() && x < t.rows && forall k :: 0 <= k < |s| ==> s[k] < t.rows
    requires SortedBy(t, cols, s) && Distinct(s) && x !in s
    requires 0 <= i < j < |s| + 1
    ensures Insert(t, cols, x, s)[i] != Insert(t, cols, x, s)[j]
  {
    var r := Insert(t, cols, x, s);
    if s != [] && !KeyLe(t, cols, x, s[0]) {
      var rest := Insert(t, cols, x, s[1..]);
      assert r == [s[0]] + rest;
      assert Distinct(s[1..]) by {
        forall a, b | 0 <= a < b < |s[1..]| ensures s[1..][a] != s[1..][b] {
          assert s[1..][a] == s[a + 1] && s[1..][b] == s[b + 1];
        }
      }
      if i == 0 {
        assert r[j] in rest;
        assert s[0] !in s[1..];
      } else {
        InsertDistinct(t, cols, x, s[1..], i - 1, j - 1);
      }
    }
  }

  /** A frame always has a visiting order. */
  lemma RowOrderExists(t: Table)
    requires t.Valid()
    ensures IsRowOrder(t, SortRows(t, OrderColumns(t), t.rows))
  {
  }

  // ---------------------------------------------------------------------
  // _experience_by_order

  /** A record's authors: its `work_author_ids` list, and none for a
      non-list or when the column is absent. */
  function Authors(t: Table, i: nat): seq<Cell>
    requires t.Valid()
  {
    if "work_author_ids" in t.columns && i < t.rows && t.columns["work_author_ids"][i].List?
    then t.columns["work_author_ids"][i].items
    else []
  }

  /** A record's positions cell, None without a positions column. */
  function Positions(t: Table, positionsCol: Option<string>, i: nat): Cell
    requires t.Valid()
  {
    if positionsCol.Some? && positionsCol.value in t.columns && i < t.rows
    then t.columns[positionsCol.value][i]
    else Missing
  }

  function Elems(xs: seq<Cell>): (r: set<Cell>)
    ensures forall x :: x in r <==> x in xs
  {
    set x | x in xs
  }

  /** `any(a in seen for a in xs) if xs else pd.NA`. */
  function Flag(xs: seq<Cell>, seen: set<Cell>): (r: Cell)
    ensures r.Missing? <==> xs == []
    ensures r.Bool? || r.Missing?
    ensures r.Bool? ==> (r.b <==> exists x :: x in xs && x in seen)
  {
    if xs == [] then Missing else Bool(exists x :: x in xs && x in seen)
  }

  /** The loop's state: the two result dicts, as columns over the rows, and
      the two sets of authors seen so far. */
  datatype Pass = Pass(prev: seq<Cell>, prevFl: seq<Cell>, seenAll: set<Cell>, seenFl: set<Cell>)

  /** One iteration of the loop, on record `idx`. */
  function Step(t: Table, positionsCol: Option<string>, p: Pass, idx: nat): (r: Pass)
    requires t.Valid() && idx < t.rows && |p.prev| == t.rows && |p.prevFl| == t.rows
    ensures |r.prev| == t.rows && |r.prevFl| == t.rows
  {
    var authors := Authors(t, idx);
    var fl := FirstLastAuthors(authors, Positions(t, positionsCol, idx));
    Pass(p.prev[idx := Flag(authors, p.seenAll)], p.prevFl[idx := Flag(fl, p.seenFl)],
         p.seenAll + Elems(authors), p.seenFl + Elems(fl))
  }

  /** The state after visiting the rows of `order` in turn. Rows not yet
      visited hold missing. */
  function Visit(t: Table, positionsCol: Option<string>, order: seq<nat>): (p: Pass)
    requires t.Valid() && forall k :: 0 <= k < |order| ==> order[k] < t.rows
    ensures |p.prev| == t.rows && |p.prevFl| == t.rows
    decreases |order|
  {
    if order == [] then Pass(Fill(Missing, t.rows), Fill(Missing, t.rows), {}, {})
    else
      var n := |order| - 1;
      Step(t, positionsCol, Visit(t, positionsCol, order[..n]), order[n])
  }

  /** The loop of `_experience_by_order` over a visiting order. */
  method ExperienceByOrder(t: Table, positionsCol: Option<string>, order: seq<nat>)
    returns (prev: seq<Cell>, prevFl: seq<Cell>)
    requires t.Valid() && forall k :: 0 <= k < |order| ==> order[k] < t.rows
    ensures Pass(prev, prevFl, Visit(t, positionsCol, order).seenAll, Visit(t, positionsCol, order).seenFl)
         == Visit(t, positionsCol, order)
  {
    var seenAll: set<Cell> := {};
    var seenFl: set<Cell> := {};
    prev := Fill(Missing, t.rows);
    prevFl := Fill(Missing, t.rows);
    var k := 0;
    while k < |order|
      invariant 0 <= k <= |order|
      invariant Pass(prev, prevFl, seenAll, seenFl) == Visit(t, positionsCol, order[..k])
    {
      var idx := order[k];
      var authors := Authors(t, idx);
      prev := prev[idx := Flag(authors, seenAll)];
      seenAll := seenAll + Elems(authors);
      var fl := FirstLastAuthors(authors, Positions(t, positionsCol, idx));
      prevFl := prevFl[idx := Flag(fl, seenFl)];
      seenFl := seenFl + Elems(fl);
      assert Pass(prev, prevFl, seenAll, seenFl) == Step(t, positionsCol, Visit(t, positionsCol, order[..k]), idx);
      assert order[..k + 1][..k] == order[..k];
      k := k + 1;
    }
    assert order[..k] == order;
  }

  /** The first/last authors of a visited record. */
  function FirstLastOf(t: Table, positionsCol: Option<string>, idx: nat): seq<Cell>
    requires t.Valid()
  {
    FirstLastAuthors(Authors(t, idx), Positions(t, positionsCol, idx))
  }

  /** The authors of the first `k` visited records. */
  function SeenBefore(t: Table, order: seq<nat>, k: nat): set<Cell>
    requires t.Valid() && k <= |order|
  {
    if k == 0 then {} else SeenBefore(t, order, k - 1) + Elems(Authors(t, order[k - 1]))
  }

  /** The first/last authors of the first `k` visited records. */
  function FirstLastBefore(t: Table, positionsCol: Option<string>, order: seq<nat>, k: nat): set<Cell>
    requires t.Valid() && k <= |order|
  {
    if k == 0 then {} else FirstLastBefore(t, positionsCol, order, k - 1) + Elems(FirstLastOf(t, positionsCol, order[k - 1]))
  }

  /** The seen authors are exactly those of the first `k` records. */
  lemma {:induction false} SeenBeforeIff(t: Table, order: seq<nat>, k: nat)
    requires t.Valid() && k <= |order|
    ensures forall x :: x in SeenBefore(t, order, k) <==> exists j :: 0 <= j < k && x in Authors(t, order[j])
  {
    if k > 0 {
      SeenBeforeIff(t, order, k - 1);
    }
  }

  /** The seen first/last authors are exactly those of the first `k` records. */
  lemma {:induction false} FirstLastBeforeIff(t: Table, positionsCol: Option<string>, order: seq<nat>, k: nat)
    requires t.Valid() && k <= |order|
    ensures forall x :: x in FirstLastBefore(t, positionsCol, order, k) <==>
      exists j :: 0 <= j < k && x in FirstLastOf(t, positionsCol, order[j])
  {
    if k > 0 {
      FirstLastBeforeIff(t, positionsCol, order, k - 1);
      forall x
        ensures x in FirstLastBefore(t, positionsCol, order, k) <==>
          exists j :: 0 <= j < k && x in FirstLastOf(t, positionsCol, order[j])
      {
        FirstLastBeforeStep(t, positionsCol, order, k, x);
      }
    }
  }

  /** One step of `FirstLastBeforeIff`, for one author. */
  lemma FirstLastBeforeStep(t: Table, positionsCol: Option<string>, order: seq<nat>, k: nat, x: Cell)
    requires t.Valid() && 0 < k <= |order|
    requires x in FirstLastBefore(t, positionsCol, order, k - 1) <==>
      exists j :: 0 <= j < k - 1 && x in FirstLastOf(t, positionsCol, order[j])
    ensures x in FirstLastBefore(t, positionsCol, order, k) <==>
      exists j :: 0 <= j < k && x in FirstLastOf(t, positionsCol, order[j])
  {
    var last := FirstLastOf(t, positionsCol, order[k - 1]);
    if exists j :: 0 <= j < k && x in FirstLastOf(t, positionsCol, order[j]) {
      var j :| 0 <= j < k && x in FirstLastOf(t, positionsCol, order[j]);
      if j == k - 1 {
        assert x in Elems(last);
      }
    }
    if x in Elems(last) {
      assert x in FirstLastOf(t, positionsCol, order[k - 1]);
    }
  }

  /** The seen sets depend only on the records visited so far. */
  lemma {:induction false} SeenPrefix(t: Table, positionsCol: Option<string>, a: seq<nat>, b: seq<nat>, k: nat)
    requires t.Valid() && k <= |a| && k <= |b| && forall j :: 0 <= j < k ==> a[j] == b[j]
    ensures SeenBefore(t, a, k) == SeenBefore(t, b, k)
    ensures FirstLastBefore(t, positionsCol, a, k) == FirstLastBefore(t, positionsCol, b, k)
  {
    if k > 0 {
      SeenPrefix(t, positionsCol, a, b, k - 1);
    }
  }

  /** Loop invariant: after the records of `order` the seen sets are the
      unions of their authors and of their first/last authors. */
  lemma {:induction false} VisitSeen(t: Table, positionsCol: Option<string>, order: seq<nat>)
    requires t.Valid() && forall k :: 0 <= k < |order| ==> order[k] < t.rows
    ensures Visit(t, positionsCol, order).seenAll == SeenBefore(t, order, |order|)
    ensures Visit(t, positionsCol, order).seenFl == FirstLastBefore(t, positionsCol, order, |order|)
    decreases |order|
  {
    if order != [] {
      var n := |order| - 1;
      var init := order[..n];
      VisitSeen(t, positionsCol, init);
      SeenPrefix(t, positionsCol, init, order, n);
    }
  }

  /** The seen sets only grow. */
  lemma {:induction false} SeenGrows(t: Table, positionsCol: Option<string>, order: seq<nat>, k1: nat, k2: nat)
    requires t.Valid() && k1 <= k2 <= |order|
    ensures SeenBefore(t, order, k1) <= SeenBefore(t, order, k2)
    ensures FirstLastBefore(t, positionsCol, order, k1) <= FirstLastBefore(t, positionsCol, order, k2)
    decreases k2 - k1
  {
    if k1 < k2 {
      SeenGrows(t, positionsCol, order, k1, k2 - 1);
    }
  }

  /** In a visiting order with every row once, record `order[k]` is flagged
      by the authors of the records visited before it: missing without
      authors, else whether one of its authors is among theirs. */
  lemma {:induction false} VisitFlags(t: Table, positionsCol: Option<string>, order: seq<nat>, k: nat)
    requires t.Valid() && (forall j :: 0 <= j < |order| ==> order[j] < t.rows) && Distinct(order)
    requires k < |order|
    ensures Visit(t, positionsCol, order).prev[order[k]] == Flag(Authors(t, order[k]), SeenBefore(t, order, k))
    ensures Visit(t, positionsCol, order).prevFl[order[k]]
         == Flag(FirstLastOf(t, positionsCol, order[k]), FirstLastBefore(t, positionsCol, order, k))
    decreases |order|
  {
    var n := |order| - 1;
    var init := order[..n];
    assert forall j :: 0 <= j < n ==> init[j] == order[j];
    if k == n {
      VisitSeen(t, positionsCol, init);
      SeenPrefix(t, positionsCol, init, order, n);
    } else {
      assert Distinct(init);
      assert order[n] != order[k];
      VisitFlags(t, positionsCol, init, k);
      SeenPrefix(t, positionsCol, init, order, k);
    }
  }

  /** `previous_experience`: missing iff the record has no authors, else
      true iff one of its authors is an author of a record visited earlier. */
  lemma PreviousExperience(t: Table, positionsCol: Option<string>, order: seq<nat>, k: nat)
    requires t.Valid() && (forall j :: 0 <= j < |order| ==> order[j] < t.rows) && Distinct(order)
    requires k < |order|
    ensures var c := Visit(t, positionsCol, order).prev[order[k]];
      && (c.Missing? <==> Authors(t, order[k]) == [])
      && (c == Bool(true) <==>
            exists j, x :: 0 <= j < k && x in Authors(t, order[j]) && x in Authors(t, order[k]))
  {
    VisitFlags(t, positionsCol, order, k);
    SeenBeforeIff(t, order, k);
  }

  /** `previous_experience_first_last`: the same rule on the first/last
      authors, against the first/last authors of earlier records only. */
  lemma PreviousExperienceFirstLast(t: Table, positionsCol: Option<string>, order: seq<nat>, k: nat)
    requires t.Valid() && (forall j :: 0 <= j < |order| ==> order[j] < t.rows) && Distinct(order)
    requires k < |order|
    ensures var c := Visit(t, positionsCol, order).prevFl[order[k]];
      && (c.Missing? <==> FirstLastOf(t, positionsCol, order[k]) == [])
      && (c == Bool(true) <==>
            exists j, x :: 0 <= j < k && x in FirstLastOf(t, positionsCol, order[j])
                           && x in FirstLastOf(t, positionsCol, order[k]))
  {
    VisitFlags(t, positionsCol, order, k);
    FirstLastBeforeIff(t, positionsCol, order, k);
  }

  /** A record's own authors only count for later records: the first
      record visited with authors is never flagged true. */
  lemma FirstWithAuthorsNotTrue(t: Table, positionsCol: Option<string>, order: seq<nat>, k: nat)
    requires t.Valid() && (forall j :: 0 <= j < |order| ==> order[j] < t.rows) && Distinct(order)
    requires k < |order| && forall j :: 0 <= j < k ==> Authors(t, order[j]) == []
    ensures Visit(t, positionsCol, order).prev[order[k]] != Bool(true)
  {
    VisitFlags(t, positionsCol, order, k);
    SeenBeforeIff(t, order, k);
    assert SeenBefore(t, order, k) == {};
  }

  // ---------------------------------------------------------------------
  // the stage

  /** The positions column the stage reads, if any. */
  function PositionsColumn(t: Table): (r: Option<string>)
    ensures r.Some? ==> r.value in t.columns
    ensures "work_author_positions" in t.columns ==> r == Some("work_author_positions")
  {
    if "work_author_positions" in t.columns then Some("work_author_positions")
    else if "work_author_positions_list" in t.columns then Some("work_author_positions_list")
    else None
  }

  /** The frame after `add_author_experience` and whether it raised, for
      the visiting order `order` that `sort_values` produced. */
  function AuthorExperienceSpec(t: Table, order: seq<nat>): (o: Outcome)
    requires t.Valid() && IsRowOrder(t, order)
    ensures o.table.Valid() && o.table.rows == t.rows
    ensures o.status != Ok ==> o.table == t
  {
    var req := RequireColumns(t.columns.Keys, ["work_author_ids"], "author_experience");
    if req != Ok then Outcome(t, req)
    else if OrderColumns(t) == [] then Outcome(t, Fail(ValueError(NoOrderMessage)))
    else
      var v := Visit(t, PositionsColumn(t), order);
      Outcome(t.With("previous_experience", v.prev).With("previous_experience_first_last", v.prevFl), Ok)
  }

  /** `add_author_experience(df)`, updating `df` in place. */
  method AddAuthorExperience(f: Frame, order: seq<nat>) returns (status: Status)
    requires f.Valid() && IsRowOrder(f.View(), order)
    modifies f
    ensures f.Valid() && Outcome(f.View(), status) == AuthorExperienceSpec(old(f.View()), order)
  {
    status := RequireColumns(f.columns.Keys, ["work_author_ids"], "author_experience");
    if status != Ok {
      return;
    }
    var t := f.View();
    var positionsCol := PositionsColumn(t);
    if OrderColumns(t) == [] {
      return Fail(ValueError(NoOrderMessage));
    }
    var prev, prevFl := ExperienceByOrder(t, positionsCol, order);
    f.SetColumn("previous_experience", prev);
    f.SetColumn("previous_experience_first_last", prevFl);
  }

  /** The stage raises when the author column is absent or no ordering
      column is present, and otherwise succeeds. */
  lemma AuthorExperienceStatus(t: Table, order: seq<nat>)
    requires t.Valid() && IsRowOrder(t, order)
    ensures var o := AuthorExperienceSpec(t, order);
      && (o.status == Ok <==> "work_author_ids" in t.columns && OrderColumns(t) != [])
      && ("work_author_ids" !in t.columns ==>
            o.status == Fail(ValueError(MissingMessage("author_experience", ["work_author_ids"]))))
      && ("work_author_ids" in t.columns && OrderColumns(t) == [] ==> o.status == Fail(ValueError(NoOrderMessage)))
  {
    if "work_author_ids" !in t.columns {
      assert MissingColumns(t.columns.Keys, ["work_author_ids"]) == ["work_author_ids"];
    }
  }

  /** On success the stage adds exactly the two flag columns, and row
      `order[k]` gets the flags of the `k`-th visited record. */
  lemma AuthorExperienceEffect(t: Table, order: seq<nat>, k: nat)
    requires t.Valid() && IsRowOrder(t, order) && k < t.rows
    requires AuthorExperienceSpec(t, order).status == Ok
    ensures var o := AuthorExperienceSpec(t, order);
      && o.table.columns.Keys == t.columns.Keys + {"previous_experience", "previous_experience_first_last"}
      && o.table.columns["previous_experience"][order[k]]
         == Flag(Authors(t, order[k]), SeenBefore(t, order, k))
      && o.table.columns["previous_experience_first_last"][order[k]]
         == Flag(FirstLastOf(t, PositionsColumn(t), order[k]), FirstLastBefore(t, PositionsColumn(t), order, k))
  {
    VisitFlags(t, PositionsColumn(t), order, k);
  }
}
