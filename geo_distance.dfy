/** `add_geo_distance`: the mean great-circle distance between a patent's
    assignee locations and a paper's locations. The haversine central angle
    is a parameter `angle`; the distance is the Earth radius times it. */
module GeoDistance {
  import opened Cells
  import opened Frames
  import opened Utils

  type Coord = (real, real)

  const EarthRadiusKm: real := 6371.0

  /** Python's `float(x)`; `parse` reads a numeric string and gives None
      where `float` raises. */
  function ToFloat(c: Cell, parse: string -> Option<real>): (r: Option<real>)
    ensures c.Int? ==> r == Some(c.i as real)
    ensures c.Real? ==> r == Some(c.r)
    ensures c.Str? ==> r == parse(c.s)
    ensures c.Missing? || c.Date? || c.List? || c.Tuple? ==> r == None
  {
    match c
    case Int(i) => Some(i as real)
    case Real(x) => Some(x)
    case Bool(b) => Some(if b then 1.0 else 0.0)
    case Str(s) => parse(s)
    case _ => None
  }

  /** The components of a list or tuple entry. */
  function Components(e: Cell): seq<Cell>
    requires e.List? || e.Tuple?
  {
    if e.List? then e.items else e.parts
  }

  /** The entry is a list or tuple pair, neither component None, both
      convertible. */
  predicate ValidEntry(e: Cell, parse: string -> Option<real>) {
    (e.List? || e.Tuple?) && |Components(e)| == 2
    && !Components(e)[0].Missing? && !Components(e)[1].Missing?
    && ToFloat(Components(e)[0], parse).Some? && ToFloat(Components(e)[1], parse).Some?
  }

  function CoordOf(e: Cell, parse: string -> Option<real>): Coord
    requires ValidEntry(e, parse)
  {
    (ToFloat(Components(e)[0], parse).value, ToFloat(Components(e)[1], parse).value)
  }

  /** The coordinates the loop collects from `entries`, in order. */
  function Coords(entries: seq<Cell>, parse: string -> Option<real>): (r: seq<Coord>)
    ensures |r| <= |entries|
    decreases |entries|
  {
    if entries == [] then []
    else
      var last := entries[|entries| - 1];
      Coords(entries[..|entries| - 1], parse)
        + (if ValidEntry(last, parse) then [CoordOf(last, parse)] else [])
  }

  /** `_latlon_array(latlon_list)` as a value: None for a non-list or when no
      entry is valid. */
  function LatLon(c: Cell, parse: string -> Option<real>): (r: Option<seq<Coord>>)
    ensures r.None? <==> !c.List? || Coords(c.items, parse) == []
    ensures r.Some? ==> r.value == Coords(c.items, parse) && |r.value| > 0
  {
    if !c.List? then None
    else
      var coords := Coords(c.items, parse);
      if coords == [] then None else Some(coords)
  }

  /** `_latlon_array(latlon_list)`: the loop that appends to `coords`. */
  method LatLonArray(c: Cell, parse: string -> Option<real>) returns (r: Option<seq<Coord>>)
    ensures r == LatLon(c, parse)
  {
    if !c.List? {
      return None;
    }
    var coords: seq<Coord> := [];
    var k := 0;
    while k < |c.items|
      invariant 0 <= k <= |c.items|
      invariant coords == Coords(c.items[..k], parse)
    {
      assert c.items[..k + 1][..k] == c.items[..k];
      var entry := c.items[k];
      if (entry.List? || entry.Tuple?) && |Components(entry)| == 2
        && !Components(entry)[0].Missing? && !Components(entry)[1].Missing?
      {
        var lat := ToFloat(Components(entry)[0], parse);
        var lon := ToFloat(Components(entry)[1], parse);
        if lat.Some? && lon.Some? {
          coords := coords + [(lat.value, lon.value)];
        }
      }
      k := k + 1;
    }
    assert c.items[..k] == c.items;
    r := if coords == [] then None else Some(coords);
  }

  /** A coordinate comes from exactly the valid entries, and none is invented. */
  lemma {:induction false} CoordsKept(entries: seq<Cell>, parse: string -> Option<real>, p: Coord)
    ensures p in Coords(entries, parse) <==>
      exists k :: 0 <= k < |entries| && ValidEntry(entries[k], parse) && CoordOf(entries[k], parse) == p
    decreases |entries|
  {
    if entries != [] {
      var init := entries[..|entries| - 1];
      CoordsKept(init, parse, p);
      if p in Coords(init, parse) {
        var k :| 0 <= k < |init| && ValidEntry(init[k], parse) && CoordOf(init[k], parse) == p;
        assert entries[k] == init[k];
      }
      if exists k :: 0 <= k < |entries| && ValidEntry(entries[k], parse) && CoordOf(entries[k], parse) == p {
        var k :| 0 <= k < |entries| && ValidEntry(entries[k], parse) && CoordOf(entries[k], parse) == p;
        if k < |init| { assert init[k] == entries[k]; }
      }
    }
  }

  /** With every entry valid nothing is dropped and the order is kept. */
  lemma {:induction false} CoordsAllValid(entries: seq<Cell>, parse: string -> Option<real>)
    requires forall k :: 0 <= k < |entries| ==> ValidEntry(entries[k], parse)
    ensures |Coords(entries, parse)| == |entries|
    ensures forall k :: 0 <= k < |entries| ==> Coords(entries, parse)[k] == CoordOf(entries[k], parse)
    decreases |entries|
  {
    if entries != [] {
      CoordsAllValid(entries[..|entries| - 1], parse);
    }
  }

  /** A tuple pair is accepted like a list pair, text components going
      through the parser. */
  lemma LatLonTuple(parse: string -> Option<real>)
    requires parse("2.5") == Some(2.5)
    ensures LatLon(List([Tuple([Real(1.0), Str("2.5")]), List([Int(3), Int(4)])]), parse) == Some([(1.0, 2.5), (3.0, 4.0)])
  {
    var es := [Tuple([Real(1.0), Str("2.5")]), List([Int(3), Int(4)])];
    assert ValidEntry(es[0], parse) && CoordOf(es[0], parse) == (1.0, 2.5);
    assert ValidEntry(es[1], parse) && CoordOf(es[1], parse) == (3.0, 4.0);
    assert Coords(es[..1], parse) == [(1.0, 2.5)] by {
      assert es[..1][..0] == [];
      assert es[..1][0] == es[0];
    }
    assert es[..1] == es[..|es| - 1];
    assert Coords(es, parse) == [(1.0, 2.5), (3.0, 4.0)];
    assert List(es).items == es;
  }

  /** A malformed entry (wrong length, a None component, text that is not a
      number) is skipped. */
  lemma LatLonSkipsMalformed(parse: string -> Option<real>)
    requires parse("north") == None
    ensures LatLon(List([List([Real(1.0)]), List([Missing, Real(2.0)]), List([Str("north"), Real(3.0)])]), parse) == None
  {
    var es := [List([Real(1.0)]), List([Missing, Real(2.0)]), List([Str("north"), Real(3.0)])];
    assert !ValidEntry(es[0], parse) && !ValidEntry(es[1], parse) && !ValidEntry(es[2], parse);
    assert Coords(es[..1], parse) == [] by {
      assert es[..1][..0] == [];
      assert es[..1][0] == es[0];
    }
    assert Coords(es[..2], parse) == [] by {
      assert es[..2][..1] == es[..1];
      assert es[..2][1] == es[1];
    }
    assert es[..2] == es[..|es| - 1];
  }

  // ---------------------------------------------------------------------
  // _haversine_km_vectorized and avg_haversine_km

  /** The distance in kilometres of one (patent, work) pair. */
  function Km(angle: (Coord, Coord) -> real): (Coord, Coord) -> real {
    (p, w) => EarthRadiusKm * angle(p, w)
  }

  /** The sum of one row of the distance matrix. */
  function RowSum(p: Coord, ws: seq<Coord>, d: (Coord, Coord) -> real): real
    decreases |ws|
  {
    if ws == [] then 0.0 else d(p, ws[0]) + RowSum(p, ws[1..], d)
  }

  /** The sum of the whole |ps| x |ws| distance matrix. */
  function PairSum(ps: seq<Coord>, ws: seq<Coord>, d: (Coord, Coord) -> real): real
    decreases |ps|
  {
    if ps == [] then 0.0 else RowSum(ps[0], ws, d) + PairSum(ps[1..], ws, d)
  }

  /** The number of (patent, work) pairs, the distance matrix's `size`,
      counted row by row. */
  function Pairs(ps: seq<Coord>, ws: seq<Coord>): nat
    decreases |ps|
  {
    if ps == [] then 0 else |ws| + Pairs(ps[1..], ws)
  }

  /** The matrix has |ps|·|ws| entries. */
  lemma {:induction false} PairsCount(ps: seq<Coord>, ws: seq<Coord>)
    ensures Pairs(ps, ws) == |ps| * |ws|
    decreases |ps|
  {
    if ps != [] {
      PairsCount(ps[1..], ws);
    }
  }

  /** `avg_haversine_km(pat, work)`: NaN when either side has no coordinate,
      else the mean over all pairs. */
  function AvgHaversine(pat: Cell, work: Cell, parse: string -> Option<real>, angle: (Coord, Coord) -> real): (r: Cell)
    ensures r.Missing? <==> LatLon(pat, parse).None? || LatLon(work, parse).None?
    ensures !r.Missing? ==>
      var ps := LatLon(pat, parse).value;
      var ws := LatLon(work, parse).value;
      r.Real? && r.r * Pairs(ps, ws) as real == PairSum(ps, ws, Km(angle))
  {
    var a := LatLon(pat, parse);
    var b := LatLon(work, parse);
    if a.None? || b.None? then Missing
    else
      PairsPositive(a.value, b.value);
      Real(PairSum(a.value, b.value, Km(angle)) / Pairs(a.value, b.value) as real)
  }

  /** The distance that is `c` for every pair. */
  function Const(c: real): (Coord, Coord) -> real {
    (p, w) => c
  }

  /** A pointwise smaller distance gives a smaller row sum. */
  lemma {:induction false} RowSumMono(p: Coord, ws: seq<Coord>, d1: (Coord, Coord) -> real, d2: (Coord, Coord) -> real)
    requires forall k :: 0 <= k < |ws| ==> d1(p, ws[k]) <= d2(p, ws[k])
    ensures RowSum(p, ws, d1) <= RowSum(p, ws, d2)
    decreases |ws|
  {
    if ws != [] {
      RowSumMono(p, ws[1..], d1, d2);
    }
  }

  /** A pointwise smaller distance gives a smaller matrix sum. */
  lemma {:induction false} PairSumMono(ps: seq<Coord>, ws: seq<Coord>, d1: (Coord, Coord) -> real, d2: (Coord, Coord) -> real)
    requires forall i, j :: 0 <= i < |ps| && 0 <= j < |ws| ==> d1(ps[i], ws[j]) <= d2(ps[i], ws[j])
    ensures PairSum(ps, ws, d1) <= PairSum(ps, ws, d2)
    decreases |ps|
  {
    if ps != [] {
      assert forall k :: 0 <= k < |ws| ==> d1(ps[0], ws[k]) <= d2(ps[0], ws[k]);
      RowSumMono(ps[0], ws, d1, d2);
      PairSumMono(ps[1..], ws, d1, d2);
    }
  }

  lemma {:induction false} RowSumConst(p: Coord, ws: seq<Coord>, c: real)
    ensures RowSum(p, ws, Const(c)) == c * |ws| as real
    decreases |ws|
  {
    if ws != [] {
      RowSumConst(p, ws[1..], c);
    }
  }

  /** A constant distance `c` sums to `c` times the number of pairs. */
  lemma {:induction false} PairSumConst(ps: seq<Coord>, ws: seq<Coord>, c: real)
    ensures PairSum(ps, ws, Const(c)) == c * Pairs(ps, ws) as real
    decreases |ps|
  {
    if ps != [] {
      RowSumConst(ps[0], ws, c);
      PairSumConst(ps[1..], ws, c);
    }
  }

  /** A lower bound on every pair's distance bounds the matrix sum ... */
  lemma PairSumAtLeast(ps: seq<Coord>, ws: seq<Coord>, d: (Coord, Coord) -> real, lo: real)
    requires forall i, j :: 0 <= i < |ps| && 0 <= j < |ws| ==> lo <= d(ps[i], ws[j])
    ensures lo * Pairs(ps, ws) as real <= PairSum(ps, ws, d)
  {
    PairSumMono(ps, ws, Const(lo), d);
    PairSumConst(ps, ws, lo);
  }

  /** ... and so does an upper bound. */
  lemma PairSumAtMost(ps: seq<Coord>, ws: seq<Coord>, d: (Coord, Coord) -> real, hi: real)
    requires forall i, j :: 0 <= i < |ps| && 0 <= j < |ws| ==> d(ps[i], ws[j]) <= hi
    ensures PairSum(ps, ws, d) <= hi * Pairs(ps, ws) as real
  {
    PairSumMono(ps, ws, d, Const(hi));
    PairSumConst(ps, ws, hi);
  }

  /** The mean distance lies within any bounds of the pairwise distances; a
      non-negative central angle gives a non-negative mean. */
  lemma AvgHaversineBounds(pat: Cell, work: Cell, parse: string -> Option<real>, angle: (Coord, Coord) -> real, lo: real, hi: real)
    requires AvgHaversine(pat, work, parse, angle).Real?
    requires forall i, j :: 0 <= i < |LatLon(pat, parse).value| && 0 <= j < |LatLon(work, parse).value| ==>
      lo <= Km(angle)(LatLon(pat, parse).value[i], LatLon(work, parse).value[j]) <= hi
    ensures lo <= AvgHaversine(pat, work, parse, angle).r <= hi
  {
    var ps := LatLon(pat, parse).value;
    var ws := LatLon(work, parse).value;
    PairMeanAtLeast(ps, ws, Km(angle), lo);
    PairMeanAtMost(ps, ws, Km(angle), hi);
  }

  /** The mean of the matrix is at least any lower bound of its entries ... */
  lemma PairMeanAtLeast(ps: seq<Coord>, ws: seq<Coord>, d: (Coord, Coord) -> real, lo: real)
    requires |ps| > 0 && |ws| > 0
    requires forall i, j :: 0 <= i < |ps| && 0 <= j < |ws| ==> lo <= d(ps[i], ws[j])
    ensures lo <= PairSum(ps, ws, d) / Pairs(ps, ws) as real
  {
    PairSumAtLeast(ps, ws, d, lo);
    PairsPositive(ps, ws);
    QuotientAtLeast(PairSum(ps, ws, d), Pairs(ps, ws) as real, lo);
  }

  /** ... and at most any upper bound. */
  lemma PairMeanAtMost(ps: seq<Coord>, ws: seq<Coord>, d: (Coord, Coord) -> real, hi: real)
    requires |ps| > 0 && |ws| > 0
    requires forall i, j :: 0 <= i < |ps| && 0 <= j < |ws| ==> d(ps[i], ws[j]) <= hi
    ensures PairSum(ps, ws, d) / Pairs(ps, ws) as real <= hi
  {
    PairSumAtMost(ps, ws, d, hi);
    PairsPositive(ps, ws);
    QuotientAtMost(PairSum(ps, ws, d), Pairs(ps, ws) as real, hi);
  }

  lemma QuotientAtLeast(s: real, n: real, lo: real)
    requires n > 0.0 && lo * n <= s
    ensures lo <= s / n
  {
    var q := s / n;
    assert q * n == s;
    if q < lo { MulStrict(q, lo, n); }
  }

  lemma QuotientAtMost(s: real, n: real, hi: real)
    requires n > 0.0 && s <= hi * n
    ensures s / n <= hi
  {
    var q := s / n;
    assert q * n == s;
    if q > hi { MulStrict(hi, q, n); }
  }

  lemma PairsPositive(ps: seq<Coord>, ws: seq<Coord>)
    requires |ps| > 0 && |ws| > 0
    ensures Pairs(ps, ws) > 0
  {
  }

  /** One coordinate on each side: the mean is that pair's distance. */
  lemma AvgHaversineSingle(pat: Cell, work: Cell, parse: string -> Option<real>, angle: (Coord, Coord) -> real)
    requires LatLon(pat, parse).Some? && |LatLon(pat, parse).value| == 1
    requires LatLon(work, parse).Some? && |LatLon(work, parse).value| == 1
    ensures AvgHaversine(pat, work, parse, angle)
      == Real(EarthRadiusKm * angle(LatLon(pat, parse).value[0], LatLon(work, parse).value[0]))
  {
    var ps := LatLon(pat, parse).value;
    var ws := LatLon(work, parse).value;
    assert ps[1..] == [] && ws[1..] == [];
    assert RowSum(ps[0], ws, Km(angle)) == Km(angle)(ps[0], ws[0]);
    assert PairSum(ps, ws, Km(angle)) == Km(angle)(ps[0], ws[0]);
    assert Pairs(ps, ws) == 1;
  }

  /** Summing a column of the matrix. */
  function ColumnSum(ps: seq<Coord>, w: Coord, d: (Coord, Coord) -> real): real
    decreases |ps|
  {
    if ps == [] then 0.0 else d(ps[0], w) + ColumnSum(ps[1..], w, d)
  }

  lemma {:induction false} PairSumFirstColumn(ps: seq<Coord>, w: Coord, ws: seq<Coord>, d: (Coord, Coord) -> real)
    ensures PairSum(ps, [w] + ws, d) == ColumnSum(ps, w, d) + PairSum(ps, ws, d)
    decreases |ps|
  {
    if ps != [] {
      PairSumFirstColumn(ps[1..], w, ws, d);
      assert ([w] + ws)[0] == w && ([w] + ws)[1..] == ws;
    }
  }

  lemma {:induction false} ColumnIsRow(ps: seq<Coord>, w: Coord, d: (Coord, Coord) -> real)
    requires forall x, y :: d(x, y) == d(y, x)
    ensures ColumnSum(ps, w, d) == RowSum(w, ps, d)
    decreases |ps|
  {
    if ps != [] {
      ColumnIsRow(ps[1..], w, d);
    }
  }

  /** With a symmetric distance the matrix sums to the same either way round. */
  lemma {:induction false} PairSumSwap(ps: seq<Coord>, ws: seq<Coord>, d: (Coord, Coord) -> real)
    requires forall x, y :: d(x, y) == d(y, x)
    ensures PairSum(ps, ws, d) == PairSum(ws, ps, d)
    decreases |ws|
  {
    if ws == [] {
      EmptyColumns(ps, d);
    } else {
      PairSumFirstColumn(ps, ws[0], ws[1..], d);
      assert [ws[0]] + ws[1..] == ws;
      ColumnIsRow(ps, ws[0], d);
      PairSumSwap(ps, ws[1..], d);
    }
  }

  lemma {:induction false} EmptyColumns(ps: seq<Coord>, d: (Coord, Coord) -> real)
    ensures PairSum(ps, [], d) == 0.0
    decreases |ps|
  {
    if ps != [] {
      EmptyColumns(ps[1..], d);
    }
  }

  /** With a symmetric central angle the mean distance does not depend on
      which side is the patent. */
  lemma AvgHaversineSymmetric(pat: Cell, work: Cell, parse: string -> Option<real>, angle: (Coord, Coord) -> real)
    requires forall x, y :: angle(x, y) == angle(y, x)
    ensures AvgHaversine(pat, work, parse, angle) == AvgHaversine(work, pat, parse, angle)
  {
    var a := LatLon(pat, parse);
    var b := LatLon(work, parse);
    if a.Some? && b.Some? {
      PairSumSwap(a.value, b.value, Km(angle));
      PairsCount(a.value, b.value);
      PairsCount(b.value, a.value);
    }
  }

  // ---------------------------------------------------------------------
  // add_geo_distance

  const Required: seq<string> := ["patent_assignee_latlon_list", "work_latlon_list"]

  function Averager(parse: string -> Option<real>, angle: (Coord, Coord) -> real): (Cell, Cell) -> Cell {
    (pat, work) => AvgHaversine(pat, work, parse, angle)
  }

  /** The frame after `add_geo_distance` and whether it raised. */
  function GeoDistanceSpec(t: Table, parse: string -> Option<real>, angle: (Coord, Coord) -> real): (o: Outcome)
    requires t.Valid()
    ensures o.table.Valid() && o.table.rows == t.rows
    ensures o.status != Ok ==> o.table == t
    ensures o.status == Ok ==> "patent_assignee_latlon_list" in t.columns && "work_latlon_list" in t.columns
  {
    var req := RequireColumns(t.columns.Keys, Required, "geo_distance");
    if req != Ok then Outcome(t, req)
    else
      assert Required[1] in Required;
      Outcome(t.With("avg_haversine_km",
        ZipCells(t.columns["patent_assignee_latlon_list"], t.columns["work_latlon_list"], Averager(parse, angle))), Ok)
  }

  /** `add_geo_distance(df)`, updating `df` in place. */
  method AddGeoDistance(f: Frame, parse: string -> Option<real>, angle: (Coord, Coord) -> real) returns (status: Status)
    requires f.Valid()
    modifies f
    ensures f.Valid() && Outcome(f.View(), status) == GeoDistanceSpec(old(f.View()), parse, angle)
  {
    status := RequireColumns(f.columns.Keys, Required, "geo_distance");
    if status == Ok {
      f.SetColumn("avg_haversine_km",
        ZipCells(f.columns["patent_assignee_latlon_list"], f.columns["work_latlon_list"], Averager(parse, angle)));
    }
  }

  lemma GeoDistanceStatus(t: Table, parse: string -> Option<real>, angle: (Coord, Coord) -> real)
    requires t.Valid()
    ensures var o := GeoDistanceSpec(t, parse, angle);
      && (o.status == Ok <==> "patent_assignee_latlon_list" in t.columns && "work_latlon_list" in t.columns)
      && (o.status != Ok ==>
            o.status == Fail(ValueError(MissingMessage("geo_distance", MissingColumns(t.columns.Keys, Required)))))
  {
    if "patent_assignee_latlon_list" in t.columns && "work_latlon_list" in t.columns {
      forall c | c in Required ensures c in t.columns {
        assert c == Required[0] || c == Required[1];
      }
    } else {
      assert Required[0] in Required && Required[1] in Required;
    }
  }

  /** Each row's distance is that row's `avg_haversine_km`; no other column changes. */
  lemma GeoDistanceRow(t: Table, parse: string -> Option<real>, angle: (Coord, Coord) -> real, i: int)
    requires t.Valid() && GeoDistanceSpec(t, parse, angle).status == Ok && 0 <= i < t.rows
    ensures var r := GeoDistanceSpec(t, parse, angle).table;
      && r.columns["avg_haversine_km"][i]
         == AvgHaversine(t.columns["patent_assignee_latlon_list"][i], t.columns["work_latlon_list"][i], parse, angle)
      && r.columns.Keys == t.columns.Keys + {"avg_haversine_km"}
      && forall n :: n in t.columns && n != "avg_haversine_km" ==> r.columns[n] == t.columns[n]
  {
  }
}
