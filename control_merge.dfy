/** Merging the compact output with the control datasets: the two control
    preparers, the keep-last combination of a control pair, and the left
    join of the compact frame with each control frame on `pair_id`. */
module ControlMerge {
  import opened Text
  import opened Cells
  import opened Frames
  import opened Utils

  const OpenAlexPrefix: string := "https://openalex.org/"
  const MergedKeys: seq<string> := ["paperid", "patent"]
  const TrueMergedKeys: seq<string> := ["work_id", "patent_id_us"]

  // ---------------------------------------------------------------------
  // _prepare_merged_control and _prepare_true_merged_control

  /** `paperid.astype(str) + "|" + patent.astype(str)`. */
  function MergedPairKey(paper: Cell, patent: Cell): Cell {
    Str(Show(paper) + "|" + Show(patent))
  }

  /** `work_id.astype(str)` without the OpenAlex prefix, a bar, and
      `patent_id_us.astype(str)`. */
  function TruePairKey(work: Cell, patent: Cell): Cell {
    Str(RemoveAll(Show(work), OpenAlexPrefix) + "|" + Show(patent))
  }

  /** `_prepare_merged_control(df, context=...)`; the result is a new frame. */
  function MergedControl(t: Table, context: string): (r: Result<Table>)
    requires t.Valid()
    ensures r.Success? ==> r.value.Valid() && r.value.rows == t.rows
  {
    var req := RequireColumns(t.columns.Keys, MergedKeys, context);
    if req != Ok then Failure(req.error)
    else
      assert MergedKeys[0] in MergedKeys && MergedKeys[1] in MergedKeys;
      var keys := ZipCells(t.columns["paperid"], t.columns["patent"], MergedPairKey);
      Success(t.With("pair_id", keys).Without({"paperid", "patent"}))
  }

  /** `_prepare_true_merged_control(df, context=...)`; the result is a new frame. */
  function TrueMergedControl(t: Table, context: string): (r: Result<Table>)
    requires t.Valid()
    ensures r.Success? ==> r.value.Valid() && r.value.rows == t.rows
  {
    var req := RequireColumns(t.columns.Keys, TrueMergedKeys, context);
    if req != Ok then Failure(req.error)
    else
      assert TrueMergedKeys[0] in TrueMergedKeys && TrueMergedKeys[1] in TrueMergedKeys;
      var keys := ZipCells(t.columns["work_id"], t.columns["patent_id_us"], TruePairKey);
      Success(t.With("pair_id", keys).Without({"work_id", "patent_id_us", "patent_id"}))
  }

  /** The merged preparer raises exactly when `paperid` or `patent` is absent,
      naming the absent ones. On success `pair_id` is added, the two source
      columns are gone, and every other column is as it was. */
  lemma MergedControlEffect(t: Table, context: string)
    requires t.Valid()
    ensures var r := MergedControl(t, context);
      && (r.Success? <==> "paperid" in t.columns && "patent" in t.columns)
      && (r.Failure? ==> r.error == ValueError(MissingMessage(context, MissingColumns(t.columns.Keys, MergedKeys))))
      && (r.Success? ==>
            && r.value.columns.Keys == t.columns.Keys + {"pair_id"} - {"paperid", "patent"}
            && forall n :: n in t.columns && n !in {"pair_id", "paperid", "patent"} ==> r.value.columns[n] == t.columns[n])
  {
    if "paperid" in t.columns && "patent" in t.columns {
      forall c | c in MergedKeys ensures c in t.columns {
        assert c == MergedKeys[0] || c == MergedKeys[1];
      }
    } else {
      assert MergedKeys[0] in MergedKeys && MergedKeys[1] in MergedKeys;
    }
  }

  /** Each row's key is its paper id, a bar, and its patent. */
  lemma MergedControlKey(t: Table, context: string, i: int)
    requires t.Valid() && MergedControl(t, context).Success? && 0 <= i < t.rows
    ensures MergedControl(t, context).value.columns["pair_id"][i]
      == Str(Show(t.columns["paperid"][i]) + "|" + Show(t.columns["patent"][i]))
  {
    MergedControlEffect(t, context);
  }

  /** The true-merged preparer raises exactly when `work_id` or
      `patent_id_us` is absent, naming the absent ones. On success `pair_id`
      is added, `work_id`, `patent_id_us` and `patent_id` are gone, and every
      other column is as it was. */
  lemma TrueMergedControlEffect(t: Table, context: string)
    requires t.Valid()
    ensures var r := TrueMergedControl(t, context);
      && (r.Success? <==> "work_id" in t.columns && "patent_id_us" in t.columns)
      && (r.Failure? ==> r.error == ValueError(MissingMessage(context, MissingColumns(t.columns.Keys, TrueMergedKeys))))
      && (r.Success? ==>
            && r.value.columns.Keys == t.columns.Keys + {"pair_id"} - {"work_id", "patent_id_us", "patent_id"}
            && forall n :: n in t.columns && n !in {"pair_id", "work_id", "patent_id_us", "patent_id"} ==>
                 r.value.columns[n] == t.columns[n])
  {
    if "work_id" in t.columns && "patent_id_us" in t.columns {
      forall c | c in TrueMergedKeys ensures c in t.columns {
        assert c == TrueMergedKeys[0] || c == TrueMergedKeys[1];
      }
    } else {
      assert TrueMergedKeys[0] in TrueMergedKeys && TrueMergedKeys[1] in TrueMergedKeys;
    }
  }

  /** Each row's key is its work id with every OpenAlex prefix removed, a bar,
      and its US patent id. */
  lemma TrueMergedControlKey(t: Table, context: string, i: int)
    requires t.Valid() && TrueMergedControl(t, context).Success? && 0 <= i < t.rows
    ensures TrueMergedControl(t, context).value.columns["pair_id"][i]
      == Str(RemoveAll(Show(t.columns["work_id"][i]), OpenAlexPrefix) + "|" + Show(t.columns["patent_id_us"][i]))
  {
    TrueMergedControlEffect(t, context);
  }

  /** The two spellings of one pair meet: a work id that is the OpenAlex URL
      of the merged file's paper id gives the same key as that paper id, so
      the two files' rows of one pair collide when combined. */
  lemma PairKeysAgree(paper: string, patent: Cell)
    requires !Contains(paper, OpenAlexPrefix)
    ensures TruePairKey(Str(OpenAlexPrefix + paper), patent) == MergedPairKey(Str(paper), patent)
  {
    PrefixRemoveRoundTrip(paper, OpenAlexPrefix);
  }

  /** `_prepare_merged_control` on a frame object: `df.copy()`, then the key
      and the drop on the copy. The caller's frame is not changed. */
  method PrepareMergedControl(df: Frame, context: string) returns (r: Result<Frame>)
    requires df.Valid()
    ensures r.Success? ==> fresh(r.value) && r.value.Valid() && MergedControl(df.View(), context) == Success(r.value.View())
    ensures r.Failure? ==> MergedControl(df.View(), context) == Failure(r.error)
  {
    var req := RequireColumns(df.columns.Keys, MergedKeys, context);
    if req != Ok {
      return Failure(req.error);
    }
    var out := df.Copy();
    out.SetColumn("pair_id", ZipCells(out.columns["paperid"], out.columns["patent"], MergedPairKey));
    out.DropColumns({"paperid", "patent"});
    r := Success(out);
  }

  /** `_prepare_true_merged_control` on a frame object, working on a copy. */
  method PrepareTrueMergedControl(df: Frame, context: string) returns (r: Result<Frame>)
    requires df.Valid()
    ensures r.Success? ==> fresh(r.value) && r.value.Valid() && TrueMergedControl(df.View(), context) == Success(r.value.View())
    ensures r.Failure? ==> TrueMergedControl(df.View(), context) == Failure(r.error)
  {
    var req := RequireColumns(df.columns.Keys, TrueMergedKeys, context);
    if req != Ok {
      return Failure(req.error);
    }
    var out := df.Copy();
    out.SetColumn("pair_id", ZipCells(out.columns["work_id"], out.columns["patent_id_us"], TruePairKey));
    out.DropColumns({"work_id", "patent_id_us", "patent_id"});
    r := Success(out);
  }

  // ---------------------------------------------------------------------
  // _combine_controls

  /** A column of one side of a concatenation: the side's own column, or
      all missing where the side does not have it. */
  function Part(t: Table, n: string): (r: seq<Cell>)
    requires t.Valid()
    ensures |r| == t.rows
  {
    if n in t.columns then t.columns[n] else Fill(Missing, t.rows)
  }

  /** `pd.concat([a, b], ignore_index=True)`: the rows of `a`, then those of
      `b`, over the union of their columns. */
  function Concat(a: Table, b: Table): (r: Table)
    requires a.Valid() && b.Valid()
    ensures r.Valid() && r.rows == a.rows + b.rows
    ensures r.columns.Keys == a.columns.Keys + b.columns.Keys
  {
    Table(map n | n in a.columns.Keys + b.columns.Keys :: Part(a, n) + Part(b, n), a.rows + b.rows)
  }

  /** No later row has the same key. */
  predicate LastOccurrence(keys: seq<Cell>, i: int)
    requires 0 <= i < |keys|
  {
    forall j | i < j < |keys| :: keys[j] != keys[i]
  }

  /** The rows below `n` that `drop_duplicates(keep="last")` keeps, in order. */
  function KeptUpTo(keys: seq<Cell>, n: nat): (r: seq<nat>)
    requires n <= |keys|
    ensures forall k | 0 <= k < |r| :: r[k] < n && LastOccurrence(keys, r[k])
    ensures forall a, b | 0 <= a < b < |r| :: r[a] < r[b]
    decreases n
  {
    if n == 0 then []
    else KeptUpTo(keys, n - 1) + (if LastOccurrence(keys, n - 1) then [n - 1] else [])
  }

  /** A row below `n` is kept exactly when no later row repeats its key. */
  lemma {:induction false} KeptUpToIff(keys: seq<Cell>, n: nat, i: int)
    requires n <= |keys|
    ensures i in KeptUpTo(keys, n) <==> 0 <= i < n && LastOccurrence(keys, i)
    decreases n
  {
    if n > 0 {
      KeptUpToIff(keys, n - 1, i);
    }
  }

  /** `df.iloc[rows]` with a fresh index. */
  function SelectRows(t: Table, rows: seq<nat>): (r: Table)
    requires t.Valid() && forall k | 0 <= k < |rows| :: rows[k] < t.rows
    ensures r.Valid() && r.rows == |rows| && r.columns.Keys == t.columns.Keys
    ensures forall n, k | n in t.columns && 0 <= k < |rows| :: r.columns[n][k] == t.columns[n][rows[k]]
  {
    Table(map n | n in t.columns :: seq(|rows|, k requires 0 <= k < |rows| => t.columns[n][rows[k]]), |rows|)
  }

  /** The rows `drop_duplicates(subset=[key], keep="last")` keeps. */
  function Kept(t: Table, key: string): (r: seq<nat>)
    requires t.Valid() && key in t.columns
    ensures forall k | 0 <= k < |r| :: r[k] < t.rows
  {
    KeptUpTo(t.columns[key], t.rows)
  }

  /** `_combine_controls(merged, true_merged)`. A key column absent from both
      sides makes pandas raise. */
  function CombineControls(a: Table, b: Table): (r: Result<Table>)
    requires a.Valid() && b.Valid()
    ensures r.Failure? <==> "pair_id" !in a.columns && "pair_id" !in b.columns
    ensures r.Success? ==> r.value.Valid() && r.value.columns.Keys == a.columns.Keys + b.columns.Keys
  {
    var c := Concat(a, b);
    if "pair_id" !in c.columns then Failure(Crash)
    else Success(SelectRows(c, Kept(c, "pair_id")))
  }

  /** After the combination no two rows share a key, and the rows are the
      last row of each key of the concatenation, in their original order. */
  lemma CombineUnique(a: Table, b: Table)
    requires a.Valid() && b.Valid() && CombineControls(a, b).Success?
    ensures var c := Concat(a, b);
      var r := CombineControls(a, b).value;
      && Distinct(r.columns["pair_id"])
      && forall k | 0 <= k < r.rows :: r.columns["pair_id"][k] == c.columns["pair_id"][Kept(c, "pair_id")[k]]
  {
    var c := Concat(a, b);
    var kept := Kept(c, "pair_id");
    var r := CombineControls(a, b).value;
    forall x, y | 0 <= x < y < r.rows ensures r.columns["pair_id"][x] != r.columns["pair_id"][y] {
      assert kept[x] < kept[y];
      assert LastOccurrence(c.columns["pair_id"], kept[x]);
    }
  }

  /** The last row of the concatenation with a given key. */
  function LastOf(keys: seq<Cell>, x: Cell, n: nat): (j: nat)
    requires n <= |keys| && x in keys[..n]
    ensures j < n && keys[j] == x
    ensures forall i | j < i < n :: keys[i] != x
    decreases n
  {
    if keys[n - 1] == x then n - 1
    else
      assert keys[..n] == keys[..n - 1] + [keys[n - 1]];
      LastOf(keys, x, n - 1)
  }

  /** Every key of either side survives the combination. */
  lemma CombineKeepsKeys(a: Table, b: Table, i: int)
    requires a.Valid() && b.Valid() && CombineControls(a, b).Success?
    requires 0 <= i < a.rows + b.rows
    ensures var c := Concat(a, b);
      c.columns["pair_id"][i] in CombineControls(a, b).value.columns["pair_id"]
  {
    var c := Concat(a, b);
    var keys := c.columns["pair_id"];
    var r := CombineControls(a, b).value;
    assert keys[..|keys|] == keys;
    var j := LastOf(keys, keys[i], |keys|);
    KeptUpToIff(keys, c.rows, j);
    var kept := Kept(c, "pair_id");
    var k :| 0 <= k < |kept| && kept[k] == j;
    assert r.columns["pair_id"][k] == keys[i];
  }

  /** A true-merged row beats a merged row with the same key: the row kept
      for any key that the true-merged side has comes from that side, and
      holds its values. */
  lemma CombineTrueWins(a: Table, b: Table, k: int, j: int)
    requires a.Valid() && b.Valid() && "pair_id" in b.columns && CombineControls(a, b).Success?
    requires 0 <= k < CombineControls(a, b).value.rows && 0 <= j < b.rows
    requires CombineControls(a, b).value.columns["pair_id"][k] == b.columns["pair_id"][j]
    ensures var c := Concat(a, b);
      var idx := Kept(c, "pair_id")[k];
      && a.rows <= idx
      && forall n | n in b.columns :: CombineControls(a, b).value.columns[n][k] == b.columns[n][idx - a.rows]
  {
    var c := Concat(a, b);
    var keys := c.columns["pair_id"];
    var kept := Kept(c, "pair_id");
    var r := SelectRows(c, kept);
    assert CombineControls(a, b).value == r;
    var idx := kept[k];
    assert keys[idx] == r.columns["pair_id"][k];
    ConcatRight(a, b, "pair_id", j);
    assert LastOccurrence(keys, idx);
    assert a.rows + j <= idx;
    forall n | n in b.columns ensures r.columns[n][k] == b.columns[n][idx - a.rows] {
      ConcatRight(a, b, n, idx - a.rows);
    }
  }

  /** Row `a.rows + i` of the concatenation is row `i` of the second side. */
  lemma ConcatRight(a: Table, b: Table, n: string, i: int)
    requires a.Valid() && b.Valid() && n in b.columns && 0 <= i < b.rows
    ensures Concat(a, b).columns[n][a.rows + i] == b.columns[n][i]
  {
    assert Concat(a, b).columns[n] == Part(a, n) + b.columns[n];
  }


  /** One control dataset of `load_and_prepare_control_frames`: the two raw
      files of a pair prepared under the context `key:file`, then combined. */
  function ControlPair(key: string, mergedName: string, trueName: string, merged: Table, trueMerged: Table): (r: Result<Table>)
    requires merged.Valid() && trueMerged.Valid()
    ensures r.Success? ==> r.value.Valid() && "pair_id" in r.value.columns
  {
    match MergedControl(merged, key + ":" + mergedName)
    case Failure(e) => Failure(e)
    case Success(m) =>
      match TrueMergedControl(trueMerged, key + ":" + trueName)
      case Failure(e) => Failure(e)
      case Success(tm) =>
        MergedControlEffect(merged, key + ":" + mergedName);
        CombineControls(m, tm)
  }

  // ---------------------------------------------------------------------
  // merge_compact_with_controls

  /** The rows of `keys` equal to `x`, in order. */
  function Matches(keys: seq<Cell>, x: Cell): (r: seq<nat>)
    ensures forall k | 0 <= k < |r| :: r[k] < |keys| && keys[r[k]] == x
    ensures forall a, b | 0 <= a < b < |r| :: r[a] < r[b]
    decreases |keys|
  {
    if keys == [] then []
    else
      var n := |keys| - 1;
      Matches(keys[..n], x) + (if keys[n] == x then [n] else [])
  }

  /** A key has a match exactly when it occurs. */
  lemma {:induction false} MatchesEmpty(keys: seq<Cell>, x: Cell)
    ensures Matches(keys, x) == [] <==> x !in keys
    decreases |keys|
  {
    if keys != [] {
      var n := |keys| - 1;
      MatchesEmpty(keys[..n], x);
      assert keys == keys[..n] + [keys[n]];
    }
  }

  /** Unique keys match at most once. */
  lemma MatchesRepeat(keys: seq<Cell>, x: Cell)
    ensures |Matches(keys, x)| > 1 ==> !Distinct(keys)
  {
    var m := Matches(keys, x);
    if |m| > 1 {
      assert m[0] < m[1] && keys[m[0]] == keys[m[1]];
    }
  }

  /** Unique keys match at most once. */
  lemma MatchesUnique(keys: seq<Cell>, x: Cell)
    requires Distinct(keys)
    ensures |Matches(keys, x)| <= 1
  {
    MatchesRepeat(keys, x);
  }

  /** The join rows of left row `i` with key `x`: one per matching control
      row, or a single unmatched row. */
  function RowPairs(i: nat, x: Cell, keys: seq<Cell>): (p: seq<(nat, Option<nat>)>)
    ensures |p| == (if Matches(keys, x) == [] then 1 else |Matches(keys, x)|)
    ensures forall k | 0 <= k < |p| :: p[k].0 == i
    ensures forall k | 0 <= k < |p| :: p[k].1.Some? ==> p[k].1.value < |keys| && keys[p[k].1.value] == x
    ensures Matches(keys, x) == [] ==> p == [(i, None)]
  {
    var m := Matches(keys, x);
    if m == [] then [(i, None)]
    else seq(|m|, k requires 0 <= k < |m| => (i, Some(m[k])))
  }

  /** The rows of `left.merge(right, on=key, how="left")`: each left row in
      order, paired with each matching right row in order, or with none. */
  function JoinPairs(left: seq<Cell>, right: seq<Cell>): (p: seq<(nat, Option<nat>)>)
    ensures |p| >= |left|
    ensures forall k | 0 <= k < |p| :: p[k].0 < |left|
    ensures forall k | 0 <= k < |p| :: p[k].1.Some? ==> p[k].1.value < |right| && right[p[k].1.value] == left[p[k].0]
    decreases |left|
  {
    if left == [] then []
    else
      var n := |left| - 1;
      JoinPairs(left[..n], right) + RowPairs(n, left[n], right)
  }

  /** The join keeps the left row count exactly when no left key matches
      more than one right row. */
  lemma JoinPairsCount(left: seq<Cell>, right: seq<Cell>)
    ensures |JoinPairs(left, right)| == |left| <==> forall i | 0 <= i < |left| :: |Matches(right, left[i])| <= 1
  {
    if |JoinPairs(left, right)| == |left| {
      JoinPairsKept(left, right);
    }
    if forall i | 0 <= i < |left| :: |Matches(right, left[i])| <= 1 {
      JoinPairsSingle(left, right);
    }
  }

  /** A kept row count means no left key matches twice. */
  lemma {:induction false} JoinPairsKept(left: seq<Cell>, right: seq<Cell>)
    requires |JoinPairs(left, right)| == |left|
    ensures forall i | 0 <= i < |left| :: |Matches(right, left[i])| <= 1
    decreases |left|
  {
    if left != [] {
      var n := |left| - 1;
      var init := left[..n];
      JoinPairsLength(left, right);
      assert |JoinPairs(init, right)| == |init|;
      assert |Matches(right, left[n])| <= 1;
      JoinPairsKept(init, right);
      forall i | 0 <= i < n ensures |Matches(right, left[i])| <= 1 {
        assert init[i] == left[i];
      }
    }
  }

  /** With no left key matching twice, the row count is kept. */
  lemma {:induction false} JoinPairsSingle(left: seq<Cell>, right: seq<Cell>)
    requires forall i | 0 <= i < |left| :: |Matches(right, left[i])| <= 1
    ensures |JoinPairs(left, right)| == |left|
    decreases |left|
  {
    if left != [] {
      var n := |left| - 1;
      var init := left[..n];
      assert forall i | 0 <= i < n :: init[i] == left[i];
      JoinPairsSingle(init, right);
      JoinPairsLength(left, right);
    }
  }


  /** The join of a non-empty left side: the join of all but its last row,
      then the pairing of the last row. */
  lemma JoinPairsLength(left: seq<Cell>, right: seq<Cell>)
    requires left != []
    ensures var n := |left| - 1;
      && |JoinPairs(left, right)| == |JoinPairs(left[..n], right)| + |RowPairs(n, left[n], right)|
      && |JoinPairs(left[..n], right)| >= n && |RowPairs(n, left[n], right)| >= 1
      && (|RowPairs(n, left[n], right)| == 1 <==> |Matches(right, left[n])| <= 1)
  {
  }



  /** When the row count is kept, join row `i` is left row `i`, matched with
      a right row of the same key exactly when its key occurs on the right. */
  lemma {:induction false} JoinPairsAligned(left: seq<Cell>, right: seq<Cell>, i: int)
    requires |JoinPairs(left, right)| == |left| && 0 <= i < |left|
    ensures var p := JoinPairs(left, right);
      p[i].0 == i && (p[i].1.None? <==> left[i] !in right)
    decreases |left|
  {
    var n := |left| - 1;
    var init := left[..n];
    var q := JoinPairs(init, right);
    var rp := RowPairs(n, left[n], right);
    assert JoinPairs(left, right) == q + rp;
    assert |q| == n && |rp| == 1;
    if i < n {
      JoinPairsAligned(init, right, i);
      assert init[i] == left[i];
      assert (q + rp)[i] == q[i];
    } else {
      MatchesEmpty(right, left[n]);
      assert (q + rp)[n] == rp[0];
    }
  }

  /** A compact column's label in the join: `_compact` is appended when the
      control frame has a non-key column of the same name. */
  function LeftLabel(c: string, control: Table): string {
    if c != "pair_id" && c in control.columns then c + "_compact" else c
  }

  /** A control column's label in the join: `_control` is appended when the
      compact frame has a column of the same name. */
  function RightLabel(c: string, compact: Table): string {
    if c in compact.columns then c + "_control" else c
  }

  /** The suffixes make two columns of the join share a label. pandas
      refuses the first two cases, where one side's labels repeat among
      themselves (a `MergeError`). In the third a compact label meets a
      control label; pandas then keeps both columns under one name, which
      a column map cannot hold, so the model stops there too. */
  predicate LabelsClash(compact: Table, control: Table) {
    || (exists a, b :: a in compact.columns && b in compact.columns && a != b && LeftLabel(a, control) == LeftLabel(b, control))
    || (exists a, b :: a in control.columns && b in control.columns && a != "pair_id" && b != "pair_id" && a != b
          && RightLabel(a, compact) == RightLabel(b, compact))
    || (exists a, b :: a in compact.columns && b in control.columns && b != "pair_id" && LeftLabel(a, control) == RightLabel(b, compact))
  }

  /** A compact column of the join, row by row. */
  function LeftColumn(col: seq<Cell>, p: seq<(nat, Option<nat>)>): (r: seq<Cell>)
    requires forall k | 0 <= k < |p| :: p[k].0 < |col|
    ensures |r| == |p| && forall k | 0 <= k < |p| :: r[k] == col[p[k].0]
  {
    seq(|p|, k requires 0 <= k < |p| => col[p[k].0])
  }

  /** A control column of the join: the matched row's value, or missing. */
  function RightColumn(col: seq<Cell>, p: seq<(nat, Option<nat>)>): (r: seq<Cell>)
    requires forall k | 0 <= k < |p| :: p[k].1.Some? ==> p[k].1.value < |col|
    ensures |r| == |p|
    ensures forall k | 0 <= k < |p| :: r[k] == (if p[k].1.Some? then col[p[k].1.value] else Missing)
  {
    seq(|p|, k requires 0 <= k < |p| => if p[k].1.Some? then col[p[k].1.value] else Missing)
  }

  /** The frame `compact.merge(control, on="pair_id", how="left",
      suffixes=("_compact", "_control"))` when no labels clash. */
  function Join(compact: Table, control: Table): (r: Table)
    requires compact.Valid() && control.Valid() && "pair_id" in compact.columns && "pair_id" in control.columns
    requires !LabelsClash(compact, control)
    ensures r.Valid() && r.rows == |JoinPairs(compact.columns["pair_id"], control.columns["pair_id"])|
  {
    var p := JoinPairs(compact.columns["pair_id"], control.columns["pair_id"]);
    var left := map a | a in compact.columns :: LeftLabel(a, control) := LeftColumn(compact.columns[a], p);
    var right := map b | b in control.columns && b != "pair_id" :: RightLabel(b, compact) := RightColumn(control.columns[b], p);
    Table(left + right, |p|)
  }

  function RowCountMessage(key: string, before: nat, after: nat): string {
    "merge_compact_with_controls:" + key + " changed row count from " + NatToString(before) + " to " + NatToString(after)
  }

  /** One iteration of the loop of `merge_compact_with_controls`: the key
      guard on the control frame, the join, and the row-count guard. */
  function MergeOne(compact: Table, key: string, control: Table): (r: Result<Table>)
    requires compact.Valid() && control.Valid() && "pair_id" in compact.columns
    ensures r.Success? ==> r.value.Valid() && r.value.rows == compact.rows
  {
    if "pair_id" !in control.columns then
      Failure(ValueError(MissingMessage("merge_compact_with_controls:" + key, ["pair_id"])))
    else if LabelsClash(compact, control) then Failure(Crash)
    else
      var merged := Join(compact, control);
      if merged.rows != compact.rows then Failure(ValueError(RowCountMessage(key, compact.rows, merged.rows)))
      else Success(merged)
  }

  /** Filling the result dictionary from the loop's per-frame results in
      order: the first raise ends the loop, and a later frame of the same
      name overwrites an earlier one. */
  function Outputs(names: seq<string>, results: seq<Result<Table>>): (r: Result<map<string, Table>>)
    requires |names| == |results|
    decreases |names|
  {
    if names == [] then Success(map[])
    else
      var n := |names| - 1;
      match Outputs(names[..n], results[..n])
      case Failure(e) => Failure(e)
      case Success(m) =>
        match results[n]
        case Failure(e) => Failure(e)
        case Success(t) => Success(m[names[n] := t])
  }

  /** The loop finishes exactly when every frame merges; otherwise it raises
      the error of the first frame that fails. */
  lemma {:induction false} OutputsStatus(names: seq<string>, results: seq<Result<Table>>)
    requires |names| == |results|
    ensures var r := Outputs(names, results);
      && (r.Success? <==> forall i | 0 <= i < |results| :: results[i].Success?)
      && (r.Failure? ==> exists i | 0 <= i < |results| :: results[i] == Failure(r.error)
                           && forall j | 0 <= j < i :: results[j].Success?)
    decreases |names|
  {
    if names != [] {
      var n := |names| - 1;
      var init := results[..n];
      OutputsStatus(names[..n], init);
      assert forall i | 0 <= i < n :: init[i] == results[i];
      var p := Outputs(names[..n], init);
      if p.Failure? {
        var i :| 0 <= i < n && init[i] == Failure(p.error) && forall j | 0 <= j < i :: init[j].Success?;
        assert results[i] == Failure(p.error);
      }
    }
  }

  /** On success the dictionary's keys are the names. */
  lemma {:induction false} OutputsKeys(names: seq<string>, results: seq<Result<Table>>)
    requires |names| == |results| && Outputs(names, results).Success?
    ensures Outputs(names, results).value.Keys == set x | x in names
    decreases |names|
  {
    if names != [] {
      var n := |names| - 1;
      var init := names[..n];
      OutputsKeys(init, results[..n]);
      assert names == init + [names[n]];
      assert (set x | x in names) == (set x | x in init) + {names[n]};
    }
  }

  /** On success each name's entry is the result of the last frame under
      that name. */
  lemma {:induction false} OutputsValue(names: seq<string>, results: seq<Result<Table>>, i: int)
    requires |names| == |results| && Outputs(names, results).Success?
    requires 0 <= i < |names| && forall j | i < j < |names| :: names[j] != names[i]
    ensures names[i] in Outputs(names, results).value
    ensures results[i] == Success(Outputs(names, results).value[names[i]])
    decreases |names|
  {
    var n := |names| - 1;
    if i < n {
      var init := names[..n];
      OutputsValue(init, results[..n], i);
      assert init[i] == names[i];
      assert results[..n][i] == results[i];
    }
  }

  /** One more successful frame adds its entry to the dictionary. */
  lemma OutputsStep(names: seq<string>, results: seq<Result<Table>>, k: nat, outputs: map<string, Table>)
    requires |names| == |results| && k < |names|
    requires Outputs(names[..k], results[..k]) == Success(outputs) && results[k].Success?
    ensures Outputs(names[..k + 1], results[..k + 1]) == Success(outputs[names[k] := results[k].value])
  {
    assert names[..k + 1][..k] == names[..k];
    assert results[..k + 1][..k] == results[..k];
  }

  /** A failing frame makes the loop raise its error. */
  lemma OutputsFailStep(names: seq<string>, results: seq<Result<Table>>, k: nat)
    requires |names| == |results| && k < |names|
    requires Outputs(names[..k], results[..k]).Success? && results[k].Failure?
    ensures Outputs(names[..k + 1], results[..k + 1]) == Failure(results[k].error)
  {
    assert names[..k + 1][..k] == names[..k];
    assert results[..k + 1][..k] == results[..k];
  }

  /** Once the loop has raised, later frames change nothing. */
  lemma {:induction false} OutputsStopped(names: seq<string>, results: seq<Result<Table>>, k: nat)
    requires |names| == |results| && k <= |names|
    requires Outputs(names[..k], results[..k]).Failure?
    ensures Outputs(names, results) == Outputs(names[..k], results[..k])
    decreases |names| - k
  {
    if k < |names| {
      assert names[..k + 1][..k] == names[..k];
      assert results[..k + 1][..k] == results[..k];
      OutputsStopped(names, results, k + 1);
    } else {
      assert names[..k] == names && results[..k] == results;
    }
  }

  function Names(controls: seq<(string, Table)>): (r: seq<string>)
    ensures |r| == |controls| && forall k | 0 <= k < |controls| :: r[k] == controls[k].0
  {
    seq(|controls|, k requires 0 <= k < |controls| => controls[k].0)
  }

  /** The loop body's result for each control frame. */
  function MergeResults(compact: Table, controls: seq<(string, Table)>): (r: seq<Result<Table>>)
    requires compact.Valid() && "pair_id" in compact.columns
    requires forall k | 0 <= k < |controls| :: controls[k].1.Valid()
    ensures |r| == |controls|
  {
    seq(|controls|, k requires 0 <= k < |controls| => MergeOne(compact, controls[k].0, controls[k].1))
  }

  /** `merge_compact_with_controls(compact_df, control_frames)`, with the
      dictionary of control frames as its items in order. */
  function MergeCompactSpec(compact: Table, controls: seq<(string, Table)>): (r: Result<map<string, Table>>)
    requires compact.Valid() && forall k | 0 <= k < |controls| :: controls[k].1.Valid()
  {
    if "pair_id" !in compact.columns then
      Failure(ValueError(MissingMessage("merge_compact_with_controls:compact_df", ["pair_id"])))
    else Outputs(Names(controls), MergeResults(compact, controls))
  }

  /** `merge_compact_with_controls`, filling the result dictionary in a loop. */
  method MergeCompactWithControls(compact: Table, controls: seq<(string, Table)>) returns (r: Result<map<string, Table>>)
    requires compact.Valid() && forall k | 0 <= k < |controls| :: controls[k].1.Valid()
    ensures r == MergeCompactSpec(compact, controls)
  {
    if "pair_id" !in compact.columns {
      return Failure(ValueError(MissingMessage("merge_compact_with_controls:compact_df", ["pair_id"])));
    }
    ghost var names := Names(controls);
    ghost var results := MergeResults(compact, controls);
    var outputs: map<string, Table> := map[];
    var k := 0;
    while k < |controls|
      invariant 0 <= k <= |controls|
      invariant Outputs(names[..k], results[..k]) == Success(outputs)
    {
      var merged := MergeOne(compact, controls[k].0, controls[k].1);
      assert results[k] == merged;
      if merged.Failure? {
        OutputsFailStep(names, results, k);
        OutputsStopped(names, results, k + 1);
        return Failure(merged.error);
      }
      OutputsStep(names, results, k, outputs);
      outputs := outputs[controls[k].0 := merged.value];
      k := k + 1;
    }
    assert names[..k] == names && results[..k] == results;
    r := Success(outputs);
  }

  // ---------------------------------------------------------------------
  // What the merge promises

  /** The merge finishes exactly when the compact frame has `pair_id` and
      every control frame's iteration succeeds. */
  lemma MergeCompactStatus(compact: Table, controls: seq<(string, Table)>)
    requires compact.Valid() && forall k | 0 <= k < |controls| :: controls[k].1.Valid()
    ensures MergeCompactSpec(compact, controls).Success? <==>
      "pair_id" in compact.columns && forall k | 0 <= k < |controls| :: MergeOne(compact, controls[k].0, controls[k].1).Success?
  {
    if "pair_id" in compact.columns {
      var names := Names(controls);
      var results := MergeResults(compact, controls);
      OutputsStatus(names, results);
      assert forall k | 0 <= k < |controls| :: results[k] == MergeOne(compact, controls[k].0, controls[k].1);
    }
  }

  /** When an iteration fails the merge raises the error of the first
      failing control frame. */
  lemma MergeCompactFirstError(compact: Table, controls: seq<(string, Table)>)
    requires compact.Valid() && forall k | 0 <= k < |controls| :: controls[k].1.Valid()
    requires "pair_id" in compact.columns && MergeCompactSpec(compact, controls).Failure?
    ensures exists i | 0 <= i < |controls| ::
      && MergeOne(compact, controls[i].0, controls[i].1) == Failure(MergeCompactSpec(compact, controls).error)
      && forall j | 0 <= j < i :: MergeOne(compact, controls[j].0, controls[j].1).Success?
  {
    var names := Names(controls);
    var results := MergeResults(compact, controls);
    var e := Outputs(names, results).error;
    OutputsStatus(names, results);
    var i :| 0 <= i < |results| && results[i] == Failure(e) && forall j | 0 <= j < i :: results[j].Success?;
    assert results[i] == MergeOne(compact, controls[i].0, controls[i].1);
    assert forall j | 0 <= j < i :: results[j] == MergeOne(compact, controls[j].0, controls[j].1);
  }

  /** On success there is one output per control name and no other. */
  lemma MergeCompactKeys(compact: Table, controls: seq<(string, Table)>)
    requires compact.Valid() && forall k | 0 <= k < |controls| :: controls[k].1.Valid()
    requires MergeCompactSpec(compact, controls).Success?
    ensures MergeCompactSpec(compact, controls).value.Keys == set x | x in Names(controls)
  {
    OutputsKeys(Names(controls), MergeResults(compact, controls));
  }

  /** A name's output is the join with the last control frame of that name,
      and it has the compact frame's row count. */
  lemma MergeCompactEntry(compact: Table, controls: seq<(string, Table)>, i: int)
    requires compact.Valid() && forall k | 0 <= k < |controls| :: controls[k].1.Valid()
    requires MergeCompactSpec(compact, controls).Success?
    requires 0 <= i < |controls| && forall j | i < j < |controls| :: controls[j].0 != controls[i].0
    ensures var m := MergeCompactSpec(compact, controls).value;
      && controls[i].0 in m
      && MergeOne(compact, controls[i].0, controls[i].1) == Success(m[controls[i].0])
      && m[controls[i].0].rows == compact.rows
  {
    var names := Names(controls);
    var results := MergeResults(compact, controls);
    OutputsValue(names, results, i);
    assert results[i] == MergeOne(compact, controls[i].0, controls[i].1);
  }

  /** One iteration raises the key-guard error exactly when the control frame
      lacks `pair_id`, raises on clashing labels, and otherwise raises the
      row-count error exactly when some compact key matches more than one
      control row. */
  lemma MergeOneStatus(compact: Table, key: string, control: Table)
    requires compact.Valid() && control.Valid() && "pair_id" in compact.columns
    ensures var r := MergeOne(compact, key, control);
      && ("pair_id" !in control.columns ==>
            r == Failure(ValueError(MissingMessage("merge_compact_with_controls:" + key, ["pair_id"]))))
      && ("pair_id" in control.columns && LabelsClash(compact, control) ==> r == Failure(Crash))
      && ("pair_id" in control.columns && !LabelsClash(compact, control) ==>
            (r.Failure? <==> exists i | 0 <= i < compact.rows ::
                               |Matches(control.columns["pair_id"], compact.columns["pair_id"][i])| > 1)
            && (r.Failure? ==> r.error == ValueError(RowCountMessage(key, compact.rows,
                 |JoinPairs(compact.columns["pair_id"], control.columns["pair_id"])|))))
  {
    if "pair_id" in control.columns && !LabelsClash(compact, control) {
      JoinPairsCount(compact.columns["pair_id"], control.columns["pair_id"]);
    }
  }

  /** The row-count guard never fires against a control frame whose keys are
      unique. */
  lemma UniqueKeysKeepRows(compact: Table, key: string, control: Table)
    requires compact.Valid() && control.Valid() && "pair_id" in compact.columns && "pair_id" in control.columns
    requires !LabelsClash(compact, control) && Distinct(control.columns["pair_id"])
    ensures MergeOne(compact, key, control).Success?
  {
    var keys := control.columns["pair_id"];
    forall i | 0 <= i < compact.rows ensures |Matches(keys, compact.columns["pair_id"][i])| <= 1 {
      MatchesUnique(keys, compact.columns["pair_id"][i]);
    }
    MergeOneStatus(compact, key, control);
  }

  /** So a combined control pair, whose keys are unique, never changes the
      compact frame's row count. */
  lemma CombinedControlsKeepRows(compact: Table, key: string, a: Table, b: Table)
    requires compact.Valid() && "pair_id" in compact.columns && a.Valid() && b.Valid()
    requires CombineControls(a, b).Success? && !LabelsClash(compact, CombineControls(a, b).value)
    ensures MergeOne(compact, key, CombineControls(a, b).value).Success?
  {
    CombineUnique(a, b);
    UniqueKeysKeepRows(compact, key, CombineControls(a, b).value);
  }

  /** The label a control column gets: `_control` is appended exactly when
      the compact frame has that name too. */
  lemma RightLabelSuffix(b: string, compact: Table)
    ensures RightLabel(b, compact) == b + "_control" <==> b in compact.columns
  {
    if b !in compact.columns {
      assert |b + "_control"| > |b|;
    }
  }

  /** A successful iteration keeps every compact column, under its label,
      row for row. */
  lemma MergeOneLeft(compact: Table, key: string, control: Table, a: string, k: int)
    requires compact.Valid() && control.Valid() && "pair_id" in compact.columns
    requires MergeOne(compact, key, control).Success? && a in compact.columns && 0 <= k < compact.rows
    ensures var m := MergeOne(compact, key, control).value;
      LeftLabel(a, control) in m.columns && m.columns[LeftLabel(a, control)][k] == compact.columns[a][k]
  {
    JoinPairsAligned(compact.columns["pair_id"], control.columns["pair_id"], k);
  }

  /** A compact row whose key has no control row gets missing in every
      non-key control column. */
  lemma MergeOneUnmatched(compact: Table, key: string, control: Table, b: string, k: int)
    requires compact.Valid() && control.Valid() && "pair_id" in compact.columns
    requires MergeOne(compact, key, control).Success? && 0 <= k < compact.rows
    requires b in control.columns && b != "pair_id"
    requires compact.columns["pair_id"][k] !in control.columns["pair_id"]
    ensures var m := MergeOne(compact, key, control).value;
      RightLabel(b, compact) in m.columns && m.columns[RightLabel(b, compact)][k] == Missing
  {
    JoinPairsAligned(compact.columns["pair_id"], control.columns["pair_id"], k);
  }

  /** A compact row whose key has a control row gets, in every non-key
      control column, the value of the control row the join pairs it with,
      which carries the same key. */
  lemma MergeOneMatched(compact: Table, key: string, control: Table, k: int)
    requires compact.Valid() && control.Valid() && "pair_id" in compact.columns
    requires MergeOne(compact, key, control).Success? && 0 <= k < compact.rows
    requires compact.columns["pair_id"][k] in control.columns["pair_id"]
    ensures var m := MergeOne(compact, key, control).value;
      var j := JoinPairs(compact.columns["pair_id"], control.columns["pair_id"])[k].1;
      && j.Some? && j.value < control.rows
      && control.columns["pair_id"][j.value] == compact.columns["pair_id"][k]
      && forall b | b in control.columns && b != "pair_id" ::
           RightLabel(b, compact) in m.columns && m.columns[RightLabel(b, compact)][k] == control.columns[b][j.value]
  {
    JoinPairsAligned(compact.columns["pair_id"], control.columns["pair_id"], k);
  }
}
