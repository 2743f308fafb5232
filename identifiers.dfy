/** `add_identifiers`: the two patent-id spellings and the `pair_id` key. */
module Identifiers {
  import opened Text
  import opened Cells
  import opened Frames
  import opened Utils

  const Required: seq<string> := ["paper_id", "work_doi", "pair_source"]
  const NoPatentColumn: string := "identifiers: missing required columns: patent_id or patent_id_us"

  /** `astype(str).str.replace("US-", "")` on one cell. */
  function StripUs(c: Cell): Cell {
    Str(RemoveAll(Show(c), "US-"))
  }

  /** `"US-" + astype(str)` on one cell. */
  function AddUs(c: Cell): Cell {
    Str("US-" + Show(c))
  }

  /** `astype(str)` on one cell. */
  function AsStr(c: Cell): Cell {
    Str(Show(c))
  }

  function PairKey(paper: Cell, us: Cell): Cell {
    Str(Show(paper) + "|" + Show(us))
  }

  function WithPairId(t: Table): (r: Table)
    requires t.Valid() && "paper_id" in t.columns && "patent_id_us" in t.columns
    ensures r.Valid()
  {
    t.With("pair_id", ZipCells(t.columns["paper_id"], t.columns["patent_id_us"], PairKey))
  }

  predicate HasRequired(t: Table) {
    forall c :: c in Required ==> c in t.columns
  }

  /** The frame after `add_identifiers` and whether it raised. */
  function AddIdentifiersSpec(t: Table): (o: Outcome)
    requires t.Valid()
    ensures o.table.Valid() && o.table.rows == t.rows
    ensures o.status != Ok ==> o.table == t
  {
    var req := RequireColumns(t.columns.Keys, Required, "identifiers");
    if req != Ok then Outcome(t, req)
    else if "patent_id_us" in t.columns then
      var t1 := t.With("patent_id", MapCells(t.columns["patent_id_us"], StripUs));
      Outcome(WithPairId(t1), Ok)
    else if "patent_id" in t.columns then
      var p := t.columns["patent_id"];
      var t1 := t.With("patent_id_us", MapCells(p, AddUs)).With("patent_id", MapCells(p, AsStr));
      Outcome(WithPairId(t1), Ok)
    else Outcome(t, Fail(ValueError(NoPatentColumn)))
  }

  /** The stage raises exactly when a required column or both patent columns
      are absent, with the message naming the missing required columns first. */
  lemma AddIdentifiersStatus(t: Table)
    requires t.Valid()
    ensures var o := AddIdentifiersSpec(t);
      && (o.status == Ok <==> HasRequired(t) && ("patent_id_us" in t.columns || "patent_id" in t.columns))
      && (!HasRequired(t) ==>
            o.status == Fail(ValueError(MissingMessage("identifiers", MissingColumns(t.columns.Keys, Required)))))
      && (HasRequired(t) && "patent_id_us" !in t.columns && "patent_id" !in t.columns ==>
            o.status == Fail(ValueError(NoPatentColumn)))
  {
  }

  /** After success both patent columns and `pair_id` exist, and every other
      column is as it was. */
  lemma AddIdentifiersColumns(t: Table)
    requires t.Valid() && AddIdentifiersSpec(t).status == Ok
    ensures var r := AddIdentifiersSpec(t).table;
      && r.columns.Keys == t.columns.Keys + {"patent_id", "patent_id_us", "pair_id"}
      && forall n :: n in t.columns && n !in {"patent_id", "patent_id_us", "pair_id"} ==> r.columns[n] == t.columns[n]
  {
  }

  /** Every row's key is its paper id, a bar, and its `patent_id_us`. */
  lemma AddIdentifiersPairId(t: Table, i: int)
    requires t.Valid() && AddIdentifiersSpec(t).status == Ok && 0 <= i < t.rows
    ensures var r := AddIdentifiersSpec(t).table;
      r.columns["pair_id"][i] == Str(Show(t.columns["paper_id"][i]) + "|" + Show(r.columns["patent_id_us"][i]))
  {
    var t1 := if "patent_id_us" in t.columns
      then t.With("patent_id", MapCells(t.columns["patent_id_us"], StripUs))
      else
        var p := t.columns["patent_id"];
        t.With("patent_id_us", MapCells(p, AddUs)).With("patent_id", MapCells(p, AsStr));
    assert AddIdentifiersSpec(t).table == WithPairId(t1);
    assert t1.columns["paper_id"] == t.columns["paper_id"];
  }

  /** With `patent_id_us` present it wins: it is kept, and `patent_id` is it
      with every "US-" removed. */
  lemma AddIdentifiersFromUs(t: Table, i: int)
    requires t.Valid() && AddIdentifiersSpec(t).status == Ok && "patent_id_us" in t.columns && 0 <= i < t.rows
    ensures var r := AddIdentifiersSpec(t).table;
      && r.columns["patent_id_us"] == t.columns["patent_id_us"]
      && r.columns["patent_id"][i] == Str(RemoveAll(Show(t.columns["patent_id_us"][i]), "US-"))
  {
  }

  /** With only `patent_id`, `patent_id_us` is "US-" before it, and it becomes
      a string. */
  lemma AddIdentifiersFromPatentId(t: Table, i: int)
    requires t.Valid() && AddIdentifiersSpec(t).status == Ok && "patent_id_us" !in t.columns && 0 <= i < t.rows
    ensures var r := AddIdentifiersSpec(t).table;
      && r.columns["patent_id_us"][i] == Str("US-" + Show(t.columns["patent_id"][i]))
      && r.columns["patent_id"][i] == Str(Show(t.columns["patent_id"][i]))
  {
  }

  /** `add_identifiers(df)`, updating `df` in place. */
  method AddIdentifiers(f: Frame) returns (status: Status)
    requires f.Valid()
    modifies f
    ensures f.Valid() && Outcome(f.View(), status) == AddIdentifiersSpec(old(f.View()))
  {
    status := RequireColumns(f.columns.Keys, Required, "identifiers");
    if status != Ok {
      return;
    }
    if "patent_id_us" in f.columns {
      f.SetColumn("patent_id", MapCells(f.columns["patent_id_us"], StripUs));
    } else if "patent_id" in f.columns {
      var p := f.columns["patent_id"];
      f.SetColumn("patent_id_us", MapCells(p, AddUs));
      f.SetColumn("patent_id", MapCells(p, AsStr));
    } else {
      status := Fail(ValueError(NoPatentColumn));
      return;
    }
    f.SetColumn("pair_id", ZipCells(f.columns["paper_id"], f.columns["patent_id_us"], PairKey));
  }

  /** Round trip: from a frame with only `patent_id` whose ids contain no
      "US-", stripping "US-" from the produced `patent_id_us` gives back the
      produced `patent_id`. */
  lemma UsPrefixRoundTrip(t: Table, i: int)
    requires t.Valid() && AddIdentifiersSpec(t).status == Ok
    requires "patent_id_us" !in t.columns && 0 <= i < t.rows
    requires !Contains(Show(t.columns["patent_id"][i]), "US-")
    ensures var r := AddIdentifiersSpec(t).table;
      RemoveAll(r.columns["patent_id_us"][i].s, "US-") == r.columns["patent_id"][i].s
  {
    PrefixRemoveRoundTrip(Show(t.columns["patent_id"][i]), "US-");
  }

  /** Running the stage a second time, on a frame that had only `patent_id`
      with no "US-" inside its ids, changes nothing. The condition is needed:
      removal is not idempotent (`Text.RemoveAllNotIdempotent`), so an id
      such as "UUS-S-" would change again on the second run. */
  lemma {:induction false} AddIdentifiersRerun(t: Table)
    requires t.Valid() && AddIdentifiersSpec(t).status == Ok && "patent_id_us" !in t.columns
    requires forall i :: 0 <= i < t.rows ==> !Contains(Show(t.columns["patent_id"][i]), "US-")
    ensures AddIdentifiersSpec(AddIdentifiersSpec(t).table) == AddIdentifiersSpec(t)
  {
    var r := AddIdentifiersSpec(t).table;
    var r2 := AddIdentifiersSpec(r).table;
    forall i | 0 <= i < t.rows
      ensures r2.columns["patent_id"][i] == r.columns["patent_id"][i]
    {
      PrefixRemoveRoundTrip(Show(t.columns["patent_id"][i]), "US-");
    }
    assert r2.columns["patent_id"] == r.columns["patent_id"];
    assert r2.columns["pair_id"] == r.columns["pair_id"];
    assert r2.columns == r.columns;
  }
}
