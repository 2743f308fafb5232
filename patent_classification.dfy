/** `add_patent_classification`: IPC codes mapped to WIPO technology sectors
    through a class-to-sector table built from the mapping spreadsheet. The
    spreadsheet is given as its column names and its (IPC_code, Sector_en)
    rows; `None` in a row stands for an empty cell. */
module PatentClassification {
  import opened Text
  import opened Cells
  import opened Frames
  import opened Utils

  // ---------------------------------------------------------------------
  // _to_underscore

  /** "C12" becomes "C_12": an underscore after the first character. */
  function ToUnderscore(code: string): (r: string)
    requires |code| > 0
    ensures |r| == |code| + 1 && r[0] == code[0] && r[1] == '_' && r[2..] == code[1..]
  {
    [code[0]] + "_" + code[1..]
  }

  /** Removing the inserted underscore gives the code back. */
  function FromUnderscore(key: string): (r: string)
    requires |key| >= 2
  {
    [key[0]] + key[2..]
  }

  lemma UnderscoreRoundTrip(code: string)
    requires |code| > 0
    ensures FromUnderscore(ToUnderscore(code)) == code
  {
    var r := ToUnderscore(code);
    assert FromUnderscore(r) == [code[0]] + code[1..];
    assert [code[0]] + code[1..] == code;
  }

  lemma UnderscoreInjective(a: string, b: string)
    requires |a| > 0 && |b| > 0 && ToUnderscore(a) == ToUnderscore(b)
    ensures a == b
  {
    UnderscoreRoundTrip(a);
    UnderscoreRoundTrip(b);
  }

  lemma UnderscoreExample()
    ensures ToUnderscore("C12") == "C_12"
  {
  }

  // ---------------------------------------------------------------------
  // _ipc_code_to_sector_map

  datatype MapRow = MapRow(code: Option<string>, sector: Option<string>)

  /** The mapping spreadsheet: whether the path exists, its header and rows. */
  datatype MappingFile = MappingFile(path: string, found: bool, header: set<string>, rows: seq<MapRow>)

  /** An ASCII decimal digit; the regex's `\d` also matches other Unicode decimal digits. */
  predicate IsDigit(c: char) {
    '0' <= c <= '9'
  }

  /** The regex `^([A-H]\d{2})` matches the code. */
  predicate HasClass(code: string) {
    |code| >= 3 && 'A' <= code[0] <= 'H' && IsDigit(code[1]) && IsDigit(code[2])
  }

  /** A row survives both `dropna` calls: both cells set and a class extracted. */
  predicate Contributes(row: MapRow) {
    row.code.Some? && row.sector.Some? && HasClass(row.code.value)
  }

  function ClassOf(row: MapRow): (cc: string)
    requires Contributes(row)
    ensures |cc| == 3 && cc == row.code.value[..3] && HasClass(cc)
  {
    row.code.value[..3]
  }

  /** The classes that the grouping produces. */
  function Classes(rows: seq<MapRow>): (r: set<string>)
    ensures forall cc :: cc in r ==> |cc| == 3
  {
    set k | 0 <= k < |rows| && Contributes(rows[k]) :: ClassOf(rows[k])
  }

  /** The sector column of one group, in row order. */
  function Sectors(rows: seq<MapRow>, cc: string): (r: seq<string>)
    decreases |rows|
  {
    if rows == [] then []
    else
      var last := rows[|rows| - 1];
      Sectors(rows[..|rows| - 1], cc)
        + (if Contributes(last) && ClassOf(last) == cc then [last.sector.value] else [])
  }

  /** A sector is in a group exactly when some contributing row of that class carries it. */
  lemma {:induction false} SectorsIff(rows: seq<MapRow>, cc: string, x: string)
    ensures x in Sectors(rows, cc) <==>
      exists k :: 0 <= k < |rows| && Contributes(rows[k]) && ClassOf(rows[k]) == cc && rows[k].sector.value == x
    decreases |rows|
  {
    if rows != [] {
      var init := rows[..|rows| - 1];
      SectorsIff(init, cc, x);
      if x in Sectors(init, cc) {
        var k :| 0 <= k < |init| && Contributes(init[k]) && ClassOf(init[k]) == cc && init[k].sector.value == x;
        assert rows[k] == init[k];
      }
      if exists k :: 0 <= k < |rows| && Contributes(rows[k]) && ClassOf(rows[k]) == cc && rows[k].sector.value == x {
        var k :| 0 <= k < |rows| && Contributes(rows[k]) && ClassOf(rows[k]) == cc && rows[k].sector.value == x;
        if k < |init| {
          assert init[k] == rows[k];
        }
      }
    }
  }

  predicate StrictlySorted(s: seq<string>) {
    forall k :: 0 <= k < |s| - 1 ==> StrLt(s[k], s[k + 1])
  }

  function Elems(s: seq<string>): set<string> {
    set k | 0 <= k < |s| :: s[k]
  }

  lemma ElemsCons(h: string, t: seq<string>)
    ensures Elems([h] + t) == {h} + Elems(t)
  {
    var s := [h] + t;
    assert s[0] == h;
    forall y | y in Elems(t) ensures y in Elems(s) {
      var k :| 0 <= k < |t| && t[k] == y;
      assert s[k + 1] == y;
    }
    forall y | y in Elems(s) ensures y in {h} + Elems(t) {
      var k :| 0 <= k < |s| && s[k] == y;
      if k > 0 { assert t[k - 1] == y; }
    }
  }

  lemma ElemsEmpty(s: seq<string>)
    ensures Elems(s) == {} <==> s == []
  {
    if s != [] { assert s[0] in Elems(s); }
  }

  /** Insertion of one string into a strictly ascending list, once. */
  function InsertUnique(x: string, s: seq<string>): (r: seq<string>)
    requires StrictlySorted(s)
    ensures StrictlySorted(r) && Elems(r) == Elems(s) + {x}
    ensures |r| > 0 && (r[0] == x || (s != [] && r[0] == s[0]))
    decreases |s|
  {
    if s == [] then
      ElemsCons(x, []);
      [x]
    else if x == s[0] then
      ElemsCons(s[0], s[1..]);
      assert [s[0]] + s[1..] == s;
      s
    else if StrLt(x, s[0]) then
      ElemsCons(x, s);
      [x] + s
    else
      StrLtTotal(x, s[0]);
      var rest := InsertUnique(x, s[1..]);
      ElemsCons(s[0], s[1..]);
      assert [s[0]] + s[1..] == s;
      ElemsCons(s[0], rest);
      [s[0]] + rest
  }

  /** `sorted(set(xs))`. */
  function SortedUnique(xs: seq<string>): (r: seq<string>)
    ensures StrictlySorted(r) && Elems(r) == Elems(xs)
    decreases |xs|
  {
    if xs == [] then []
    else
      var init := xs[..|xs| - 1];
      assert Elems(xs) == Elems(init) + {xs[|xs| - 1]} by {
        forall y | y in Elems(xs) ensures y in Elems(init) + {xs[|xs| - 1]} {
          var k :| 0 <= k < |xs| && xs[k] == y;
          if k < |init| { assert init[k] == y; }
        }
        forall y | y in Elems(init) ensures y in Elems(xs) {
          var k :| 0 <= k < |init| && init[k] == y;
          assert xs[k] == y;
        }
      }
      InsertUnique(xs[|xs| - 1], SortedUnique(init))
  }

  /** Every later entry of a strictly ascending list is above its head. */
  lemma {:induction false} HeadIsLeast(s: seq<string>, k: int)
    requires StrictlySorted(s) && 0 < k < |s|
    ensures StrLt(s[0], s[k])
    decreases k
  {
    if k > 1 {
      HeadIsLeast(s, k - 1);
      StrLtTransitive(s[0], s[k - 1], s[k]);
    }
  }

  /** A strictly ascending list is determined by its elements, so
      `SortedUnique` is the one sorted distinct listing of them. */
  lemma {:induction false} SortedListUnique(a: seq<string>, b: seq<string>)
    requires StrictlySorted(a) && StrictlySorted(b) && Elems(a) == Elems(b)
    ensures a == b
    decreases |a|
  {
    if a == [] || b == [] {
      ElemsEmpty(a);
      ElemsEmpty(b);
    } else {
      assert a[0] in Elems(a);
      assert b != [];
      assert b[0] in Elems(b);
      if a[0] != b[0] {
        var i :| 0 <= i < |a| && a[i] == b[0];
        var j :| 0 <= j < |b| && b[j] == a[0];
        HeadIsLeast(a, i);
        HeadIsLeast(b, j);
        StrLtAsymmetric(a[0], b[0]);
      }
      var a', b' := a[1..], b[1..];
      forall y | y in Elems(a') ensures y in Elems(b') {
        var i :| 0 <= i < |a'| && a'[i] == y;
        HeadIsLeast(a, i + 1);
        assert y in Elems(b);
        var j :| 0 <= j < |b| && b[j] == y;
        if j == 0 { StrLtIrreflexive(y); }
        assert b'[j - 1] == y;
      }
      forall y | y in Elems(b') ensures y in Elems(a') {
        var j :| 0 <= j < |b'| && b'[j] == y;
        HeadIsLeast(b, j + 1);
        assert y in Elems(a);
        var i :| 0 <= i < |a| && a[i] == y;
        if i == 0 { StrLtIrreflexive(y); }
        assert a'[i - 1] == y;
      }
      SortedListUnique(a', b');
      assert a == [a[0]] + a' && b == [b[0]] + b';
    }
  }

  /** A class's label: its distinct sectors, ascending, joined by " / ". */
  function Label(rows: seq<MapRow>, cc: string): string {
    Join(SortedUnique(Sectors(rows, cc)), " / ")
  }

  function MappingMissing(header: set<string>): (r: seq<string>)
    ensures forall c :: c in r <==> c in {"IPC_code", "Sector_en"} && c !in header
  {
    (if "IPC_code" in header then [] else ["IPC_code"])
      + (if "Sector_en" in header then [] else ["Sector_en"])
  }

  lemma UnderscoreInjectiveAll()
    ensures forall a: string, b: string :: |a| > 0 && |b| > 0 && ToUnderscore(a) == ToUnderscore(b) ==> a == b
  {
    forall a: string, b: string | |a| > 0 && |b| > 0 && ToUnderscore(a) == ToUnderscore(b) ensures a == b {
      UnderscoreInjective(a, b);
    }
  }

  /** The grouped table, keyed by `_to_underscore(class)`. */
  function FromRows(rows: seq<MapRow>): (m: map<string, string>)
  {
    UnderscoreInjectiveAll();
    map cc | cc in Classes(rows) :: ToUnderscore(cc) := Label(rows, cc)
  }

  /** `_ipc_code_to_sector_map(path)`. */
  function SectorMap(file: MappingFile): (r: Result<map<string, string>>)
    ensures !file.found ==> r == Failure(FileNotFound("ipc_sectors: mapping file not found: " + file.path))
    ensures file.found && MappingMissing(file.header) != [] ==>
      r == Failure(ValueError("ipc_sectors: mapping file missing required columns: " + Join(MappingMissing(file.header), ", ")))
    ensures r.Success? <==> file.found && "IPC_code" in file.header && "Sector_en" in file.header
  {
    if !file.found then Failure(FileNotFound("ipc_sectors: mapping file not found: " + file.path))
    else
      var missing := MappingMissing(file.header);
      if missing != [] then
        Failure(ValueError("ipc_sectors: mapping file missing required columns: " + Join(missing, ", ")))
      else
        Success(FromRows(file.rows))
  }

  /** The missing names are listed in ascending order. */
  lemma MappingMissingSorted(header: set<string>)
    ensures StrictlySorted(MappingMissing(header))
    ensures MappingMissing(header) == SortedUnique(MappingMissing(header))
  {
    assert StrLt("IPC_code", "Sector_en");
    SortedListUnique(MappingMissing(header), SortedUnique(MappingMissing(header)));
  }

  lemma MappingMissingBoth()
    ensures Join(MappingMissing({}), ", ") == "IPC_code, Sector_en"
  {
  }

  /** Every key of the table is `_to_underscore` of the class of some
      contributing row, with the underscore at index 1. */
  lemma MappingKeys(rows: seq<MapRow>, key: string)
    requires key in FromRows(rows)
    ensures |key| == 4 && key[1] == '_' && HasClass(FromUnderscore(key))
    ensures exists k :: 0 <= k < |rows| && Contributes(rows[k]) && ToUnderscore(ClassOf(rows[k])) == key
  {
    var cc :| cc in Classes(rows) && ToUnderscore(cc) == key;
    var k :| 0 <= k < |rows| && Contributes(rows[k]) && ClassOf(rows[k]) == cc;
    UnderscoreRoundTrip(cc);
  }

  lemma FromRowsKeys(rows: seq<MapRow>)
    ensures forall key :: key in FromRows(rows) ==> exists cc :: cc in Classes(rows) && ToUnderscore(cc) == key
  {
    forall key | key in FromRows(rows) ensures exists cc :: cc in Classes(rows) && ToUnderscore(cc) == key {
      MappingKeys(rows, key);
      var k :| 0 <= k < |rows| && Contributes(rows[k]) && ToUnderscore(ClassOf(rows[k])) == key;
      assert ClassOf(rows[k]) in Classes(rows);
    }
  }

  /** The value under a class's key is that class's label. */
  lemma FromRowsAt(rows: seq<MapRow>, cc: string)
    requires cc in Classes(rows)
    ensures ToUnderscore(cc) in FromRows(rows) && FromRows(rows)[ToUnderscore(cc)] == Label(rows, cc)
  {
    var m := FromRows(rows);
    assert ToUnderscore(cc) in m;
    forall c | c in Classes(rows) && ToUnderscore(c) == ToUnderscore(cc) ensures c == cc {
      UnderscoreInjective(c, cc);
    }
  }

  /** The label's parts are exactly the sectors of the class's rows. */
  lemma {:induction false} LabelParts(rows: seq<MapRow>, cc: string, x: string)
    ensures x in Elems(SortedUnique(Sectors(rows, cc))) <==>
      exists j :: 0 <= j < |rows| && Contributes(rows[j]) && ClassOf(rows[j]) == cc && rows[j].sector.value == x
  {
    SectorsIff(rows, cc, x);
    var sec := Sectors(rows, cc);
    if x in sec {
      var i :| 0 <= i < |sec| && sec[i] == x;
      assert x in Elems(sec);
    }
    if x in Elems(sec) {
      var i :| 0 <= i < |sec| && sec[i] == x;
    }
  }

  /** Each contributing row's class is a key, labelled by the distinct sectors
      of that class in ascending order, its own sector among them. */
  lemma MappingLabel(rows: seq<MapRow>, k: int)
    requires 0 <= k < |rows| && Contributes(rows[k])
    ensures var cc := ClassOf(rows[k]);
      var m := FromRows(rows);
      var parts := SortedUnique(Sectors(rows, cc));
      && ToUnderscore(cc) in m
      && m[ToUnderscore(cc)] == Join(parts, " / ")
      && StrictlySorted(parts)
      && rows[k].sector.value in Elems(parts)
      && (forall x :: x in Elems(parts) <==>
            exists j :: 0 <= j < |rows| && Contributes(rows[j]) && ClassOf(rows[j]) == cc && rows[j].sector.value == x)
  {
    var cc := ClassOf(rows[k]);
    assert cc in Classes(rows);
    FromRowsAt(rows, cc);
    forall x ensures x in Elems(SortedUnique(Sectors(rows, cc))) <==>
        exists j :: 0 <= j < |rows| && Contributes(rows[j]) && ClassOf(rows[j]) == cc && rows[j].sector.value == x {
      LabelParts(rows, cc, x);
    }
  }

  /** Two distinct strings are listed ascending whatever their order. */
  lemma SortedUniquePair(lo: string, hi: string)
    requires StrLt(lo, hi)
    ensures SortedUnique([hi, lo]) == [lo, hi]
  {
    ElemsCons(hi, [lo]);
    ElemsCons(lo, [hi]);
    ElemsCons(lo, []);
    ElemsCons(hi, []);
    assert [hi] + [lo] == [hi, lo] && [lo] + [hi] == [lo, hi];
    assert [lo] + [] == [lo] && [hi] + [] == [hi];
    SortedListUnique(SortedUnique([hi, lo]), [lo, hi]);
  }

  function TieRows(): seq<MapRow> {
    [MapRow(Some("C12N"), Some("Chemistry")), MapRow(Some("C12Q"), Some("Biotech")), MapRow(Some("Z99"), Some("Other"))]
  }

  lemma TieClasses()
    ensures Classes(TieRows()) == {"C12"}
  {
    var rows := TieRows();
    assert !Contributes(rows[2]);
    assert ClassOf(rows[0]) == "C12";
    forall cc | cc in Classes(rows) ensures cc == "C12" {
      var k :| 0 <= k < |rows| && Contributes(rows[k]) && ClassOf(rows[k]) == cc;
    }
  }

  lemma TieSectors()
    ensures Sectors(TieRows(), "C12") == ["Chemistry", "Biotech"]
  {
    var rows := TieRows();
    assert !Contributes(rows[2]);
    assert ClassOf(rows[0]) == "C12" && ClassOf(rows[1]) == "C12";
    assert Sectors(rows[..1], "C12") == ["Chemistry"] by {
      assert rows[..1][..0] == [];
    }
    assert Sectors(rows[..2], "C12") == ["Chemistry", "Biotech"] by {
      assert rows[..2][..1] == rows[..1];
    }
    assert rows[..2] == rows[..|rows| - 1];
  }

  lemma TieLabel()
    ensures Label(TieRows(), "C12") == "Biotech / Chemistry"
  {
    TieSectors();
    assert StrLt("Biotech", "Chemistry");
    SortedUniquePair("Biotech", "Chemistry");
  }

  /** Two rows of one class with two sectors give the combined label, in
      ascending order whatever the row order; a row without a class adds nothing. */
  lemma MappingTieExample()
    ensures var m := FromRows(TieRows());
      && "C_12" in m && m["C_12"] == "Biotech / Chemistry"
      && forall key :: key in m ==> key == "C_12"
  {
    var rows := TieRows();
    TieClasses();
    TieLabel();
    FromRowsAt(rows, "C12");
    UnderscoreExample();
    FromRowsKeys(rows);
  }

  // ---------------------------------------------------------------------
  // _normalize_ipc_codes and _map_ipc_sectors

  /** What `len`/iteration sees once a value is not a string any more: a
      list's or tuple's entries, a string's characters, or the scalar itself. */
  function Iterated(v: Cell): (r: seq<Cell>)
    ensures v.List? ==> r == v.items
    ensures v.Tuple? ==> r == v.parts
    ensures !v.List? && !v.Tuple? && !v.Str? ==> r == [v]
  {
    match v
    case List(items) => items
    case Tuple(parts) => parts
    case Str(s) => seq(|s|, k requires 0 <= k < |s| => Str([s[k]]))
    case _ => [v]
  }

  /** The sequence the normalising loop runs over. A string is stripped; a
      bracketed one is literal-evaluated, and kept whole where that raises. */
  function IpcElements(xs: Cell, literalEval: string -> Option<Cell>): (r: seq<Cell>)
    ensures xs.Missing? ==> r == []
    ensures xs.Str? && !Bracketed(Strip(xs.s)) ==> r == [Str(Strip(xs.s))]
    ensures xs.Str? && Bracketed(Strip(xs.s)) && literalEval(Strip(xs.s)).None? ==> r == [Str(Strip(xs.s))]
    ensures xs.Str? && Bracketed(Strip(xs.s)) && literalEval(Strip(xs.s)).Some? ==>
      r == Iterated(literalEval(Strip(xs.s)).value)
    ensures !xs.Str? && !xs.Missing? ==> r == Iterated(xs)
  {
    match xs
    case Missing => []
    case Str(v) =>
      var s := Strip(v);
      if !Bracketed(s) then [Str(s)]
      else (
        match literalEval(s)
        case Some(parsed) => Iterated(parsed)
        case None => [Str(s)])
    case _ => Iterated(xs)
  }

  /** The loop's result: `str` of every element that is not None/NaN, in order. */
  function Codes(es: seq<Cell>): (r: seq<string>)
    ensures |r| <= |es|
    decreases |es|
  {
    if es == [] then []
    else
      var last := es[|es| - 1];
      Codes(es[..|es| - 1]) + (if last.Missing? then [] else [Show(last)])
  }

  /** `_normalize_ipc_codes(xs)` as a value. */
  function NormalizedCodes(xs: Cell, literalEval: string -> Option<Cell>): seq<string> {
    Codes(IpcElements(xs, literalEval))
  }

  /** `_normalize_ipc_codes(xs)`: the loop that appends to `out`. */
  method NormalizeIpcCodes(xs: Cell, literalEval: string -> Option<Cell>) returns (out: seq<string>)
    ensures out == NormalizedCodes(xs, literalEval)
  {
    var es := IpcElements(xs, literalEval);
    out := [];
    var k := 0;
    while k < |es|
      invariant 0 <= k <= |es|
      invariant out == Codes(es[..k])
    {
      CodesSnoc(es, k);
      if !es[k].Missing? {
        out := out + [Show(es[k])];
      }
      k := k + 1;
    }
    assert es[..k] == es;
  }

  /** One more element adds its code, unless it is missing. */
  lemma CodesSnoc(es: seq<Cell>, k: int)
    requires 0 <= k < |es|
    ensures Codes(es[..k + 1]) == Codes(es[..k]) + (if es[k].Missing? then [] else [Show(es[k])])
  {
    assert es[..k + 1][..k] == es[..k];
  }

  /** A code is produced exactly for the non-missing elements, each as `str`,
      and their order is kept: the j-th code comes from the j-th kept element. */
  lemma CodesKept(es: seq<Cell>, c: string)
    ensures c in Codes(es) <==> exists k :: 0 <= k < |es| && !es[k].Missing? && Show(es[k]) == c
  {
    if c in Codes(es) {
      CodesFrom(es, c);
    }
    if exists k :: 0 <= k < |es| && !es[k].Missing? && Show(es[k]) == c {
      var k :| 0 <= k < |es| && !es[k].Missing? && Show(es[k]) == c;
      CodesOf(es, k);
    }
  }

  lemma {:induction false} CodesFrom(es: seq<Cell>, c: string)
    requires c in Codes(es)
    ensures exists k :: 0 <= k < |es| && !es[k].Missing? && Show(es[k]) == c
    decreases |es|
  {
    var n := |es| - 1;
    var init := es[..n];
    assert Codes(es) == Codes(init) + (if es[n].Missing? then [] else [Show(es[n])]);
    if c in Codes(init) {
      CodesFrom(init, c);
      var k :| 0 <= k < |init| && !init[k].Missing? && Show(init[k]) == c;
      assert es[k] == init[k];
    } else {
      assert !es[n].Missing? && Show(es[n]) == c;
    }
  }

  lemma {:induction false} CodesOf(es: seq<Cell>, k: int)
    requires 0 <= k < |es| && !es[k].Missing?
    ensures Show(es[k]) in Codes(es)
    decreases |es|
  {
    var n := |es| - 1;
    var init := es[..n];
    assert Codes(es) == Codes(init) + (if es[n].Missing? then [] else [Show(es[n])]);
    if k < n {
      CodesOf(init, k);
      assert init[k] == es[k];
    }
  }

  /** With no None/NaN element nothing is dropped. */
  lemma {:induction false} CodesAllKept(es: seq<Cell>)
    requires forall k :: 0 <= k < |es| ==> !es[k].Missing?
    ensures |Codes(es)| == |es| && forall k :: 0 <= k < |es| ==> Codes(es)[k] == Show(es[k])
    decreases |es|
  {
    if es != [] {
      CodesAllKept(es[..|es| - 1]);
    }
  }

  function StrCells(codes: seq<string>): (r: seq<Cell>)
    ensures |r| == |codes| && forall k :: 0 <= k < |codes| ==> r[k] == Str(codes[k])
  {
    seq(|codes|, k requires 0 <= k < |codes| => Str(codes[k]))
  }

  /** Normalising a list of the normalised codes gives them back. */
  lemma NormalizeIdempotent(xs: Cell, literalEval: string -> Option<Cell>)
    ensures var codes := NormalizedCodes(xs, literalEval);
      NormalizedCodes(List(StrCells(codes)), literalEval) == codes
  {
    var codes := NormalizedCodes(xs, literalEval);
    var es := StrCells(codes);
    assert IpcElements(List(es), literalEval) == Iterated(List(es));
    assert Iterated(List(es)) == es;
    CodesAllKept(es);
    assert forall k :: 0 <= k < |es| ==> Show(es[k]) == codes[k];
  }

  /** A single code that does not look like a list gives itself, stripped. */
  lemma NormalizeSingleCode(code: string, literalEval: string -> Option<Cell>)
    requires !Bracketed(Strip(code))
    ensures NormalizedCodes(Str(code), literalEval) == [Strip(code)]
  {
    var es := [Str(Strip(code))];
    assert IpcElements(Str(code), literalEval) == es;
    assert es[..0] == [];
    assert Codes(es) == Codes(es[..0]) + [Show(es[0])];
  }

  /** None and NaN entries of a list are dropped, the rest kept in order. */
  lemma NormalizeDropsMissing(literalEval: string -> Option<Cell>)
    ensures NormalizedCodes(List([Str("A01"), Missing, Str("H04")]), literalEval) == ["A01", "H04"]
  {
    var es := [Str("A01"), Missing, Str("H04")];
    assert IpcElements(List(es), literalEval) == es;
    assert es[..2][..1][..0] == [];
    assert Codes(es[..2][..1]) == ["A01"];
    assert es[..2][..1] == es[..1];
    assert Codes(es[..2]) == ["A01"];
    assert es[..2] == es[..|es| - 1];
  }

  /** An empty list and None give no codes. */
  lemma NormalizeNothing(literalEval: string -> Option<Cell>)
    ensures NormalizedCodes(List([]), literalEval) == []
    ensures NormalizedCodes(Missing, literalEval) == []
  {
  }

  /** `[mapping.get(code) for code in codes]`. */
  function Lookup(codes: seq<string>, mapping: map<string, string>): (r: seq<Cell>)
    ensures |r| == |codes|
    ensures forall k :: 0 <= k < |codes| ==>
      (codes[k] in mapping ==> r[k] == Str(mapping[codes[k]])) && (codes[k] !in mapping ==> r[k] == Missing)
  {
    seq(|codes|, k requires 0 <= k < |codes| => if codes[k] in mapping then Str(mapping[codes[k]]) else Missing)
  }

  /** `_map_ipc_sectors(xs, mapping)`. */
  function MapIpcSectors(xs: Cell, mapping: map<string, string>, literalEval: string -> Option<Cell>): (r: Cell)
    ensures r.List? && r.items == Lookup(NormalizedCodes(xs, literalEval), mapping)
  {
    List(Lookup(NormalizedCodes(xs, literalEval), mapping))
  }

  /** Row codes are looked up as they are: a code in the usual "C12" form,
      without the underscore the table's keys carry, finds no sector. */
  lemma LookupExact(rows: seq<MapRow>, code: string)
    requires |code| < 2 || code[1] != '_'
    ensures Lookup([code], FromRows(rows)) == [Missing]
  {
    if code in FromRows(rows) {
      MappingKeys(rows, code);
    }
  }

  // ---------------------------------------------------------------------
  // add_patent_classification

  const Required: seq<string> := ["wipo_fields", "ipc_codes"]

  function Sectorizer(mapping: map<string, string>, literalEval: string -> Option<Cell>): Cell -> Cell {
    c => MapIpcSectors(c, mapping, literalEval)
  }

  /** The frame after `add_patent_classification` and whether it raised. */
  function PatentClassificationSpec(t: Table, file: MappingFile, literalEval: string -> Option<Cell>): (o: Outcome)
    requires t.Valid()
    ensures o.table.Valid() && o.table.rows == t.rows
    ensures o.status != Ok ==> o.table == t
    ensures o.status == Ok ==> "ipc_codes" in t.columns && SectorMap(file).Success?
  {
    var req := RequireColumns(t.columns.Keys, Required, "patent_classification");
    if req != Ok then Outcome(t, req)
    else
      assert Required[1] in Required;
      match SectorMap(file)
      case Failure(e) => Outcome(t, Fail(e))
      case Success(mapping) =>
        Outcome(t.With("ipc_sectors", MapCells(t.columns["ipc_codes"], Sectorizer(mapping, literalEval))), Ok)
  }

  /** `add_patent_classification(df, ipc_technology_xlsx_path=...)`, in place. */
  method AddPatentClassification(f: Frame, file: MappingFile, literalEval: string -> Option<Cell>)
    returns (status: Status)
    requires f.Valid()
    modifies f
    ensures f.Valid() && Outcome(f.View(), status) == PatentClassificationSpec(old(f.View()), file, literalEval)
  {
    status := RequireColumns(f.columns.Keys, Required, "patent_classification");
    if status != Ok {
      return;
    }
    var mapping := SectorMap(file);
    if mapping.Failure? {
      status := Fail(mapping.error);
      return;
    }
    f.SetColumn("ipc_sectors", MapCells(f.columns["ipc_codes"], Sectorizer(mapping.value, literalEval)));
  }

  /** The column check comes before the mapping file is read; then the
      mapping file's errors are the stage's. */
  lemma PatentClassificationStatus(t: Table, file: MappingFile, literalEval: string -> Option<Cell>)
    requires t.Valid()
    ensures var o := PatentClassificationSpec(t, file, literalEval);
      && (!("wipo_fields" in t.columns && "ipc_codes" in t.columns) ==>
            o.status == Fail(ValueError(MissingMessage("patent_classification", MissingColumns(t.columns.Keys, Required)))))
      && ("wipo_fields" in t.columns && "ipc_codes" in t.columns ==>
            (o.status == Ok <==> SectorMap(file).Success?)
            && (SectorMap(file).Failure? ==> o.status == Fail(SectorMap(file).error)))
  {
    if "wipo_fields" in t.columns && "ipc_codes" in t.columns {
      forall c | c in Required ensures c in t.columns {
        assert c == Required[0] || c == Required[1];
      }
    } else {
      assert Required[0] in Required && Required[1] in Required;
    }
  }

  /** Each row's `ipc_sectors` is the row's normalised codes looked up one by
      one; no other column changes. */
  lemma PatentClassificationRow(t: Table, file: MappingFile, literalEval: string -> Option<Cell>, i: int)
    requires t.Valid() && PatentClassificationSpec(t, file, literalEval).status == Ok && 0 <= i < t.rows
    ensures var r := PatentClassificationSpec(t, file, literalEval).table;
      var codes := NormalizedCodes(t.columns["ipc_codes"][i], literalEval);
      && r.columns["ipc_sectors"][i].List?
      && |r.columns["ipc_sectors"][i].items| == |codes|
      && r.columns["ipc_sectors"][i].items == Lookup(codes, SectorMap(file).value)
      && r.columns.Keys == t.columns.Keys + {"ipc_sectors"}
      && forall n :: n in t.columns && n != "ipc_sectors" ==> r.columns[n] == t.columns[n]
  {
  }
}
