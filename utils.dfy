/** Shared helpers of the pipeline: required-column guards, list decoding,
    per-column normalisation loops, safe lengths and means, and Excel
    character stripping. */
module Utils {
  import opened Text
  import opened Cells
  import opened Frames

  // ---------------------------------------------------------------------
  // require_columns

  /** The listed columns that are absent, in the order they are listed. */
  function MissingColumns(present: set<string>, columns: seq<string>): (r: seq<string>)
    ensures forall c :: c in r <==> c in columns && c !in present
    ensures |r| <= |columns|
  {
    if columns == [] then []
    else (if columns[0] in present then [] else [columns[0]]) + MissingColumns(present, columns[1..])
  }

  /** The missing list of a concatenation is the concatenation of the
      missing lists: the listed order is kept. */
  lemma {:induction false} MissingColumnsAppend(present: set<string>, a: seq<string>, b: seq<string>)
    ensures MissingColumns(present, a + b) == MissingColumns(present, a) + MissingColumns(present, b)
  {
    if a != [] {
      var h := if a[0] in present then [] else [a[0]];
      var ma := MissingColumns(present, a[1..]);
      var mb := MissingColumns(present, b);
      var ab := a + b;
      assert ab[0] == a[0] && ab[1..] == a[1..] + b;
      MissingColumnsAppend(present, a[1..], b);
      assert MissingColumns(present, ab[1..]) == ma + mb;
      assert MissingColumns(present, a) == h + ma;
      assert MissingColumns(present, ab) == h + (ma + mb);
      assert h + (ma + mb) == (h + ma) + mb;
    } else {
      assert a + b == b;
    }
  }

  function MissingMessage(context: string, missing: seq<string>): string {
    context + ": missing required columns: " + Join(missing, ", ")
  }

  /** `require_columns(df, columns, context=...)`, with `present` the frame's
      column names. */
  function RequireColumns(present: set<string>, columns: seq<string>, context: string): (r: Status)
    ensures r == Ok <==> forall c :: c in columns ==> c in present
    ensures r != Ok ==> r == Fail(ValueError(MissingMessage(context, MissingColumns(present, columns))))
  {
    var missing := MissingColumns(present, columns);
    if missing == [] then Ok
    else
      assert missing[0] in columns && missing[0] !in present;
      Fail(ValueError(MissingMessage(context, missing)))
  }

  // ---------------------------------------------------------------------
  // decode_list

  predicate Bracketed(s: string) {
    StartsWith(s, "[") && EndsWith(s, "]")
  }

  /** `decode_list(value)`; `literalEval` is `ast.literal_eval`, giving None
      where it raises. */
  function DecodeList(value: Cell, literalEval: string -> Option<Cell>): (r: Cell)
    ensures r.Missing? || r.List?
    ensures value.List? ==> r == value
    ensures !value.List? && !value.Str? ==> r == Missing
    ensures value.Str? && !Bracketed(Strip(value.s)) ==> r == Missing
    ensures value.Str? && r.List? ==> literalEval(Strip(value.s)) == Some(r)
    ensures (value.Str? && Bracketed(Strip(value.s)) && literalEval(Strip(value.s)).Some?
             && literalEval(Strip(value.s)).value.List?) ==> r.List?
    ensures (value.Str? && !(literalEval(Strip(value.s)).Some? && literalEval(Strip(value.s)).value.List?))
            ==> r == Missing
  {
    match value
    case List(_) => value
    case Str(v) =>
      var s := Strip(v);
      if !Bracketed(s) then Missing
      else (
        match literalEval(s)
        case Some(List(xs)) => List(xs)
        case _ => Missing)
    case _ => Missing
  }

  /** Tuples are not lists: a tuple cell decodes to missing, while a list
      holding tuples is kept as it is. */
  lemma DecodeListTuple(literalEval: string -> Option<Cell>)
    ensures DecodeList(Tuple([Str("a"), Str("b")]), literalEval) == Missing
    ensures DecodeList(List([Tuple([Str("Acme"), Str("US")])]), literalEval) == List([Tuple([Str("Acme"), Str("US")])])
  {
  }

  lemma DecodeListIdempotent(value: Cell, literalEval: string -> Option<Cell>)
    ensures DecodeList(DecodeList(value, literalEval), literalEval) == DecodeList(value, literalEval)
  {
  }

  function Decoder(literalEval: string -> Option<Cell>): Cell -> Cell {
    c => DecodeList(c, literalEval)
  }

  // ---------------------------------------------------------------------
  // normalize_list_column(s) and ensure_datetime: overwrite each listed
  // column that is present with a cell-wise function of itself.

  function ApplyToColumn(t: Table, column: string, f: Cell -> Cell): (r: Table)
    ensures t.Valid() ==> r.Valid()
  {
    if column in t.columns then t.With(column, MapCells(t.columns[column], f)) else t
  }

  /** The loop `for column in columns: ...`, one column after another. */
  function ApplyToColumns(t: Table, columns: seq<string>, f: Cell -> Cell): (r: Table)
    ensures t.Valid() ==> r.Valid()
    decreases |columns|
  {
    if columns == [] then t
    else ApplyToColumn(ApplyToColumns(t, columns[..|columns| - 1], f), columns[|columns| - 1], f)
  }

  ghost predicate Idempotent(f: Cell -> Cell) {
    forall c :: f(f(c)) == f(c)
  }

  /** With an idempotent cell function, every listed column that is present is
      replaced by its image (however often it is listed), columns that are not
      listed are untouched, and no column is created or dropped. */
  lemma {:induction false} ApplyToColumnsEffect(t: Table, columns: seq<string>, f: Cell -> Cell)
    requires t.Valid() && Idempotent(f)
    ensures var r := ApplyToColumns(t, columns, f);
      && r.Valid() && r.rows == t.rows
      && r.columns.Keys == t.columns.Keys
      && forall n :: n in t.columns ==>
           r.columns[n] == if n in columns then MapCells(t.columns[n], f) else t.columns[n]
    decreases |columns|
  {
    if columns != [] {
      var init := columns[..|columns| - 1];
      var last := columns[|columns| - 1];
      ApplyToColumnsEffect(t, init, f);
      var p := ApplyToColumns(t, init, f);
      var r := ApplyToColumns(t, columns, f);
      assert r == ApplyToColumn(p, last, f);
      forall n | n in t.columns
        ensures r.columns[n] == if n in columns then MapCells(t.columns[n], f) else t.columns[n]
      {
        assert n in columns <==> n in init || n == last by {
          assert columns == init + [last];
        }
        if n == last && n in init {
          var once := MapCells(t.columns[n], f);
          assert MapCells(once, f) == once;
        }
      }
    }
  }

  /** `normalize_list_column(df, column)`. */
  method NormalizeListColumn(f: Frame, column: string, literalEval: string -> Option<Cell>)
    requires f.Valid()
    modifies f
    ensures f.Valid() && f.View() == ApplyToColumn(old(f.View()), column, Decoder(literalEval))
  {
    if column in f.columns {
      f.SetColumn(column, MapCells(f.columns[column], Decoder(literalEval)));
    }
  }

  /** `normalize_list_columns(df, columns)`. */
  method NormalizeListColumns(f: Frame, columns: seq<string>, literalEval: string -> Option<Cell>)
    requires f.Valid()
    modifies f
    ensures f.Valid() && f.View() == ApplyToColumns(old(f.View()), columns, Decoder(literalEval))
  {
    for i := 0 to |columns|
      invariant f.Valid() && f.View() == ApplyToColumns(old(f.View()), columns[..i], Decoder(literalEval))
    {
      assert columns[..i + 1][..i] == columns[..i];
      NormalizeListColumn(f, columns[i], literalEval);
    }
    assert columns[..|columns|] == columns;
  }

  /** The decoder is idempotent, so listing a column twice decodes it once. */
  lemma DecoderIdempotent(literalEval: string -> Option<Cell>)
    ensures Idempotent(Decoder(literalEval))
  {
    forall c ensures Decoder(literalEval)(Decoder(literalEval)(c)) == Decoder(literalEval)(c) {
      DecodeListIdempotent(c, literalEval);
    }
  }

  /** `pd.to_datetime(cell, errors="coerce")`: a timestamp or missing stays as
      it is; anything else goes through `toDate`, missing where it fails. */
  function CoerceDate(c: Cell, toDate: Cell -> Option<int>): (r: Cell)
    ensures r.Date? || r.Missing?
    ensures c.Date? || c.Missing? ==> r == c
  {
    match c
    case Date(_) => c
    case Missing => Missing
    case _ => match toDate(c) case Some(d) => Date(d) case None => Missing
  }

  function DateCoercer(toDate: Cell -> Option<int>): Cell -> Cell {
    c => CoerceDate(c, toDate)
  }

  lemma DateCoercerIdempotent(toDate: Cell -> Option<int>)
    ensures Idempotent(DateCoercer(toDate))
  {
  }

  /** `ensure_datetime(df, columns)`. */
  method EnsureDatetime(f: Frame, columns: seq<string>, toDate: Cell -> Option<int>)
    requires f.Valid()
    modifies f
    ensures f.Valid() && f.View() == ApplyToColumns(old(f.View()), columns, DateCoercer(toDate))
  {
    for i := 0 to |columns|
      invariant f.Valid() && f.View() == ApplyToColumns(old(f.View()), columns[..i], DateCoercer(toDate))
    {
      assert columns[..i + 1][..i] == columns[..i];
      if columns[i] in f.columns {
        f.SetColumn(columns[i], MapCells(f.columns[columns[i]], DateCoercer(toDate)));
      }
    }
    assert columns[..|columns|] == columns;
  }

  // ---------------------------------------------------------------------
  // safe_len, mean_or_nan

  /** `safe_len(value)`. */
  function SafeLen(value: Cell): (r: Cell)
    ensures r.Int? <==> value.List?
    ensures !r.Int? ==> r == Missing
    ensures value.List? ==> r.i == |value.items| && r.i >= 0
  {
    if value.List? then Int(|value.items|) else Missing
  }

  predicate IsNumber(c: Cell) {
    c.Int? || c.Real? || c.Bool?
  }

  /** The value NumPy uses for a number cell (a bool counts as 0 or 1). */
  function Num(c: Cell): real
    requires IsNumber(c)
  {
    match c
    case Int(i) => i as real
    case Real(r) => r
    case Bool(b) => if b then 1.0 else 0.0
  }

  /** The entries that are neither None nor NaN, in order. */
  function NonNull(xs: seq<Cell>): (r: seq<Cell>)
    ensures |r| <= |xs|
    ensures forall c :: c in r <==> c in xs && !c.Missing?
  {
    if xs == [] then []
    else (if xs[0].Missing? then [] else [xs[0]]) + NonNull(xs[1..])
  }

  predicate AllNumbers(xs: seq<Cell>) {
    forall k :: 0 <= k < |xs| ==> IsNumber(xs[k])
  }

  function Sum(xs: seq<Cell>): real
    requires AllNumbers(xs)
  {
    if xs == [] then 0.0 else Num(xs[0]) + Sum(xs[1..])
  }

  function Mean(nums: seq<Cell>): (m: real)
    requires |nums| > 0 && AllNumbers(nums)
    ensures m * |nums| as real == Sum(nums)
  {
    Sum(nums) / |nums| as real
  }

  /** `mean_or_nan(values)`. NumPy raises on a non-null entry that is not a
      number, which the model reports as a crash. */
  function MeanOrNan(values: Cell): (r: Result<Cell>)
    ensures r.Success? ==> r.value.Missing? || r.value.Real?
    ensures r == Success(Missing) <==> !values.List? || forall c :: c in values.items ==> c.Missing?
    ensures r.Failure? <==> values.List? && exists c :: c in values.items && !c.Missing? && !IsNumber(c)
    ensures r.Failure? ==> r.error == Crash
    ensures r.Success? && r.value.Real? ==>
      var nums := NonNull(values.items);
      |nums| > 0 && AllNumbers(nums) && r.value.r == Mean(nums)
  {
    if !values.List? || |values.items| == 0 then Success(Missing)
    else
      var nums := NonNull(values.items);
      if nums == [] then
        Success(Missing)
      else if exists k :: 0 <= k < |nums| && !IsNumber(nums[k]) then
        assert nums[0] in nums;
        Failure(Crash)
      else
        assert !(exists c :: c in values.items && !c.Missing? && !IsNumber(c)) by {
          forall c | c in values.items && !c.Missing? ensures IsNumber(c) {
            assert c in nums;
          }
        }
        assert nums[0] in nums;
        Success(Real(Mean(nums)))
  }

  lemma {:induction false} SumBounds(xs: seq<Cell>, lo: real, hi: real)
    requires forall k :: 0 <= k < |xs| ==> IsNumber(xs[k]) && lo <= Num(xs[k]) <= hi
    ensures lo * |xs| as real <= Sum(xs) <= hi * |xs| as real
  {
    if xs != [] { SumBounds(xs[1..], lo, hi); }
  }

  lemma DivBounds(s: real, n: real, lo: real, hi: real)
    requires n > 0.0 && lo * n <= s <= hi * n
    ensures lo <= s / n <= hi
  {
    var q := s / n;
    assert q * n == s;
    if q < lo { MulStrict(q, lo, n); }
    if q > hi { MulStrict(hi, q, n); }
  }

  lemma MulStrict(a: real, b: real, n: real)
    requires a < b && n > 0.0
    ensures a * n < b * n
  {
    assert (b - a) * n > 0.0;
  }

  /** A mean lies within any bounds of its entries. */
  lemma MeanWithin(nums: seq<Cell>, lo: real, hi: real)
    requires |nums| > 0
    requires forall k :: 0 <= k < |nums| ==> IsNumber(nums[k]) && lo <= Num(nums[k]) <= hi
    ensures lo <= Mean(nums) <= hi
  {
    SumBounds(nums, lo, hi);
    DivBounds(Sum(nums), |nums| as real, lo, hi);
  }

  /** The mean of a list lies within any bounds of its non-null entries; in
      particular the mean of non-negative entries is non-negative. */
  lemma MeanBounds(values: Cell, lo: real, hi: real)
    requires values.List?
    requires forall c :: c in values.items && !c.Missing? ==> IsNumber(c) && lo <= Num(c) <= hi
    requires MeanOrNan(values).Success? && MeanOrNan(values).value.Real?
    ensures lo <= MeanOrNan(values).value.r <= hi
  {
    var nums := NonNull(values.items);
    forall k | 0 <= k < |nums| ensures IsNumber(nums[k]) && lo <= Num(nums[k]) <= hi {
      assert nums[k] in nums;
    }
    MeanWithin(nums, lo, hi);
  }

  // ---------------------------------------------------------------------
  // strip_illegal_excel_chars

  /** The characters `_ILLEGAL_EXCEL_RE` matches: 0x00-0x08, 0x0B, 0x0C, 0x0E-0x1F. */
  predicate IllegalExcel(c: char) {
    var n := c as int;
    0 <= n <= 8 || n == 0x0b || n == 0x0c || 0x0e <= n <= 0x1f
  }

  function StripIllegal(s: string): (r: string)
    ensures |r| <= |s|
    ensures forall k :: 0 <= k < |r| ==> !IllegalExcel(r[k])
    ensures forall c :: c in r <==> c in s && !IllegalExcel(c)
  {
    if s == [] then []
    else (if IllegalExcel(s[0]) then [] else [s[0]]) + StripIllegal(s[1..])
  }

  /** Stripping works character by character: it distributes over concatenation. */
  lemma {:induction false} StripIllegalAppend(a: string, b: string)
    ensures StripIllegal(a + b) == StripIllegal(a) + StripIllegal(b)
  {
    if a != [] {
      var ab := a + b;
      assert ab[0] == a[0] && ab[1..] == a[1..] + b;
      var h := if IllegalExcel(a[0]) then [] else [a[0]];
      var ra, rb := StripIllegal(a[1..]), StripIllegal(b);
      StripIllegalAppend(a[1..], b);
      assert StripIllegal(ab[1..]) == ra + rb;
      assert StripIllegal(ab) == h + (ra + rb);
      assert StripIllegal(a) == h + ra;
      assert h + (ra + rb) == (h + ra) + rb;
    } else {
      assert a + b == b;
    }
  }

  /** A string with no illegal character (tabs, newlines and carriage returns
      included) is kept as it is. */
  lemma {:induction false} StripIllegalKeepsLegal(s: string)
    requires forall k :: 0 <= k < |s| ==> !IllegalExcel(s[k])
    ensures StripIllegal(s) == s
  {
    if s != [] {
      StripIllegalKeepsLegal(s[1..]);
      assert [s[0]] + s[1..] == s;
    }
  }

  lemma StripIllegalIdempotent(s: string)
    ensures StripIllegal(StripIllegal(s)) == StripIllegal(s)
  {
    StripIllegalKeepsLegal(StripIllegal(s));
  }

  lemma StripIllegalNulAlone()
    ensures StripIllegal("\0") == []
  {
  }

  /** A NUL between two legal strings is removed and nothing else is touched. */
  lemma StripIllegalNul(a: string, b: string)
    requires forall k :: 0 <= k < |a| ==> !IllegalExcel(a[k])
    requires forall k :: 0 <= k < |b| ==> !IllegalExcel(b[k])
    ensures StripIllegal(a + "\0" + b) == a + b
  {
    var n := "\0";
    StripIllegalAppend(a + n, b);
    StripIllegalAppend(a, n);
    StripIllegalKeepsLegal(a);
    StripIllegalKeepsLegal(b);
    StripIllegalNulAlone();
    assert StripIllegal(a + n) == a + [];
    assert a + [] == a;
  }

  /** `strip_illegal_excel_chars(value)`. */
  function StripIllegalExcelChars(value: Cell): (r: Cell)
    ensures !value.Str? ==> r == value
    ensures value.Str? ==> r == Str(StripIllegal(value.s))
  {
    if value.Str? then Str(StripIllegal(value.s)) else value
  }
}
