/** `add_text_similarity_features`: word-overlap and SBERT scores for the
    title and abstract pairs, and their row means. The SBERT backend and
    the lemmatizer are parameters; `SbertLatch` is the module's pair of
    flags `_SBERT_ENABLED` / `_SBERT_WARNED`. */
module TextSimilarity {
  import opened Cells
  import opened Frames
  import opened Scores

  const MissingPairsMessage: string :=
    "text_similarity: missing required columns: (work_title+patent_title) or (work_abstract+patent_abstract)"

  /** `_score_word_overlap` on one row's two cells. */
  function WordOverlapCell(a: Cell, b: Cell, lemmas: string -> seq<string>): (r: Cell)
    ensures a.Missing? || b.Missing? ==> r == Missing
    ensures r.Missing? || r.Real?
    ensures r.Real? ==> 0.0 <= r.r <= 1.0
    ensures !a.Missing? && !b.Missing? ==>
      (r.Real? <==> Show(a) != "" && Show(b) != "")
      && (r.Real? ==> r.r == OverlapRatio(TokenSet(Lemmatize(Str(Show(a)), lemmas)), TokenSet(Lemmatize(Str(Show(b)), lemmas))))
  {
    if a.Missing? || b.Missing? then Missing
    else
      match WordOverlap(Str(Show(a)), Str(Show(b)), lemmas)
      case None => Missing
      case Some(x) => Real(x)
  }

  function WordColumn(xs: seq<Cell>, ys: seq<Cell>, lemmas: string -> seq<string>): (r: seq<Cell>)
    requires |xs| == |ys|
    ensures |r| == |xs| && forall i :: 0 <= i < |xs| ==> r[i] == WordOverlapCell(xs[i], ys[i], lemmas)
  {
    seq(|xs|, i requires 0 <= i < |xs| => WordOverlapCell(xs[i], ys[i], lemmas))
  }

  /** `df[[x, y]].mean(axis=1)` on one row: the mean of the defined values. */
  function RowMean(x: Cell, y: Cell): (r: Cell)
    ensures r.Missing? <==> !x.Real? && !y.Real?
    ensures r.Missing? || r.Real?
    ensures r.Real? && x.Real? ==> (y.Real? ==> Between(r.r, x.r, y.r)) && (!y.Real? ==> r.r == x.r)
    ensures r.Real? && !x.Real? ==> r.r == y.r
  {
    if x.Real? && y.Real? then Real((x.r + y.r) / 2.0)
    else if x.Real? then x
    else if y.Real? then y
    else Missing
  }

  predicate Between(m: real, a: real, b: real) {
    (a <= m <= b) || (b <= m <= a)
  }

  lemma RowMeanSymmetric(x: Cell, y: Cell)
    requires x.Real? || x.Missing?
    requires y.Real? || y.Missing?
    ensures RowMean(x, y) == RowMean(y, x)
  {
  }

  // ---------------------------------------------------------------------
  // the SBERT latch

  /** The `try` block of `_score_semantic` on the two stringified cells:
      the score and whether SBERT is still enabled afterwards. */
  function Consulted(s1: string, s2: string, backend: (string, string) -> Option<real>): (r: (Cell, bool))
    ensures r.0.Missing? || r.0.Real?
    ensures !r.1 <==> SbertScore(s1, s2, backend) == ImportFailure
    ensures !r.1 ==> r.0 == Missing
    ensures r.0.Real? <==> SbertScore(s1, s2, backend).Score?
    ensures r.0.Real? ==> r.0.r == SbertScore(s1, s2, backend).value
  {
    match SbertScore(s1, s2, backend)
    case NoScore => (Missing, true)
    case Score(x) => (Real(x), true)
    case ImportFailure => (Missing, false)
  }

  /** One `_score_semantic` call from a latch state: the score and whether
      SBERT is still enabled afterwards. */
  function SemanticCell(enabled: bool, a: Cell, b: Cell, backend: (string, string) -> Option<real>): (r: (Cell, bool))
    ensures !enabled ==> r == (Missing, false)
    ensures r.1 ==> enabled
    ensures enabled && (a.Missing? || b.Missing?) ==> r == (Missing, true)
    ensures enabled && !a.Missing? && !b.Missing? ==> r == Consulted(Show(a), Show(b), backend)
  {
    if !enabled then (Missing, false)
    else if a.Missing? || b.Missing? then (Missing, true)
    else Consulted(Show(a), Show(b), backend)
  }

  class SbertLatch {
    var enabled: bool
    var warned: bool
    /** How often the "SBERT similarity disabled" notice was printed. */
    var notices: nat

    /** Disabled exactly when warned, and warned exactly once then. */
    ghost predicate Valid()
      reads this
    {
      warned == !enabled && notices == (if warned then 1 else 0)
    }

    /** The module's state at import time. */
    constructor ()
      ensures Valid() && enabled
    {
      enabled, warned, notices := true, false, 0;
    }

    /** `_score_semantic(row, col_a, col_b)` on the row's two cells. */
    method ScoreSemantic(a: Cell, b: Cell, backend: (string, string) -> Option<real>) returns (r: Cell)
      requires Valid()
      modifies this
      ensures Valid()
      ensures (r, enabled) == SemanticCell(old(enabled), a, b, backend)
      ensures old(notices) <= notices <= 1
    {
      if !enabled {
        return Missing;
      }
      if a.Missing? || b.Missing? {
        return Missing;
      }
      r := Consult(Show(a), Show(b), backend);
    }

    /** The `try`/`except ImportError` of `_score_semantic`: a failed import
        disables SBERT and prints the notice unless it was printed before. */
    method Consult(s1: string, s2: string, backend: (string, string) -> Option<real>) returns (r: Cell)
      requires Valid() && enabled
      modifies this
      ensures Valid()
      ensures (r, enabled) == Consulted(s1, s2, backend)
      ensures old(notices) <= notices <= 1
    {
      var s := SbertScore(s1, s2, backend);
      match s {
        case ImportFailure =>
          enabled := false;
          if !warned {
            notices := notices + 1;
            warned := true;
          }
          r := Missing;
        case Score(x) =>
          r := Real(x);
        case NoScore =>
          r := Missing;
      }
    }
  }

  /** The scores of a column of rows and the latch state after them. */
  datatype Scan = Scan(scores: seq<Cell>, enabled: bool)

  /** `df.apply(lambda row: _score_semantic(row, a, b), axis=1)`: the rows in
      order, each call seeing the latch the previous one left. */
  function SemanticScan(enabled: bool, xs: seq<Cell>, ys: seq<Cell>, backend: (string, string) -> Option<real>): (s: Scan)
    requires |xs| == |ys|
    ensures |s.scores| == |xs|
    ensures s.enabled ==> enabled
    decreases |xs|
  {
    if xs == [] then Scan([], enabled)
    else
      var n := |xs| - 1;
      var p := SemanticScan(enabled, xs[..n], ys[..n], backend);
      var c := SemanticCell(p.enabled, xs[n], ys[n], backend);
      Scan(p.scores + [c.0], c.1)
  }

  /** Once SBERT is disabled, every later row scores missing and it stays
      disabled. */
  lemma {:induction false} ScanDisabled(xs: seq<Cell>, ys: seq<Cell>, backend: (string, string) -> Option<real>)
    requires |xs| == |ys|
    ensures var s := SemanticScan(false, xs, ys, backend);
      !s.enabled && forall i :: 0 <= i < |xs| ==> s.scores[i] == Missing
    decreases |xs|
  {
    if xs != [] {
      var n := |xs| - 1;
      ScanDisabled(xs[..n], ys[..n], backend);
    }
  }

  /** Rows are scored one by one: row `i`'s score is the call made with the
      latch the rows before it left. */
  lemma {:induction false} ScanRow(enabled: bool, xs: seq<Cell>, ys: seq<Cell>, backend: (string, string) -> Option<real>, i: int)
    requires |xs| == |ys| && 0 <= i < |xs|
    ensures SemanticScan(enabled, xs, ys, backend).scores[i]
         == SemanticCell(SemanticScan(enabled, xs[..i], ys[..i], backend).enabled, xs[i], ys[i], backend).0
    decreases |xs|
  {
    var n := |xs| - 1;
    var p := SemanticScan(enabled, xs[..n], ys[..n], backend);
    var c := SemanticCell(p.enabled, xs[n], ys[n], backend);
    assert SemanticScan(enabled, xs, ys, backend).scores == p.scores + [c.0];
    if i < n {
      ScanRow(enabled, xs[..n], ys[..n], backend, i);
      assert xs[..n][..i] == xs[..i] && ys[..n][..i] == ys[..i];
      assert xs[..n][i] == xs[i] && ys[..n][i] == ys[i];
      assert (p.scores + [c.0])[i] == p.scores[i];
    } else {
      assert xs[..n] == xs[..i] && ys[..n] == ys[..i];
    }
  }

  /** The backend loads for every pair of texts. */
  ghost predicate AlwaysLoads(backend: (string, string) -> Option<real>) {
    forall s1, s2 :: backend(s1, s2).Some?
  }

  lemma StaysEnabled(a: Cell, b: Cell, backend: (string, string) -> Option<real>)
    requires AlwaysLoads(backend)
    ensures SemanticCell(true, a, b, backend).1
  {
    if !a.Missing? && !b.Missing? {
      assert backend(Show(a), Show(b)).Some?;
    }
  }

  /** A backend that always loads keeps SBERT enabled, and each row then
      gets its own score. */
  lemma {:induction false} ScanNoImportFailure(xs: seq<Cell>, ys: seq<Cell>, backend: (string, string) -> Option<real>)
    requires |xs| == |ys| && AlwaysLoads(backend)
    ensures var s := SemanticScan(true, xs, ys, backend);
      s.enabled && forall i :: 0 <= i < |xs| ==> s.scores[i] == SemanticCell(true, xs[i], ys[i], backend).0
    decreases |xs|
  {
    if xs != [] {
      var n := |xs| - 1;
      ScanNoImportFailure(xs[..n], ys[..n], backend);
      StaysEnabled(xs[n], ys[n], backend);
      var p := SemanticScan(true, xs[..n], ys[..n], backend);
      var s := SemanticScan(true, xs, ys, backend);
      assert s.scores == p.scores + [SemanticCell(true, xs[n], ys[n], backend).0];
      forall i | 0 <= i < n ensures s.scores[i] == SemanticCell(true, xs[i], ys[i], backend).0 {
        assert xs[..n][i] == xs[i] && ys[..n][i] == ys[i];
      }
    }
  }

  /** Scoring one more row extends the scan of the rows before it. */
  lemma ScanSnoc(enabled: bool, xs: seq<Cell>, ys: seq<Cell>, backend: (string, string) -> Option<real>, k: int)
    requires |xs| == |ys| && 0 <= k < |xs|
    ensures var p := SemanticScan(enabled, xs[..k], ys[..k], backend);
      var c := SemanticCell(p.enabled, xs[k], ys[k], backend);
      SemanticScan(enabled, xs[..k + 1], ys[..k + 1], backend) == Scan(p.scores + [c.0], c.1)
  {
    assert xs[..k + 1][..k] == xs[..k] && ys[..k + 1][..k] == ys[..k];
  }

  /** The row loop of one semantic column. */
  method SemanticColumn(latch: SbertLatch, xs: seq<Cell>, ys: seq<Cell>, backend: (string, string) -> Option<real>)
    returns (col: seq<Cell>)
    requires latch.Valid() && |xs| == |ys|
    modifies latch
    ensures latch.Valid()
    ensures Scan(col, latch.enabled) == SemanticScan(old(latch.enabled), xs, ys, backend)
  {
    col := [];
    var k := 0;
    while k < |xs|
      invariant 0 <= k <= |xs| && latch.Valid()
      invariant Scan(col, latch.enabled) == SemanticScan(old(latch.enabled), xs[..k], ys[..k], backend)
    {
      var c := latch.ScoreSemantic(xs[k], ys[k], backend);
      col := col + [c];
      ScanSnoc(old(latch.enabled), xs, ys, backend, k);
      k := k + 1;
    }
    assert xs[..k] == xs && ys[..k] == ys;
  }

  // ---------------------------------------------------------------------
  // the stage

  /** The frame, the error and the latch after the stage. */
  datatype Run = Run(outcome: Outcome, enabled: bool)

  predicate HasTitle(t: Table) {
    "work_title" in t.columns && "patent_title" in t.columns
  }

  predicate HasAbstract(t: Table) {
    "work_abstract" in t.columns && "patent_abstract" in t.columns
  }

  function TitleWords(t: Table, lemmas: string -> seq<string>): (r: seq<Cell>)
    requires t.Valid()
    ensures |r| == t.rows
  {
    if HasTitle(t) then WordColumn(t.columns["work_title"], t.columns["patent_title"], lemmas)
    else Fill(Missing, t.rows)
  }

  function AbstractWords(t: Table, lemmas: string -> seq<string>): (r: seq<Cell>)
    requires t.Valid()
    ensures |r| == t.rows
  {
    if HasAbstract(t) then WordColumn(t.columns["work_abstract"], t.columns["patent_abstract"], lemmas)
    else Fill(Missing, t.rows)
  }

  function TitleScan(t: Table, enabled: bool, backend: (string, string) -> Option<real>): (s: Scan)
    requires t.Valid()
    ensures |s.scores| == t.rows && (s.enabled ==> enabled)
  {
    if HasTitle(t) then SemanticScan(enabled, t.columns["work_title"], t.columns["patent_title"], backend)
    else Scan(Fill(Missing, t.rows), enabled)
  }

  function AbstractScan(t: Table, enabled: bool, backend: (string, string) -> Option<real>): (s: Scan)
    requires t.Valid()
    ensures |s.scores| == t.rows && (s.enabled ==> enabled)
  {
    if HasAbstract(t) then SemanticScan(enabled, t.columns["work_abstract"], t.columns["patent_abstract"], backend)
    else Scan(Fill(Missing, t.rows), enabled)
  }

  /** The frame after the three word-overlap columns are written. */
  function WithWordScores(t: Table, lemmas: string -> seq<string>): (r: Table)
    requires t.Valid()
    ensures r.Valid() && r.rows == t.rows
  {
    var tw := TitleWords(t, lemmas);
    var aw := AbstractWords(t, lemmas);
    t.With("title_word_overlap_score", tw)
     .With("abstract_word_overlap_score", aw)
     .With("word_overlap_score", ZipCells(tw, aw, RowMean))
  }

  /** The frame after the three semantic columns are written, scored on the
      text columns of `src`, and the latch after them. */
  function WithSemanticScores(t: Table, src: Table, enabled: bool, backend: (string, string) -> Option<real>): (r: Run)
    requires t.Valid() && src.Valid() && src.rows == t.rows
    ensures r.outcome.table.Valid() && r.outcome.table.rows == t.rows && r.outcome.status == Ok
    ensures r.enabled ==> enabled
  {
    var ts := TitleScan(src, enabled, backend);
    var ab := AbstractScan(src, ts.enabled, backend);
    var r := t.With("title_semantic_similarity", ts.scores)
              .With("abstract_semantic_similarity", ab.scores)
              .With("semantic_similarity_score", ZipCells(ts.scores, ab.scores, RowMean));
    Run(Outcome(r, Ok), ab.enabled)
  }

  /** The frame after `add_text_similarity_features`, whether it raised and
      the latch it leaves. */
  function TextSimilaritySpec(t: Table, enabled: bool, lemmas: string -> seq<string>,
                              backend: (string, string) -> Option<real>): (r: Run)
    requires t.Valid()
    ensures r.outcome.table.Valid() && r.outcome.table.rows == t.rows
    ensures r.enabled ==> enabled
    ensures r.outcome.status != Ok ==> r.outcome.table == t && r.enabled == enabled
  {
    if !HasTitle(t) && !HasAbstract(t) then Run(Outcome(t, Fail(ValueError(MissingPairsMessage))), enabled)
    else WithSemanticScores(WithWordScores(t, lemmas), t, enabled, backend)
  }

  /** The word-overlap half of the stage. */
  method AddWordScores(f: Frame, lemmas: string -> seq<string>)
    requires f.Valid()
    modifies f
    ensures f.Valid() && f.View() == WithWordScores(old(f.View()), lemmas)
  {
    var tw := TitleWords(f.View(), lemmas);
    var aw := AbstractWords(f.View(), lemmas);
    f.SetColumn("title_word_overlap_score", tw);
    f.SetColumn("abstract_word_overlap_score", aw);
    f.SetColumn("word_overlap_score", ZipCells(tw, aw, RowMean));
  }

  /** The semantic half of the stage, scoring the text columns of `src`. */
  method AddSemanticScores(f: Frame, src: Table, latch: SbertLatch, backend: (string, string) -> Option<real>)
    requires f.Valid() && latch.Valid() && src.Valid() && src.rows == f.rows
    modifies f, latch
    ensures f.Valid() && latch.Valid()
    ensures Run(Outcome(f.View(), Ok), latch.enabled) == WithSemanticScores(old(f.View()), src, old(latch.enabled), backend)
  {
    var ts: seq<Cell>;
    if HasTitle(src) {
      ts := SemanticColumn(latch, src.columns["work_title"], src.columns["patent_title"], backend);
    } else {
      ts := Fill(Missing, f.rows);
    }
    f.SetColumn("title_semantic_similarity", ts);
    var ab: seq<Cell>;
    if HasAbstract(src) {
      ab := SemanticColumn(latch, src.columns["work_abstract"], src.columns["patent_abstract"], backend);
    } else {
      ab := Fill(Missing, f.rows);
    }
    f.SetColumn("abstract_semantic_similarity", ab);
    f.SetColumn("semantic_similarity_score", ZipCells(ts, ab, RowMean));
  }

  /** `add_text_similarity_features(df)`, updating `df` and the latch. */
  method AddTextSimilarityFeatures(f: Frame, latch: SbertLatch, lemmas: string -> seq<string>,
                                   backend: (string, string) -> Option<real>)
    returns (status: Status)
    requires f.Valid() && latch.Valid()
    modifies f, latch
    ensures f.Valid() && latch.Valid()
    ensures Run(Outcome(f.View(), status), latch.enabled)
         == TextSimilaritySpec(old(f.View()), old(latch.enabled), lemmas, backend)
  {
    var t := f.View();
    var hasTitle := "work_title" in f.columns && "patent_title" in f.columns;
    var hasAbstract := "work_abstract" in f.columns && "patent_abstract" in f.columns;
    if !(hasTitle || hasAbstract) {
      return Fail(ValueError(MissingPairsMessage));
    }
    AddWordScores(f, lemmas);
    AddSemanticScores(f, t, latch, backend);
    status := Ok;
  }

  /** The stage raises exactly when neither text pair is complete, with the
      message naming both alternatives; it never raises otherwise. */
  lemma TextSimilarityStatus(t: Table, enabled: bool, lemmas: string -> seq<string>,
                             backend: (string, string) -> Option<real>)
    requires t.Valid()
    ensures var r := TextSimilaritySpec(t, enabled, lemmas, backend);
      && (r.outcome.status == Ok <==> HasTitle(t) || HasAbstract(t))
      && (r.outcome.status != Ok ==> r.outcome.status == Fail(ValueError(MissingPairsMessage)))
  {
  }

  /** Each row of the word-overlap half: a component is missing when its
      pair is absent and is the pair's score otherwise, and the combined
      score is the row mean of the two, missing only when both are. */
  lemma WordScoresRow(t: Table, lemmas: string -> seq<string>, i: int)
    requires t.Valid() && 0 <= i < t.rows
    ensures var r := WithWordScores(t, lemmas);
      var tw := r.columns["title_word_overlap_score"][i];
      var aw := r.columns["abstract_word_overlap_score"][i];
      && tw == (if HasTitle(t) then WordOverlapCell(t.columns["work_title"][i], t.columns["patent_title"][i], lemmas) else Missing)
      && aw == (if HasAbstract(t) then WordOverlapCell(t.columns["work_abstract"][i], t.columns["patent_abstract"][i], lemmas) else Missing)
      && r.columns["word_overlap_score"][i] == RowMean(tw, aw)
      && (r.columns["word_overlap_score"][i].Missing? <==> tw.Missing? && aw.Missing?)
  {
  }

  /** Each row of the semantic half, and the columns it leaves alone. */
  lemma SemanticScoresRow(t: Table, src: Table, enabled: bool, backend: (string, string) -> Option<real>, i: int)
    requires t.Valid() && src.Valid() && src.rows == t.rows && 0 <= i < t.rows
    ensures var r := WithSemanticScores(t, src, enabled, backend).outcome.table;
      var ts := r.columns["title_semantic_similarity"][i];
      var ab := r.columns["abstract_semantic_similarity"][i];
      && ts == TitleScan(src, enabled, backend).scores[i]
      && ab == AbstractScan(src, TitleScan(src, enabled, backend).enabled, backend).scores[i]
      && (!HasTitle(src) ==> ts == Missing)
      && (!HasAbstract(src) ==> ab == Missing)
      && r.columns["semantic_similarity_score"][i] == RowMean(ts, ab)
      && forall n :: n in t.columns && n !in {"title_semantic_similarity", "abstract_semantic_similarity", "semantic_similarity_score"}
           ==> r.columns[n] == t.columns[n]
  {
  }

  /** The stage's rows are those of its two halves. */
  lemma TextSimilarityRow(t: Table, enabled: bool, lemmas: string -> seq<string>,
                          backend: (string, string) -> Option<real>, i: int)
    requires t.Valid() && TextSimilaritySpec(t, enabled, lemmas, backend).outcome.status == Ok && 0 <= i < t.rows
    ensures var r := TextSimilaritySpec(t, enabled, lemmas, backend).outcome.table;
      var w := WithWordScores(t, lemmas);
      && r.columns["title_word_overlap_score"][i] == w.columns["title_word_overlap_score"][i]
      && r.columns["abstract_word_overlap_score"][i] == w.columns["abstract_word_overlap_score"][i]
      && r.columns["word_overlap_score"][i] == w.columns["word_overlap_score"][i]
      && r.columns["title_semantic_similarity"][i] == TitleScan(t, enabled, backend).scores[i]
      && r.columns["abstract_semantic_similarity"][i]
         == AbstractScan(t, TitleScan(t, enabled, backend).enabled, backend).scores[i]
  {
    SemanticScoresRow(WithWordScores(t, lemmas), t, enabled, backend, i);
  }

  /** With SBERT already disabled, every semantic column is missing in every
      row and SBERT stays disabled. */
  lemma TextSimilarityDisabled(t: Table, lemmas: string -> seq<string>,
                               backend: (string, string) -> Option<real>, i: int)
    requires t.Valid() && TextSimilaritySpec(t, false, lemmas, backend).outcome.status == Ok && 0 <= i < t.rows
    ensures var r := TextSimilaritySpec(t, false, lemmas, backend);
      && !r.enabled
      && r.outcome.table.columns["title_semantic_similarity"][i] == Missing
      && r.outcome.table.columns["abstract_semantic_similarity"][i] == Missing
      && r.outcome.table.columns["semantic_similarity_score"][i] == Missing
  {
    SemanticScoresRow(WithWordScores(t, lemmas), t, false, backend, i);
    if HasTitle(t) {
      ScanDisabled(t.columns["work_title"], t.columns["patent_title"], backend);
    }
    if HasAbstract(t) {
      ScanDisabled(t.columns["work_abstract"], t.columns["patent_abstract"], backend);
    }
  }

  /** Only the six score columns are written. */
  lemma TextSimilarityColumns(t: Table, enabled: bool, lemmas: string -> seq<string>,
                              backend: (string, string) -> Option<real>)
    requires t.Valid() && TextSimilaritySpec(t, enabled, lemmas, backend).outcome.status == Ok
    ensures var r := TextSimilaritySpec(t, enabled, lemmas, backend).outcome.table;
      var out := {"title_word_overlap_score", "abstract_word_overlap_score", "word_overlap_score",
                  "title_semantic_similarity", "abstract_semantic_similarity", "semantic_similarity_score"};
      && r.columns.Keys == t.columns.Keys + out
      && forall n :: n in t.columns && n !in out ==> r.columns[n] == t.columns[n]
  {
  }
}
