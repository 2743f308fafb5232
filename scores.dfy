/** The scoring helpers: citation overlap, lemma-set word overlap and the
    guards of the lemmatizer and of the SBERT backend. The spaCy lemmatizer
    and the SBERT model are parameters. */
module Scores {
  import opened Text
  import opened Cells

  // ---------------------------------------------------------------------
  // citation_overlap_score

  /** Ids are compared lower-cased when they are strings and as they are otherwise. */
  function CitationKey(c: Cell): (r: Cell)
    ensures c.Str? ==> r == Str(Lower(c.s))
    ensures !c.Str? ==> r == c
  {
    if c.Str? then Str(Lower(c.s)) else c
  }

  /** `{key(x) for x in xs if x}`. */
  function KeySet(xs: seq<Cell>): (r: set<Cell>)
    ensures forall k :: 0 <= k < |xs| && Truthy(xs[k]) ==> CitationKey(xs[k]) in r
    ensures forall c :: c in r ==> exists k :: 0 <= k < |xs| && Truthy(xs[k]) && CitationKey(xs[k]) == c
  {
    set k | 0 <= k < |xs| && Truthy(xs[k]) :: CitationKey(xs[k])
  }

  predicate HasTruthy(xs: seq<Cell>) {
    exists k :: 0 <= k < |xs| && Truthy(xs[k])
  }

  /** A fraction of a set that lies in another. */
  function Fraction(part: set<Cell>, whole: set<Cell>): (q: real)
    requires |whole| > 0
    ensures 0.0 <= q <= 1.0
  {
    SubsetCard(whole * part, whole);
    RatioInUnit(|whole * part|, |whole|);
    (|whole * part| as real) / (|whole| as real)
  }

  /** `citation_overlap_score(patent, paper)`: the share of the patent's
      distinct truthy ids that the paper also cites. */
  function CitationOverlapScore(patent: Cell, paper: Cell): (r: Cell)
    ensures r.Missing? || r.Real?
    ensures r.Missing? <==> !patent.List? || !paper.List? || !HasTruthy(patent.items) || !HasTruthy(paper.items)
    ensures r.Real? ==>
      |KeySet(patent.items)| > 0
      && r.r == (|KeySet(patent.items) * KeySet(paper.items)| as real) / (|KeySet(patent.items)| as real)
      && 0.0 <= r.r <= 1.0
  {
    if !patent.List? || !paper.List? then Missing
    else if !HasTruthy(patent.items) || !HasTruthy(paper.items) then Missing
    else
      var pat := KeySet(patent.items);
      var k :| 0 <= k < |patent.items| && Truthy(patent.items[k]);
      assert CitationKey(patent.items[k]) in pat;
      Real(Fraction(KeySet(paper.items), pat))
  }

  lemma KeySetOfTwo(x: Cell, y: Cell)
    requires Truthy(x) && Truthy(y)
    ensures KeySet([x, y]) == {CitationKey(x), CitationKey(y)}
  {
    var xs := [x, y];
    forall c | c in KeySet(xs) ensures c == CitationKey(x) || c == CitationKey(y) {
      var k :| 0 <= k < |xs| && Truthy(xs[k]) && CitationKey(xs[k]) == c;
    }
    assert CitationKey(xs[0]) in KeySet(xs) && CitationKey(xs[1]) in KeySet(xs);
  }

  lemma KeySetOfOne(x: Cell)
    requires Truthy(x)
    ensures KeySet([x]) == {CitationKey(x)}
  {
    var xs := [x];
    assert CitationKey(xs[0]) in KeySet(xs);
  }

  lemma LowerLetters()
    ensures Lower("A") == "a" && Lower("B") == "b" && Lower("a") == "a" && Lower("C") == "c"
  {
    assert Lower("A")[0] == 'a' && Lower("B")[0] == 'b' && Lower("a")[0] == 'a' && Lower("C")[0] == 'c';
  }

  /** Two two-element sets sharing exactly one element. */
  lemma ShareOne(x: Cell, y: Cell, z: Cell)
    requires x != y && x != z && y != z
    ensures {x, y} * {x, z} == {x} && |{x, y}| == 2
  {
  }

  /** A two-element set meets one of its elements in that element. */
  lemma HoldsOne(x: Cell, z: Cell)
    requires x != z
    ensures {x, z} * {x} == {x} && |{x, z}| == 2
  {
  }

  lemma LettersDiffer()
    ensures Str("a") != Str("b") && Str("a") != Str("c") && Str("b") != Str("c")
  {
    assert "a"[0] != "b"[0] && "a"[0] != "c"[0] && "b"[0] != "c"[0];
  }

  /** The example of the score's documentation: "A" and "a" match, "B" and
      "C" do not, so half of the patent's ids are cited. */
  lemma CitationOverlapExample()
    ensures CitationOverlapScore(List([Str("A"), Str("B")]), List([Str("a"), Str("C")])) == Real(0.5)
  {
    var pat := [Str("A"), Str("B")];
    var pap := [Str("a"), Str("C")];
    LowerLetters();
    KeySetOfTwo(Str("A"), Str("B"));
    KeySetOfTwo(Str("a"), Str("C"));
    assert Truthy(pat[0]) && Truthy(pap[0]);
    var p := KeySet(pat);
    var w := KeySet(pap);
    assert p == {Str("a"), Str("b")} && w == {Str("a"), Str("c")};
    LettersDiffer();
    ShareOne(Str("a"), Str("b"), Str("c"));
    Half(w, p);
  }

  /** One of two elements is half of them. */
  lemma Half(part: set<Cell>, whole: set<Cell>)
    requires |whole| == 2 && |whole * part| == 1
    ensures Fraction(part, whole) == 0.5
  {
  }

  /** The patent side is the denominator: the patent's one id is cited, so
      the score is 1.0 ... */
  lemma CitationOverlapAsymmetric()
    ensures CitationOverlapScore(List([Str("A")]), List([Str("a"), Str("C")])) == Real(1.0)
  {
    LowerLetters();
    KeySetOfOne(Str("A"));
    KeySetOfTwo(Str("a"), Str("C"));
    assert [Str("A")][0] == Str("A") && [Str("a"), Str("C")][0] == Str("a");
    assert {Str("a")} * {Str("a"), Str("c")} == {Str("a")};
  }

  /** ... while with the sides swapped only one of the two ids is cited. */
  lemma CitationOverlapSwapped()
    ensures CitationOverlapScore(List([Str("a"), Str("C")]), List([Str("A")])) == Real(0.5)
  {
    LowerLetters();
    KeySetOfOne(Str("A"));
    KeySetOfTwo(Str("a"), Str("C"));
    assert [Str("A")][0] == Str("A") && [Str("a"), Str("C")][0] == Str("a");
    LettersDiffer();
    HoldsOne(Str("a"), Str("c"));
    Half({Str("a")}, {Str("a"), Str("c")});
  }

  // ---------------------------------------------------------------------
  // lemmatize and word overlap

  /** `lemmatize(text)`: None and blank text give no lemmas; any other text
      goes, stripped, to the lemmatizer `lemmas`. */
  function Lemmatize(text: Cell, lemmas: string -> seq<string>): (r: seq<string>)
    ensures text.Missing? ==> r == []
    ensures Strip(Show(text)) == "" ==> r == []
    ensures !text.Missing? && Strip(Show(text)) != "" ==> r == lemmas(Strip(Show(text)))
  {
    if text.Missing? then []
    else
      var s := Strip(Show(text));
      if s == "" then [] else lemmas(s)
  }

  /** `{t.lower() for t in tokens if t}`. */
  function TokenSet(tokens: seq<string>): (r: set<string>)
    ensures forall k :: 0 <= k < |tokens| && tokens[k] != "" ==> Lower(tokens[k]) in r
    ensures forall w :: w in r ==> exists k :: 0 <= k < |tokens| && tokens[k] != "" && Lower(tokens[k]) == w
  {
    set k | 0 <= k < |tokens| && tokens[k] != "" :: Lower(tokens[k])
  }

  function Min(a: nat, b: nat): nat {
    if a <= b then a else b
  }

  /** |S1 ∩ S2| / min(|S1|, |S2|), and 0.0 when either set is empty. */
  function OverlapRatio(s1: set<string>, s2: set<string>): (q: real)
    ensures 0.0 <= q <= 1.0
    ensures s1 == {} || s2 == {} ==> q == 0.0
  {
    if s1 == {} || s2 == {} then 0.0
    else
      SubsetCard(s1 * s2, s1);
      SubsetCard(s1 * s2, s2);
      RatioInUnit(|s1 * s2|, Min(|s1|, |s2|));
      (|s1 * s2| as real) / (Min(|s1|, |s2|) as real)
  }

  lemma OverlapRatioSymmetric(s1: set<string>, s2: set<string>)
    ensures OverlapRatio(s1, s2) == OverlapRatio(s2, s1)
  {
    assert s1 * s2 == s2 * s1;
    assert Min(|s1|, |s2|) == Min(|s2|, |s1|);
  }

  lemma SelfRatio(n: nat)
    requires n > 0
    ensures (n as real) / (n as real) == 1.0
  {
  }

  /** When one non-empty set contains the other the ratio is 1. */
  lemma OverlapRatioSubset(s1: set<string>, s2: set<string>)
    requires s1 != {} && s1 <= s2
    ensures OverlapRatio(s1, s2) == 1.0 && OverlapRatio(s2, s1) == 1.0
  {
    assert s1 * s2 == s1;
    SubsetCard(s1, s2);
    assert Min(|s1|, |s2|) == |s1| && |s1| > 0;
    SelfRatio(|s1|);
    OverlapRatioSymmetric(s1, s2);
  }

  /** `semantic_similarity_score_word_overlap(a, b)`; None is `Option.None`. */
  function WordOverlap(a: Cell, b: Cell, lemmas: string -> seq<string>): (r: Option<real>)
    ensures r.None? <==> !Truthy(a) || !Truthy(b)
    ensures r.Some? ==> 0.0 <= r.value <= 1.0
    ensures r.Some? ==> r.value == OverlapRatio(TokenSet(Lemmatize(a, lemmas)), TokenSet(Lemmatize(b, lemmas)))
  {
    if !Truthy(a) || !Truthy(b) then None
    else Some(OverlapRatio(TokenSet(Lemmatize(a, lemmas)), TokenSet(Lemmatize(b, lemmas))))
  }

  /** Word overlap does not depend on the order of its arguments. */
  lemma WordOverlapSymmetric(a: Cell, b: Cell, lemmas: string -> seq<string>)
    ensures WordOverlap(a, b, lemmas) == WordOverlap(b, a, lemmas)
  {
    OverlapRatioSymmetric(TokenSet(Lemmatize(a, lemmas)), TokenSet(Lemmatize(b, lemmas)));
  }

  // ---------------------------------------------------------------------
  // semantic_similarity_score_sbert

  /** What the SBERT score call gives: no score (a guard failed), a cosine
      score, or the ImportError of a missing dependency. */
  datatype Similarity = NoScore | Score(value: real) | ImportFailure

  /** `semantic_similarity_score_sbert(s1, s2)` on the two strings its
      caller passes. `backend` stands for loading the model and taking the
      cosine similarity of the two embeddings; it gives None where loading
      raises ImportError. */
  function SbertScore(s1: string, s2: string, backend: (string, string) -> Option<real>): (r: Similarity)
    ensures s1 == "" || s2 == "" ==> r == NoScore
    ensures Strip(s1) == "" || Strip(s2) == "" ==> r == NoScore
    ensures r != NoScore ==>
      (if backend(s1, s2).Some? then r == Score(backend(s1, s2).value) else r == ImportFailure)
  {
    if s1 == "" || s2 == "" then NoScore
    else if Strip(s1) == "" || Strip(s2) == "" then NoScore
    else
      match backend(s1, s2)
      case Some(x) => Score(x)
      case None => ImportFailure
  }
}
