# PPP feature pipeline — a Dafny model

This project models the core of the PPP publishing pipeline. The pipeline takes one
table ("frame") whose rows are paper–patent pairs, and runs it through a fixed chain of
feature stages. Each stage:

- checks that the columns it needs are present, and raises a `ValueError` naming the
  missing ones in a fixed order when they are not;
- then writes new columns cell by cell from existing ones.

The stages derive these features:

- identifiers and the `pair_id` key;
- team sizes and organisation types;
- citation overlap;
- word-overlap and SBERT text similarity;
- previous author experience;
- IPC sectors;
- international collaboration;
- mean geographic distance;
- publication and priority years and the lag between them;
- reference counts and mean ages.

Around the stages sit:

- input preparation (decoding list columns, date coercion, the identifier checks);
- a cleanup of negative mean ages;
- a left join on `pair_id` of the compact frame with each prepared control frame, with a row-count guard. There are up to four control frames, each combined from a merged file and a true-merged file;
- the export projection onto the final column list;
- stripping of characters that Excel refuses.

How the model represents all of this:

- **Cells.** A cell is a `Cells.Cell`. `Missing` stands for None, NaN, NaT and pd.NA alike.
  `List` is a Python list and `Tuple` a Python tuple. The source's `isinstance(x, list)` guards
  reject tuples, and tuples can be hashed where lists cannot.
  Python's `str()` and truthiness on cells are written out.
- **Errors.** `Cells.Error` is one of:
  - `ValueError` with its text;
  - `FileNotFound`;
  - `Crash`, for an exception pandas or NumPy raise whose text is not modelled.
- **Frames.** A frame is `Frames.Frame`, a class with a column map and a row count.
  - The stages that write columns into the caller's frame are methods with `modifies f`.
    These are identifiers, team size, organisation collaboration, citation overlap, text
    similarity, author experience, patent classification, international collaboration,
    geographic distance, dates, references, the cleanup, input preparation, and
    `normalize_list_columns` / `ensure_datetime`.
  - The validators `Topics.AddTopics`, `JournalMetric.AddJournalMetric` and
    `PatentClaims.AddPatentClaims` change nothing. They are functions that return the table
    or the error.
  - `Export.PrepareExport` and the two control preparers work on a copy. They leave the
    caller's frame as it was, as the source's `df.copy()` does.
  - The control merge builds new frames. It is a method over table values.
- **Stage specifications.** Each stage method is proved against a specification function
  on `Frames.Table` values. That function returns the new table together with the
  raised error, if any. Lemmas beside it state:
  - when the stage raises, and with which message;
  - what every written cell holds;
  - that no other column changes and the row count is kept.
- **Stateful parts.** The parts of the source that keep state across a loop are methods
  with loop invariants:
  - the author-experience pass over sorted rows and its two growing "seen" sets;
  - the SBERT enable/warn latch (`TextSimilarity.SbertLatch`, a class with two flags);
  - the rename loop of the export;
  - the merge loop over the control frames.
- **Foreign code.** Code outside the repository becomes a parameter of the members that
  use it:
  - the spaCy lemmatizer (a function from string to lemma list);
  - the SBERT backend (a function giving the cosine score, or None where loading the model raises ImportError);
  - `ast.literal_eval`;
  - `pd.to_datetime` coercion and the calendar year of a date;
  - `float()` on strings;
  - the haversine central angle.
- **Numbers.** Ratios, means and distances are exact reals.

## Model

| member | source | states |
|---|---|---|
| Utils.MissingColumns | publish/utils.py:16 | a name is in the result exactly when it is listed and absent from the frame |
| Utils.MissingColumnsAppend | publish/utils.py:16 | the missing names keep the listed order: the missing list of `a + b` is that of `a` followed by that of `b` |
| Utils.RequireColumns | publish/utils.py:14-18 | succeeds exactly when every listed column is present; otherwise a ValueError whose text is the context, `": missing required columns: "` and the missing names in listed order joined by `", "`; it returns only a status, so the frame is never changed |
| Utils.DecodeList | publish/utils.py:21-38 | the result is a list or missing; a list comes back unchanged; None, NaN, a tuple and every other non-string become missing; a string that is not bracketed once stripped becomes missing, and so does one whose evaluation fails or gives a non-list; a list result is exactly what literal evaluation of the stripped string produced, and a bracketed string that evaluates to a list gives that list (no case raises) |
| Utils.DecodeListTuple | publish/utils.py:23-28 | a tuple cell is not a list and decodes to missing, while a list holding tuples is returned as it is |
| Utils.DecodeListIdempotent | publish/utils.py:21-38 | decoding a decoded value changes nothing |
| Utils.ApplyToColumn | publish/utils.py:41-44 | writing the decoded column keeps every column of the frame's length (its effect is stated by `Utils.ApplyToColumnsEffect`) |
| Utils.ApplyToColumns | publish/utils.py:47-50 | the column-by-column loop keeps every column of the frame's length |
| Utils.ApplyToColumnsEffect | publish/utils.py:41-50 | with an idempotent cell function, each listed column that is present becomes its cell-wise image however often it is listed, listed columns that are absent are not created, every other column and the row count are unchanged |
| Utils.NormalizeListColumn | publish/utils.py:41-44 | the frame afterwards is the input with the column, when present, decoded cell by cell |
| Utils.NormalizeListColumns | publish/utils.py:47-50 | the loop leaves the frame equal to applying `normalize_list_column` to each listed column in order |
| Utils.DecoderIdempotent | publish/utils.py:21-38 | the cell decoder is idempotent, so `Utils.ApplyToColumnsEffect` applies to it |
| Utils.CoerceDate | publish/utils.py:77 | the result is a date or missing; dates and missing values are left as they are |
| Utils.DateCoercerIdempotent | publish/utils.py:77 | coercing a coerced cell changes nothing |
| Utils.EnsureDatetime | publish/utils.py:74-78 | the loop leaves the frame equal to coercing each listed column that is present, in order |
| Utils.SafeLen | publish/utils.py:53-56 | a number exactly for a list, that list's length and never negative; missing for anything else |
| Utils.NonNull | publish/utils.py:62 | keeps exactly the entries that are neither None nor NaN |
| Utils.Mean | publish/utils.py:65 | the mean times the count is the sum |
| Utils.MeanOrNan | publish/utils.py:59-65 | missing exactly for a non-list, an empty list or a list of only None/NaN; a crash exactly when a non-null entry is not a number; otherwise the mean of the non-null entries only |
| Utils.MeanWithin | publish/utils.py:65 | a mean lies within any bounds of its entries |
| Utils.MeanBounds | publish/utils.py:59-65 | a defined `mean_or_nan` lies within any bounds of the list's non-null entries |
| Utils.StripIllegal | publish/utils.py:11 | no character 0x00-0x08, 0x0B, 0x0C or 0x0E-0x1F remains, every other character of the input remains, and the result is no longer than the input |
| Utils.StripIllegalAppend | publish/utils.py:70 | stripping distributes over concatenation, so the kept characters stay in order |
| Utils.StripIllegalKeepsLegal | publish/utils.py:11 | a string with no illegal character, tab, LF and CR included, is returned as it is |
| Utils.StripIllegalIdempotent | publish/utils.py:68-71 | stripping twice equals stripping once |
| Utils.StripIllegalNulAlone | publish/utils.py:11 | a lone NUL is deleted |
| Utils.StripIllegalNul | publish/utils.py:11 | a NUL between two legal strings is deleted and nothing else changes |
| Utils.StripIllegalExcelChars | publish/utils.py:68-71 | a string cell is stripped of the illegal characters; every other cell comes back unchanged |
| Identifiers.WithPairId | publish/features/identifiers.py:23 | writing `pair_id` keeps every column of the frame's length |
| Identifiers.AddIdentifiersSpec | publish/features/identifiers.py:9-24 | the row count is unchanged, and a frame that raises is left as it was |
| Identifiers.AddIdentifiersStatus | publish/features/identifiers.py:10-21 | raises exactly when a required column is absent or both patent columns are; the first case is the `require_columns` ValueError naming the missing ones in order, the second the fixed "patent_id or patent_id_us" message |
| Identifiers.AddIdentifiersColumns | publish/features/identifiers.py:12-24 | after success the columns are the input's plus `patent_id`, `patent_id_us` and `pair_id`, and every other column is unchanged |
| Identifiers.AddIdentifiersPairId | publish/features/identifiers.py:23 | every row's `pair_id` is its `str(paper_id)`, `"|"`, and its produced `patent_id_us` |
| Identifiers.AddIdentifiersFromUs | publish/features/identifiers.py:13-16 | with `patent_id_us` present it is kept, and `patent_id` is its string with every occurrence of `"US-"` removed, wherever it occurs |
| Identifiers.AddIdentifiersFromPatentId | publish/features/identifiers.py:17-19 | with only `patent_id`, `patent_id_us` is `"US-" + str(patent_id)` and `patent_id` becomes its string |
| Identifiers.AddIdentifiers | publish/features/identifiers.py:9-24 | the in-place stage leaves the frame and status that `Identifiers.AddIdentifiersSpec` gives |
| Identifiers.UsPrefixRoundTrip | publish/features/identifiers.py:15-18 | from a frame with only `patent_id` holding no `"US-"`, removing `"US-"` from the produced `patent_id_us` gives back `patent_id` |
| Identifiers.AddIdentifiersRerun | publish/features/identifiers.py:13-23 | under the same condition a second run of the stage changes nothing |
| Text.RemoveAllNotIdempotent | publish/features/identifiers.py:14-16 | `str.replace("US-", "")` is not idempotent: "UUS-S-" becomes "US-" and then "", which is why the rerun lemma requires ids without "US-" |
| TeamSize.Difference | publish/features/team_size.py:14 | the nullable-integer difference is defined exactly when both sizes are, and is then their signed difference |
| TeamSize.TeamSizeSpec | publish/features/team_size.py:9-16 | the row count is unchanged, and a frame that raises is left as it was |
| TeamSize.AddTeamSizeFeatures | publish/features/team_size.py:9-16 | the in-place stage leaves the frame and status that `TeamSize.TeamSizeSpec` gives |
| TeamSize.TeamSizeStatus | publish/features/team_size.py:10 | raises exactly when `work_author_ids` or `patent_inventor_ids` is absent, with the `require_columns` message naming the missing ones |
| TeamSize.TeamSizeRow | publish/features/team_size.py:12-14 | each row's two sizes are the list lengths, missing for a non-list and never negative, and the difference is missing unless both lists are lists |
| TeamSize.TeamSizeColumns | publish/features/team_size.py:12-14 | only the three size columns are added; every other column is unchanged |
| OrgCollab.UniqueCount | publish/features/org_collab.py:12-15 | the number of distinct non-null entries, never more than the list's length |
| OrgCollab.MultipleFlag | publish/features/org_collab.py:63-68 | missing exactly for a non-list; for a list, whether it has more than one distinct non-null entry; a crash exactly when the list holds an unhashable entry (a list, or a tuple holding one) |
| OrgCollab.MultipleFlagRepeated | publish/features/org_collab.py:12-15 | one value, however often repeated, is not "multiple" |
| OrgCollab.MultipleFlagTwo | publish/features/org_collab.py:12-15 | two different non-null values are "multiple", and a None between them is ignored |
| OrgCollab.AllCompany | publish/features/org_collab.py:9-21 | true exactly when every entry is one of 2, 3, 2.0, 3.0 or their strings; false only when some entry is not; a crash only on an unhashable entry, so a hashable tuple is simply no code |
| OrgCollab.AllCompanyFirstMiss | publish/features/org_collab.py:21 | `all()` stops at the first entry that is not a code: a miss before any unhashable entry gives false |
| OrgCollab.AssigneeType | publish/features/org_collab.py:18-23 | missing for a non-list; always one of missing, "company", "non-company"; "company" exactly when every entry is a company code, so an empty list is a company |
| OrgCollab.AssigneeTypeExamples | publish/features/org_collab.py:9-23 | the empty list and a list of mixed code spellings are "company"; a list holding 4 is "non-company" |
| OrgCollab.TupleEntries | publish/features/org_collab.py:12-21 | a list holding one tuple has one distinct entry, so it is not multiple; a tuple is no company code; a tuple holding a list cannot be hashed and crashes |
| OrgCollab.InstitutionKind | publish/features/org_collab.py:30-36 | "company" and "education" map to themselves and everything else to "other" |
| OrgCollab.NormalizedTypes | publish/features/org_collab.py:26-37 | one kind per entry, in order, so the length is kept |
| OrgCollab.NormalizeInstitutionTypes | publish/features/org_collab.py:26-37 | the appending loop gives none exactly for a non-list, else the normalised list |
| OrgCollab.AuthorType | publish/features/org_collab.py:40-48 | missing exactly for a non-list; always one of missing, company, education, other; "company" exactly when every entry is company (the empty list included); "education" only when every entry is education |
| OrgCollab.AuthorTypeEducation | publish/features/org_collab.py:44-47 | "education" exactly when the list is non-empty and every entry is education |
| OrgCollab.OrgCollabSpec | publish/features/org_collab.py:51-72 | the row count is unchanged, and success means the four input columns are present |
| OrgCollab.AddOrgCollabFeatures | publish/features/org_collab.py:51-72 | the in-place stage leaves the frame and status that `OrgCollab.OrgCollabSpec` gives |
| OrgCollab.OrgCollabStatus | publish/features/org_collab.py:52-70 | an absent input column raises the `require_columns` ValueError naming all absent ones, with the frame untouched; otherwise the stage succeeds exactly when every row's two flags and assignee type can be computed, and else crashes |
| OrgCollab.OrgCollabRow | publish/features/org_collab.py:63-70 | each row of the four written columns is the per-cell rule applied to that row's input cell |
| OrgCollab.OrgCollabColumns | publish/features/org_collab.py:63-70 | only the four derived columns are added; every other column is unchanged |
| Scores.CitationKey | publish/scores.py:128-129 | strings are compared lower-cased (ASCII letters only, see Left out), every other id as it is |
| Scores.KeySet | publish/scores.py:123-129 | the set holds the key of every truthy id and nothing else |
| Scores.Fraction | publish/scores.py:133 | the share of a set lying in another is within [0, 1] |
| Scores.CitationOverlapScore | publish/scores.py:116-133 | the score is missing exactly when either side is not a list or has no truthy id; otherwise it is the number of the patent's distinct keys that the paper also has, over the number of the patent's distinct keys, and lies in [0, 1] |
| Scores.CitationOverlapExample | publish/scores.py:128-133 | `["A","B"]` against `["a","C"]` scores 0.5: "A" matches "a" once lower-cased |
| Scores.CitationOverlapAsymmetric | publish/scores.py:133 | the patent side is the denominator: `["A"]` against `["a","C"]` scores 1.0 |
| Scores.CitationOverlapSwapped | publish/scores.py:133 | with the sides of `Scores.CitationOverlapAsymmetric` swapped the score is 0.5, so the score is not symmetric |
| Scores.Lemmatize | publish/scores.py:47-53 | None and blank text give no lemmas; any other text is stripped and handed to the lemmatizer |
| Scores.TokenSet | publish/scores.py:108-109 | the set holds the lower-cased form (ASCII letters only, see Left out) of every non-empty token and nothing else |
| Scores.OverlapRatio | publish/scores.py:111-113 | the ratio is 0.0 when either set is empty and always lies in [0, 1] |
| Scores.OverlapRatioSymmetric | publish/scores.py:113 | the ratio does not depend on the order of the two sets |
| Scores.OverlapRatioSubset | publish/scores.py:113 | when one non-empty set contains the other the ratio is 1.0, either way round |
| Scores.WordOverlap | publish/scores.py:97-113 | none exactly when either input is falsy; otherwise the overlap ratio of the two lemma sets, within [0, 1] |
| Scores.WordOverlapSymmetric | publish/scores.py:97-113 | word overlap does not depend on the order of its arguments |
| Scores.SbertScore | publish/scores.py:78-94 | no score when either string is empty or blank, decided before the backend is consulted; otherwise the backend's cosine score, or an import failure where loading the model fails |
| CitationOverlap.CitationOverlapSpec | publish/features/citation_overlap.py:16-23 | the row count never changes; on failure the frame is untouched; success implies both citation columns are present |
| CitationOverlap.AddCitationOverlap | publish/features/citation_overlap.py:16-23 | updates the frame in place to exactly the frame `CitationOverlap.CitationOverlapSpec` describes and returns its status |
| CitationOverlap.CitationOverlapStatus | publish/features/citation_overlap.py:17-21 | succeeds exactly when both citation columns are present; otherwise the missing-columns ValueError with context "citation_overlap" |
| CitationOverlap.CitationOverlapRow | publish/features/citation_overlap.py:10-22 | each row's score is the overlap of that row's patent and paper citations, with the patent as denominator, missing or within [0, 1]; one column is added and no other changes |
| TextSimilarity.WordOverlapCell | publish/features/text_similarity.py:10-15 | missing when either cell is missing; otherwise the word overlap of the two stringified cells, a real in [0, 1] exactly when both strings are non-empty |
| TextSimilarity.WordColumn | publish/features/text_similarity.py:57-59 | row `i` of the column is the word-overlap score of row `i`'s two cells |
| TextSimilarity.RowMean | publish/features/text_similarity.py:70-72 | the mean skips missing values: missing exactly when both are, the single defined value when only one is, and a value between the two when both are |
| TextSimilarity.RowMeanSymmetric | publish/features/text_similarity.py:70-72 | the row mean does not depend on the order of the two components |
| TextSimilarity.Consulted | publish/features/text_similarity.py:32-42 | SBERT stays enabled unless the backend fails to load; a failed load scores missing, a missing score becomes missing and a score is kept as it is |
| TextSimilarity.SemanticCell | publish/features/text_similarity.py:22-42 | a disabled latch scores missing and stays disabled; a missing cell scores missing without consulting the backend; otherwise the backend is consulted; the latch can only go from enabled to disabled |
| TextSimilarity.SbertLatch.constructor | publish/features/text_similarity.py:18-19 | SBERT starts enabled and not warned |
| TextSimilarity.SbertLatch.ScoreSemantic | publish/features/text_similarity.py:22-42 | the score and new latch are those of `TextSimilarity.SemanticCell`; the latch stays consistent (disabled exactly when warned) and the notice is printed at most once |
| TextSimilarity.SbertLatch.Consult | publish/features/text_similarity.py:32-42 | the score and new latch are those of `TextSimilarity.Consulted`; the first failed import prints the notice and later ones print nothing |
| TextSimilarity.SemanticScan | publish/features/text_similarity.py:76-78 | one score per row; a latch disabled before the column is still disabled after it |
| TextSimilarity.ScanDisabled | publish/features/text_similarity.py:25-26 | once SBERT is disabled every later row scores missing and it stays disabled |
| TextSimilarity.ScanRow | publish/features/text_similarity.py:76-78 | row `i`'s score is the call made with the latch state the rows before it left |
| TextSimilarity.ScanNoImportFailure | publish/features/text_similarity.py:32-42 | a backend that always loads keeps SBERT enabled, and every row gets the score of its own two cells |
| TextSimilarity.SemanticColumn | publish/features/text_similarity.py:76-78 | the loop over rows leaves the column and latch that `TextSimilarity.SemanticScan` describes |
| TextSimilarity.TitleWords | publish/features/text_similarity.py:56-61 | one word-overlap score per row |
| TextSimilarity.AbstractWords | publish/features/text_similarity.py:63-68 | one word-overlap score per row |
| TextSimilarity.TitleScan | publish/features/text_similarity.py:75-80 | one semantic score per row, and the latch is never re-enabled |
| TextSimilarity.AbstractScan | publish/features/text_similarity.py:82-87 | one semantic score per row, and the latch is never re-enabled |
| TextSimilarity.WithWordScores | publish/features/text_similarity.py:55-72 | the three word-overlap columns keep the row count |
| TextSimilarity.WithSemanticScores | publish/features/text_similarity.py:74-91 | the three semantic columns keep the row count, never raise and never re-enable the latch |
| TextSimilarity.TextSimilaritySpec | publish/features/text_similarity.py:45-93 | the row count never changes, the latch is never re-enabled, and on failure neither the frame nor the latch changes |
| TextSimilarity.AddWordScores | publish/features/text_similarity.py:55-72 | updates the frame in place to the frame `TextSimilarity.WithWordScores` describes |
| TextSimilarity.AddSemanticScores | publish/features/text_similarity.py:74-91 | updates the frame and the latch in place to those `TextSimilarity.WithSemanticScores` describe |
| TextSimilarity.AddTextSimilarityFeatures | publish/features/text_similarity.py:45-93 | updates the frame and the latch in place to those `TextSimilarity.TextSimilaritySpec` describes, and returns its status |
| TextSimilarity.TextSimilarityStatus | publish/features/text_similarity.py:46-53 | raises exactly when neither the title pair nor the abstract pair is complete, with the message naming both alternatives |
| TextSimilarity.WordScoresRow | publish/features/text_similarity.py:56-72 | a component is missing when its pair is absent and is that pair's word-overlap score otherwise; the combined score is their row mean, missing only when both are |
| TextSimilarity.SemanticScoresRow | publish/features/text_similarity.py:75-91 | the title column is scored first and the abstract column continues from the latch it left; an absent pair scores missing; the combined score is the row mean; other columns are unchanged |
| TextSimilarity.TextSimilarityRow | publish/features/text_similarity.py:55-91 | the stage's rows are those of the word-overlap half followed by the semantic half scored in title-then-abstract order |
| TextSimilarity.TextSimilarityDisabled | publish/features/text_similarity.py:25-26 | with SBERT already disabled, all three semantic columns are missing in every row and SBERT stays disabled |
| TextSimilarity.TextSimilarityColumns | publish/features/text_similarity.py:45-93 | exactly the six score columns are added or replaced; every other column is unchanged |
| AuthorExperience.Tagged | publish/features/author_experience.py:13 | keeps only authors of the list, no more of them than there are; empty exactly when no position is "first" or "last" |
| AuthorExperience.TaggedIff | publish/features/author_experience.py:13 | an author is kept exactly when some index carries that author with position "first" or "last" |
| AuthorExperience.TaggedSingle | publish/features/author_experience.py:13 | one author is kept exactly when its own position is "first" or "last" |
| AuthorExperience.TaggedAppend | publish/features/author_experience.py:13 | the filter works piecewise over concatenation, so kept authors stay in list order and repeats are kept |
| AuthorExperience.FirstLastTaggedExample | publish/features/author_experience.py:12-13 | authors [A, B] with positions ["first", "middle"] give [A] |
| AuthorExperience.FirstLastAuthors | publish/features/author_experience.py:9-16 | no authors gives none; positions of matching length select the tagged authors; otherwise the first and the last author, a single author once; the result only holds authors of the list |
| AuthorExperience.CellLeTotal | publish/features/author_experience.py:24 | any two cells are ordered one way or the other by the one-column sort order |
| AuthorExperience.OrderColumns | publish/features/author_experience.py:20 | holds exactly the ordering columns among publication, grant and filing date that are present |
| AuthorExperience.KeyLeTotal | publish/features/author_experience.py:24 | the lexicographic key order over the ordering columns is total |
| AuthorExperience.Insert | publish/features/author_experience.py:24 | inserting a row into a key-sorted row list keeps it sorted and adds exactly that row |
| AuthorExperience.SortRows | publish/features/author_experience.py:24 | lists every row below `n` exactly once, in key order |
| AuthorExperience.InsertDistinct | publish/features/author_experience.py:24 | inserting a new row into a list of distinct rows keeps the rows distinct |
| AuthorExperience.RowOrderExists | publish/features/author_experience.py:24 | every frame has an order of the kind `sort_values` produces: each row once, non-decreasing in the key |
| AuthorExperience.Elems | publish/features/author_experience.py:36-40 | the set holds exactly the list's elements |
| AuthorExperience.Flag | publish/features/author_experience.py:35-39 | missing exactly when the author list is empty; otherwise true exactly when some author is in the seen set |
| AuthorExperience.Step | publish/features/author_experience.py:31-40 | one loop step keeps one flag per row in each result |
| AuthorExperience.Visit | publish/features/author_experience.py:30-42 | after any prefix of the visiting order both results have one entry per row |
| AuthorExperience.ExperienceByOrder | publish/features/author_experience.py:25-42 | the loop leaves the two result columns that `AuthorExperience.Visit` describes |
| AuthorExperience.SeenBeforeIff | publish/features/author_experience.py:36 | an author has been seen before the `k`-th record exactly when an earlier record lists it |
| AuthorExperience.FirstLastBeforeIff | publish/features/author_experience.py:40 | a first/last author has been seen before the `k`-th record exactly when an earlier record has it among its first/last authors |
| AuthorExperience.SeenPrefix | publish/features/author_experience.py:30-40 | the seen sets depend only on the records visited so far |
| AuthorExperience.VisitSeen | publish/features/author_experience.py:36-40 | after the loop the seen sets are the unions of the visited records' authors and first/last authors |
| AuthorExperience.SeenGrows | publish/features/author_experience.py:36-40 | the seen sets only grow along the visiting order |
| AuthorExperience.VisitFlags | publish/features/author_experience.py:35-39 | record `order[k]` is flagged against exactly the authors of the records visited before it |
| AuthorExperience.PreviousExperience | publish/features/author_experience.py:35 | `previous_experience` is missing exactly when the record has no authors, and true exactly when one of its authors is an author of a record visited earlier |
| AuthorExperience.PreviousExperienceFirstLast | publish/features/author_experience.py:38-39 | the same rule on first/last authors, compared only with earlier records' first/last authors |
| AuthorExperience.FirstWithAuthorsNotTrue | publish/features/author_experience.py:35-36 | the first visited record with authors is never flagged true: a record's own authors count only for later records |
| AuthorExperience.PositionsColumn | publish/features/author_experience.py:48-52 | the positions column is present when chosen, and `work_author_positions` wins over `work_author_positions_list` |
| AuthorExperience.AuthorExperienceSpec | publish/features/author_experience.py:45-64 | the row count never changes, and on failure the frame is untouched |
| AuthorExperience.AddAuthorExperience | publish/features/author_experience.py:45-64 | updates the frame in place to the frame `AuthorExperience.AuthorExperienceSpec` describes and returns its status |
| AuthorExperience.AuthorExperienceStatus | publish/features/author_experience.py:46-60 | succeeds exactly when the author column and at least one ordering column are present; otherwise the missing-columns error, or the "need at least one ordering column" error |
| AuthorExperience.AuthorExperienceEffect | publish/features/author_experience.py:62-63 | on success exactly the two flag columns are added, and each row gets the flags of its place in the visiting order |
| PatentClassification.ToUnderscore | publish/features/patent_classification.py:15-17 | the key is the code with one underscore inserted after its first character |
| PatentClassification.UnderscoreRoundTrip | publish/features/patent_classification.py:15-17 | removing the inserted underscore gives the code back |
| PatentClassification.UnderscoreInjective | publish/features/patent_classification.py:15-17 | distinct class codes get distinct keys |
| PatentClassification.UnderscoreExample | publish/features/patent_classification.py:16-17 | "C12" becomes "C_12" |
| PatentClassification.ClassOf | publish/features/patent_classification.py:38-40 | the class of a kept row is the three-character prefix matching a letter A to H and two digits |
| PatentClassification.Classes | publish/features/patent_classification.py:36-43 | every group key is a three-character class |
| PatentClassification.SectorsIff | publish/features/patent_classification.py:43 | a sector is in a class's group exactly when some kept row of that class carries it |
| PatentClassification.InsertUnique | publish/features/patent_classification.py:43 | inserting into a strictly ascending list keeps it strictly ascending and adds exactly that string |
| PatentClassification.SortedUnique | publish/features/patent_classification.py:43 | `sorted(set(xs))` is strictly ascending and holds exactly the elements of `xs` |
| PatentClassification.SortedListUnique | publish/features/patent_classification.py:43 | two strictly ascending lists with the same elements are equal, so the sorted distinct listing is unique |
| PatentClassification.MappingMissing | publish/features/patent_classification.py:28-29 | holds exactly the required mapping columns absent from the header |
| PatentClassification.SectorMap | publish/features/patent_classification.py:21-44 | a missing file is a FileNotFoundError naming the path; a missing column is a ValueError listing the missing names; otherwise it succeeds, exactly when the file exists with both columns |
| PatentClassification.MappingMissingSorted | publish/features/patent_classification.py:33 | the missing names come out already in `sorted` order |
| PatentClassification.MappingMissingBoth | publish/features/patent_classification.py:31-34 | with neither column the message lists "IPC_code, Sector_en" |
| PatentClassification.MappingKeys | publish/features/patent_classification.py:44 | every key is four characters with the underscore at index 1, comes from some kept row's class, and gives back a class once the underscore is removed |
| PatentClassification.FromRowsKeys | publish/features/patent_classification.py:43-44 | every key is the underscored form of some class |
| PatentClassification.FromRowsAt | publish/features/patent_classification.py:43-44 | every class is a key, and its value is that class's label |
| PatentClassification.LabelParts | publish/features/patent_classification.py:43 | a label's parts are exactly the sectors of the class's kept rows |
| PatentClassification.MappingLabel | publish/features/patent_classification.py:36-44 | each kept row's class is a key, labelled by the distinct sectors of that class in ascending order joined by " / ", its own sector among them |
| PatentClassification.SortedUniquePair | publish/features/patent_classification.py:43 | two distinct sectors are listed ascending whatever their row order |
| PatentClassification.TieClasses | publish/features/patent_classification.py:38-41 | in the example rows only "C12" survives as a class; a code without a class is dropped |
| PatentClassification.TieSectors | publish/features/patent_classification.py:43 | the example group collects "Chemistry" then "Biotech" in row order |
| PatentClassification.TieLabel | publish/features/patent_classification.py:43 | the example label is "Biotech / Chemistry" |
| PatentClassification.MappingTieExample | publish/features/patent_classification.py:36-44 | the example table has the single key "C_12", labelled "Biotech / Chemistry" |
| PatentClassification.Iterated | publish/features/patent_classification.py:71-78 | a list is iterated over its entries, and a scalar that has no length becomes a one-element list |
| PatentClassification.IpcElements | publish/features/patent_classification.py:52-75 | None/NaN gives nothing; a string is stripped and kept whole unless it is bracketed; a bracketed string is literal-evaluated and kept whole where that raises; anything else is iterated as it is |
| PatentClassification.Codes | publish/features/patent_classification.py:77-84 | never more codes than elements |
| PatentClassification.NormalizeIpcCodes | publish/features/patent_classification.py:47-84 | the loop appending to `out` returns exactly the normalised codes |
| PatentClassification.CodesKept | publish/features/patent_classification.py:78-83 | a string is produced exactly when it is `str` of some element that is not None/NaN |
| PatentClassification.CodesFrom | publish/features/patent_classification.py:78-83 | every code comes from an element that is not None/NaN |
| PatentClassification.CodesOf | publish/features/patent_classification.py:78-83 | every element that is not None/NaN produces its code |
| PatentClassification.CodesAllKept | publish/features/patent_classification.py:78-83 | with no None/NaN element, the k-th code is `str` of the k-th element |
| PatentClassification.StrCells | publish/features/patent_classification.py:83 | wraps each code as a string cell, in order |
| PatentClassification.NormalizeIdempotent | publish/features/patent_classification.py:47-84 | normalising a list of already normalised codes gives the same codes back |
| PatentClassification.NormalizeSingleCode | publish/features/patent_classification.py:61-69 | a single code that is not bracketed gives itself, stripped |
| PatentClassification.NormalizeDropsMissing | publish/features/patent_classification.py:78-83 | None/NaN entries of a list are dropped and the rest keep their order |
| PatentClassification.NormalizeNothing | publish/features/patent_classification.py:52-73 | an empty list and None both give no codes |
| PatentClassification.Lookup | publish/features/patent_classification.py:89 | one entry per code: the mapped sector, or None when the code is not a key |
| PatentClassification.MapIpcSectors | publish/features/patent_classification.py:87-89 | a list parallel to the normalised codes, each looked up exactly |
| PatentClassification.LookupExact | publish/features/patent_classification.py:89 | row codes are looked up as they are: a code without an underscore at index 1, such as "C12", never finds a sector |
| PatentClassification.PatentClassificationSpec | publish/features/patent_classification.py:92-100 | the row count never changes; on failure the frame is untouched; success implies the codes column is present and the mapping was built |
| PatentClassification.AddPatentClassification | publish/features/patent_classification.py:92-100 | updates the frame in place to the frame `PatentClassification.PatentClassificationSpec` describes and returns its status |
| PatentClassification.PatentClassificationStatus | publish/features/patent_classification.py:96-98 | the column check comes first, with its missing-columns error; after it the stage succeeds exactly when the mapping builds, and otherwise raises the mapping's own error |
| PatentClassification.PatentClassificationRow | publish/features/patent_classification.py:99 | each row's `ipc_sectors` is that row's normalised codes looked up one by one; one column is added and no other changes |
| InternationalCollab.TwoMembers | publish/features/international_collab.py:13 | a set has more than one member exactly when it holds two different values |
| InternationalCollab.HasMultipleCountries | publish/features/international_collab.py:9-13 | a non-list, or a list with no truthy country, is missing; otherwise true exactly when two different truthy countries occur; a country that cannot be hashed (a list, or a tuple holding one) raises |
| InternationalCollab.TruthyPairs | publish/features/international_collab.py:12-13 | the deduplicated set has two distinct members exactly when the list has two different truthy entries |
| InternationalCollab.PairCountries | publish/features/international_collab.py:31-34 | the set holds the truthy work countries (none for a non-list) and the patent country when it is truthy; a country that cannot be hashed raises, while a tuple of strings is an ordinary member |
| InternationalCollab.PairCollab | publish/features/international_collab.py:28-35 | missing exactly when no country is collected; otherwise true exactly when two different countries are collected; it raises exactly when collecting raises |
| InternationalCollab.SingleCountryIsFalse | publish/features/international_collab.py:13-35 | one country, repeated or given on both sides, is never international |
| InternationalCollab.PairCollabExamples | publish/features/international_collab.py:28-35 | a US work with a DE patent is international; empty or missing countries everywhere give missing |
| InternationalCollab.TupleCountries | publish/features/international_collab.py:9-35 | two different tuple countries are international; a tuple patent country differs from the same string in the work list; a list as the patent country raises |
| InternationalCollab.TryZip | publish/features/international_collab.py:37 | on success, one value per row |
| InternationalCollab.TryZipEffect | publish/features/international_collab.py:37 | the row-wise apply succeeds exactly when every row does, and then holds each row's own value |
| InternationalCollab.PairStrategy | publish/features/international_collab.py:21-57 | the row count never changes, and on failure the frame is untouched |
| InternationalCollab.InternationalCollabSpec | publish/features/international_collab.py:16-63 | the row count never changes, and on failure the frame is untouched |
| InternationalCollab.ApplyPairStrategy | publish/features/international_collab.py:21-57 | updates the frame in place to the frame `InternationalCollab.PairStrategy` describes and returns its status |
| InternationalCollab.AddInternationalCollab | publish/features/international_collab.py:16-63 | updates the frame in place to the frame `InternationalCollab.InternationalCollabSpec` describes and returns its status |
| InternationalCollab.InternationalCollabStatus | publish/features/international_collab.py:17-63 | raises the "collab_countries OR (...) OR (...)" error exactly when no strategy's columns are present; otherwise it succeeds or fails only on an unhashable country, so the inner column checks never fire |
| InternationalCollab.TryZipFailure | publish/features/international_collab.py:37 | the only error the row-wise apply can raise is the unhashable-country crash |
| InternationalCollab.CollabCountriesRow | publish/features/international_collab.py:17-19 | when `collab_countries` is present it wins, and each row's flag is computed from that cell alone |
| InternationalCollab.PairRow | publish/features/international_collab.py:21-57 | otherwise the work-institution strategy wins over the institution one, and each row's flag is computed from that row's work and patent countries |
| InternationalCollab.InternationalCollabColumns | publish/features/international_collab.py:16-57 | exactly one column is added or replaced; every other column is unchanged |
| GeoDistance.ToFloat | publish/features/geo_distance.py:25-27 | `float()` of an entry component: numbers convert exactly, text goes through the parser, and anything else raises, so the entry is skipped |
| GeoDistance.Coords | publish/features/geo_distance.py:16-27 | never more coordinates than entries |
| GeoDistance.LatLon | publish/features/geo_distance.py:13-28 | None exactly when the cell is not a list or no entry is a valid pair; otherwise the non-empty list of valid coordinates |
| GeoDistance.LatLonArray | publish/features/geo_distance.py:13-28 | the loop appending to `coords` returns exactly `GeoDistance.LatLon` |
| GeoDistance.CoordsKept | publish/features/geo_distance.py:17-27 | a coordinate is produced exactly when some entry is a two-element list or tuple with non-None components that both convert to it |
| GeoDistance.CoordsAllValid | publish/features/geo_distance.py:17-27 | with every entry valid nothing is dropped and the order is kept |
| GeoDistance.LatLonSkipsMalformed | publish/features/geo_distance.py:18-28 | a one-element entry, a None component and a non-numeric text are all skipped, leaving None |
| GeoDistance.LatLonTuple | publish/features/geo_distance.py:18-27 | a tuple pair is accepted like a list pair, a text component going through the parser, and entries keep their order |
| GeoDistance.AvgHaversine | publish/features/geo_distance.py:31-53 | missing exactly when either side has no coordinate; otherwise a real whose product with the number of pairs is the sum of all pair distances |
| GeoDistance.PairsCount | publish/features/geo_distance.py:37-46 | the pair count the mean divides by is the size of the distance matrix, \|A\|·\|B\| |
| GeoDistance.PairSumAtLeast | publish/features/geo_distance.py:44-46 | when every pair distance is at least lo, the matrix sum is at least lo times the number of pairs |
| GeoDistance.PairSumAtMost | publish/features/geo_distance.py:44-46 | when every pair distance is at most hi, the matrix sum is at most hi times the number of pairs |
| GeoDistance.PairMeanAtLeast | publish/features/geo_distance.py:49-53 | the mean over all pairs is at least any lower bound of the pair distances |
| GeoDistance.PairMeanAtMost | publish/features/geo_distance.py:49-53 | the mean over all pairs is at most any upper bound of the pair distances |
| GeoDistance.AvgHaversineBounds | publish/features/geo_distance.py:49-53 | the mean distance lies within any bounds that hold for every pair distance |
| GeoDistance.AvgHaversineSingle | publish/features/geo_distance.py:44-53 | with one coordinate on each side, the mean is 6371.0 times that pair's central angle |
| GeoDistance.PairSumSwap | publish/features/geo_distance.py:37-46 | for a symmetric distance the matrix sum does not depend on which side is which |
| GeoDistance.AvgHaversineSymmetric | publish/features/geo_distance.py:31-53 | for a symmetric central angle, swapping patent and work coordinates gives the same mean |
| GeoDistance.GeoDistanceSpec | publish/features/geo_distance.py:56-68 | the row count never changes; on failure the frame is untouched; success implies both coordinate columns are present |
| GeoDistance.AddGeoDistance | publish/features/geo_distance.py:56-68 | updates the frame in place to the frame `GeoDistance.GeoDistanceSpec` describes and returns its status |
| GeoDistance.GeoDistanceStatus | publish/features/geo_distance.py:57-61 | succeeds exactly when both coordinate columns are present; otherwise the missing-columns error with context "geo_distance" |
| GeoDistance.GeoDistanceRow | publish/features/geo_distance.py:62-67 | each row's distance is the mean distance of that row's two coordinate lists; one column is added and no other changes |
| Dates.DateFeaturesSpec | publish/features/dates.py:9-16 | the row count never changes; success implies both date columns are present; a non-datetime filing column raises after the publication year was already written |
| Dates.AddDateFeatures | publish/features/dates.py:9-16 | updates the frame in place to the frame `Dates.DateFeaturesSpec` describes, including the partial write before a late failure, and returns its status |
| Dates.DateFeaturesStatus | publish/features/dates.py:10-14 | succeeds exactly when both date columns are present and of datetime kind; a missing column raises the missing-columns error before anything is written |
| Dates.DateFeaturesRow | publish/features/dates.py:12-14 | each row's years are the calendar years of its dates, missing where the date is; the lag is publication minus filing in signed days, missing unless both dates are set, and negative exactly when the paper came first |
| Dates.DateFeaturesColumns | publish/features/dates.py:12-14 | exactly the three derived columns are added or replaced; every other column is unchanged |
| References.PresentIff | publish/features/references.py:10-21 | all six input columns are present exactly when every listed column is |
| References.WithCounts | publish/features/references.py:23-24 | writing the two counts keeps the row count |
| References.ReferencesSpec | publish/features/references.py:9-34 | the row count never changes; success implies all inputs are present and all six outputs written; a failing mean column is raised after the columns before it were written |
| References.AddReferenceFeatures | publish/features/references.py:9-34 | updates the frame in place to the frame `References.ReferencesSpec` describes, including partial writes before a failure, and returns its status |
| References.ReferencesStatus | publish/features/references.py:10-32 | with an input absent, the frame is untouched and the ValueError names every absent column in listed order; with all present, the only failure is a non-numeric list entry |
| References.ReferencesValues | publish/features/references.py:23-32 | on success each derived column is its input mapped cell by cell |
| References.ReferencesCounts | publish/features/references.py:23-24 | the counts are the list lengths of the paper's referenced works and of the patent's DOI references |
| References.ReferencesMeans | publish/features/references.py:25-32 | each mean column holds, row by row, the mean of its list's non-null entries |
| References.ReferencesMeanMissing | publish/features/references.py:25 | a non-list or an all-null list gives a missing mean, never 0 |
| References.ReferencesColumns | publish/features/references.py:23-32 | exactly the six derived columns are added or replaced; every other column is unchanged |
| Cleanup.NegativeToMissing | publish/prep/cleanup.py:8-9 | succeeds exactly on a null, a number or a boolean; a negative number becomes missing and every other value is kept; comparing a string, a timestamp or a list with 0 raises |
| Cleanup.CleanupSpec | publish/prep/cleanup.py:12-21 | the row count never changes |
| Cleanup.CleanupReferenceAges | publish/prep/cleanup.py:12-21 | updates the frame in place, column by column in the listed order, to the frame `Cleanup.CleanupSpec` describes, stopping at the first column that raises |
| Cleanup.TargetsDistinct | publish/prep/cleanup.py:13-20 | the four mean-age column names are distinct |
| Cleanup.CleanupStatus | publish/prep/cleanup.py:12-21 | succeeds exactly when every cell of every present mean-age column can be compared with 0; otherwise it raises |
| Cleanup.CleanupCells | publish/prep/cleanup.py:12-21 | no column is added or removed; each present mean-age cell is the input with negatives replaced by missing, so none is negative; every other column is unchanged |
| Cleanup.CleanupIdempotent | publish/prep/cleanup.py:12-21 | cleaning a cleaned frame succeeds and changes nothing |
| Export.RenameStep | publish/export/export.py:65-68 | one map entry keeps the row count and a valid frame |
| Export.RenameAll | publish/export/export.py:64-69 | the loop over a prefix of the map keeps the row count and a valid frame |
| Export.RenameColumns | publish/export/export.py:63-69 | the loop that rebinds `df` returns exactly `Export.RenameAll` over the whole map |
| Export.RenameMapDistinct | publish/export/export.py:11-18 | the map's old names are distinct and so are its new names |
| Export.RenameMapNoChain | publish/export/export.py:11-18 | no new name of the map is also an old name, so no column is renamed twice |
| Export.RenameMapWellFormed | publish/export/export.py:11-18 | the map is well formed: distinct names and no chains |
| Export.RenameUntouched | publish/export/export.py:64-69 | a column the map does not mention passes through unchanged, and is present afterwards exactly when it was before |
| Export.RenameOldGone | publish/export/export.py:65-68 | after the loop no old name of the map is a column, whether it was renamed or dropped |
| Export.RenameCarries | publish/export/export.py:65-68 | a pair's new column exists afterwards exactly when the old or the new name did; it holds the old column's values when only the old one was there, and its own values when it already existed |
| Export.Stripped | publish/export/export.py:83 | stripping keeps a column's length |
| Export.ExportSpec | publish/export/export.py:72-84 | failure is the ValueError listing the final columns absent after renaming, in final order; success is a sheet whose header is exactly the final column list, in order, with the input's row count |
| Export.PrepareExport | publish/export/export.py:72-84 | returns exactly `Export.ExportSpec`; the caller's frame is not changed |
| Export.ExportStatus | publish/export/export.py:74-78 | the export succeeds exactly when every final column is present after renaming |
| Export.ExportColumns | publish/export/export.py:80-83 | the sheet has exactly the final columns, each the renamed frame's column with illegal characters removed from its strings and other cells kept |
| Export.ExportRenamed | publish/export/export.py:65-83 | a published column that the map renames carries the old column's values, stripped, when the new name was absent |
| Export.OldNamesNotFinal | publish/export/export.py:11-60 | no old name of the map is a published column |
| Export.RenameNoOld | publish/export/export.py:64-69 | the rename loop does nothing to a frame that has none of the old names |
| Export.StrippedIdempotent | publish/export/export.py:83 | stripping a stripped column changes nothing |
| Export.ExportedStripped | publish/export/export.py:80-83 | every exported column is already free of illegal characters |
| Export.ExportedRenameNoop | publish/export/export.py:63-69 | the exported sheet carries none of the old names, so renaming it again changes nothing |
| Export.ExportIdempotent | publish/export/export.py:72-84 | exporting an exported sheet again gives the same sheet |
| ControlMerge.MergedControl | publish/prep/control_merge.py:17-22 | on success a new frame with the input's row count |
| ControlMerge.TrueMergedControl | publish/prep/control_merge.py:25-34 | on success a new frame with the input's row count |
| ControlMerge.MergedControlEffect | publish/prep/control_merge.py:17-22 | raises exactly when `paperid` or `patent` is absent, naming the absent ones under the caller's context; on success `pair_id` is added, the two source columns are gone, and every other column is unchanged |
| ControlMerge.MergedControlKey | publish/prep/control_merge.py:20 | each row's key is its paper id as text, a bar, and its patent as text |
| ControlMerge.TrueMergedControlEffect | publish/prep/control_merge.py:25-34 | raises exactly when `work_id` or `patent_id_us` is absent; on success `pair_id` is added, `work_id`, `patent_id_us` and `patent_id` are gone, and every other column is unchanged |
| ControlMerge.TrueMergedControlKey | publish/prep/control_merge.py:28-32 | each row's key is its work id with every OpenAlex URL prefix removed, a bar, and its US patent id |
| ControlMerge.PairKeysAgree | publish/prep/control_merge.py:20-32 | a work id that is the OpenAlex URL of a paper id gives the same key as that paper id, so both files' rows of one pair collide |
| ControlMerge.PrepareMergedControl | publish/prep/control_merge.py:17-22 | works on a fresh copy, leaving the caller's frame alone, and returns exactly `ControlMerge.MergedControl` |
| ControlMerge.PrepareTrueMergedControl | publish/prep/control_merge.py:25-34 | works on a fresh copy, leaving the caller's frame alone, and returns exactly `ControlMerge.TrueMergedControl` |
| ControlMerge.Part | publish/prep/control_merge.py:38 | a side's column in the concatenation has that side's row count, missing where the side lacks the column |
| ControlMerge.Concat | publish/prep/control_merge.py:38 | the rows of the first frame then those of the second, over the union of their columns |
| ControlMerge.KeptUpTo | publish/prep/control_merge.py:39 | only last occurrences of a key are kept, in ascending row order |
| ControlMerge.KeptUpToIff | publish/prep/control_merge.py:39 | a row is kept exactly when no later row repeats its key |
| ControlMerge.SelectRows | publish/prep/control_merge.py:39 | the selected rows, in selection order, with every column kept |
| ControlMerge.Kept | publish/prep/control_merge.py:39 | the kept rows are rows of the frame |
| ControlMerge.CombineControls | publish/prep/control_merge.py:37-40 | raises exactly when neither side has `pair_id`; otherwise the union of both sides' columns |
| ControlMerge.CombineUnique | publish/prep/control_merge.py:39 | after the combination no two rows share a key, and the rows are the last row of each key, in original order |
| ControlMerge.LastOf | publish/prep/control_merge.py:39 | the last row before `n` that carries a key |
| ControlMerge.CombineKeepsKeys | publish/prep/control_merge.py:38-39 | every key of either side survives the combination |
| ControlMerge.CombineTrueWins | publish/prep/control_merge.py:38-39 | for a key that the true-merged side has, the kept row comes from that side and holds its values |
| ControlMerge.ControlPair | publish/prep/control_merge.py:56-64 | a prepared and combined control pair, when it succeeds, is a frame with `pair_id` |
| ControlMerge.Matches | publish/prep/control_merge.py:107-112 | the ascending rows whose key equals the given one |
| ControlMerge.MatchesEmpty | publish/prep/control_merge.py:107-112 | a key has a match exactly when it occurs |
| ControlMerge.MatchesUnique | publish/prep/control_merge.py:107-112 | against unique keys a key matches at most once |
| ControlMerge.RowPairs | publish/prep/control_merge.py:107-112 | a left row gets one join row per matching control row, or one unmatched row when nothing matches |
| ControlMerge.JoinPairs | publish/prep/control_merge.py:107-112 | every left row appears at least once, and every pairing joins equal keys |
| ControlMerge.JoinPairsCount | publish/prep/control_merge.py:107-117 | the join keeps the left row count exactly when no left key matches more than one control row |
| ControlMerge.JoinPairsAligned | publish/prep/control_merge.py:107-112 | when the row count is kept, join row `i` is left row `i`, matched exactly when its key occurs on the right |
| ControlMerge.LeftColumn | publish/prep/control_merge.py:107-112 | a compact column of the join repeats the compact row of each join row |
| ControlMerge.RightColumn | publish/prep/control_merge.py:107-112 | a control column of the join holds the matched row's value, or missing |
| ControlMerge.Join | publish/prep/control_merge.py:107-112 | the join has one row per join pairing |
| ControlMerge.MergeOne | publish/prep/control_merge.py:104-135 | a successful iteration has the compact frame's row count |
| ControlMerge.OutputsStatus | publish/prep/control_merge.py:103-135 | filling the dictionary finishes exactly when every iteration succeeds, and otherwise raises the first failing iteration's error |
| ControlMerge.OutputsKeys | publish/prep/control_merge.py:135 | on success the dictionary's keys are exactly the control names |
| ControlMerge.OutputsValue | publish/prep/control_merge.py:135 | each name's entry is the result of the last control frame under that name |
| ControlMerge.OutputsStep | publish/prep/control_merge.py:135 | one more successful iteration adds or overwrites its entry |
| ControlMerge.OutputsFailStep | publish/prep/control_merge.py:113-117 | a failing iteration makes the loop raise its error |
| ControlMerge.OutputsStopped | publish/prep/control_merge.py:113-117 | once the loop has raised, later frames change nothing |
| ControlMerge.Names | publish/prep/control_merge.py:103 | the control names in dictionary order |
| ControlMerge.MergeResults | publish/prep/control_merge.py:103-135 | one iteration result per control frame |
| ControlMerge.MergeCompactWithControls | publish/prep/control_merge.py:96-137 | the loop filling `merged_outputs` returns exactly `ControlMerge.MergeCompactSpec` |
| ControlMerge.MergeCompactStatus | publish/prep/control_merge.py:100-117 | the merge finishes exactly when the compact frame has `pair_id` and every control frame's iteration succeeds |
| ControlMerge.MergeCompactFirstError | publish/prep/control_merge.py:103-117 | a failing merge raises the error of the first control frame whose iteration fails, all earlier ones having succeeded |
| ControlMerge.MergeCompactKeys | publish/prep/control_merge.py:135-137 | on success there is one output per control name and no other |
| ControlMerge.MergeCompactEntry | publish/prep/control_merge.py:107-135 | a name's output is the join with the last control frame of that name, with the compact frame's row count |
| ControlMerge.MergeOneStatus | publish/prep/control_merge.py:104-117 | an iteration raises the key-guard error exactly when the control frame lacks `pair_id`, raises on clashing labels (see Left out for the cross-side case), and else raises the row-count error naming both counts exactly when some compact key matches more than one control row |
| ControlMerge.UniqueKeysKeepRows | publish/prep/control_merge.py:107-117 | the row-count guard never fires against a control frame whose keys are unique |
| ControlMerge.CombinedControlsKeepRows | publish/prep/control_merge.py:107-117 | a combined control pair, whose keys are unique, never changes the compact row count |
| ControlMerge.RightLabelSuffix | publish/prep/control_merge.py:111-124 | a control column's label gets `_control` exactly when the compact frame has that name too |
| ControlMerge.MergeOneLeft | publish/prep/control_merge.py:107-112 | a successful iteration keeps every compact column, under its label, row for row |
| ControlMerge.MergeOneUnmatched | publish/prep/control_merge.py:107-112 | a compact row whose key no control row has gets missing in every non-key control column |
| ControlMerge.MergeOneMatched | publish/prep/control_merge.py:107-112 | a compact row whose key the control has gets, in every non-key control column, the value of the control row with that key |
| LoadInputs.OrDefault | publish/prep/load_inputs.py:58-59 | an absent or empty list of names falls back to the default; any other list is used as given |
| LoadInputs.Normalized | publish/prep/load_inputs.py:61-62 | the frame after list decoding and date coercion is a valid frame |
| LoadInputs.PrepareInputsSpec | publish/prep/load_inputs.py:53-71 | the frame after `prepare_inputs` is a valid frame, normalised even when a check raises |
| LoadInputs.PrepareInputs | publish/prep/load_inputs.py:53-71 | updates the frame in place to the frame `LoadInputs.PrepareInputsSpec` describes, and returns its status |
| LoadInputs.NormalizedColumns | publish/prep/load_inputs.py:61-62 | rows and column names are kept; each listed column that is present is replaced by its decoded and then coerced image, an absent one is not created, and every other column is unchanged |
| LoadInputs.PrepareInputsStatus | publish/prep/load_inputs.py:64-69 | raises exactly when a key column is absent or both patent id columns are; the first message names every absent key column in order, the second is the "patent_id or patent_id_us" message; the checks see the input's column names |
| Topics.AddTopics | publish/features/topics.py:17-20 | the frame passes through unchanged, or the missing-columns ValueError with context "topics" |
| Topics.AddTopicsStatus | publish/features/topics.py:9-19 | raises exactly when a topic column is absent, and the message names exactly the absent ones |
| Topics.AddTopicsUnchanged | publish/features/topics.py:19-20 | with the four topic columns present the frame is returned as it is |
| JournalMetric.AddJournalMetric | publish/features/journal_metric.py:9-12 | succeeds exactly when `journal_impact` is present, and then returns the frame unchanged |
| JournalMetric.JournalMetricMessage | publish/features/journal_metric.py:11 | without the column the error reads "journal_metric: missing required columns: journal_impact" |
| PatentClaims.AddPatentClaims | publish/features/patent_claims.py:9-16 | succeeds exactly when both claim columns are present, returning the frame unchanged; otherwise the missing-columns error with context "patent_claims" |
| PatentClaims.PatentClaimsBothMissing | publish/features/patent_claims.py:11-15 | with both columns absent both are named, the count first |
| PatentClaims.PatentClaimsOneMissing | publish/features/patent_claims.py:11-15 | with only the first-claim length absent, only it is named |

## Left out

- File and process I/O is not modelled:
  - `load_parquet` and `_read_csv`;
  - the file-existence branches and skip messages of `load_and_prepare_control_frames` (each control file is modelled once it is read, by `ControlMerge.ControlPair`);
  - `pd.read_excel` of the IPC mapping file, which is given as a `PatentClassification.MappingFile` value (path, found flag, header, rows);
  - `export_to_csv` and `export_to_excel`;
  - all of `publish/run_pipeline.py`: argument parsing, directories, writing files, the Excel ImportError fallback, and the order of its calls. In that file the cleanup runs before `build_features`.
- Printed diagnostics are left out: the control-merge `match_rate` percentage and skip notices, and the SBERT notice text. What is kept is the flag that says the notice was already printed (`TextSimilarity.SbertLatch`).
- Foreign models are parameters and are not modelled:
  - the spaCy pipeline, its stopword list and `_lemmatize_cached` (a function from text to lemmas);
  - the SBERT model, torch device choice and `util.cos_sim` (a backend function giving the cosine score, or None where loading the model raises ImportError).
- `lru_cache` memoisation of the mapping file, spaCy and SBERT is left out, because it changes nothing observable.
- Floating point is replaced by exact reals:
  - means and ratios are exact;
  - the haversine trigonometry is an uninterpreted central-angle parameter multiplied by the radius 6371.0;
  - `float()` on strings is a parsing parameter.
- Dates are optional day numbers:
  - `pd.to_datetime` coercion is a per-cell parameter. pandas converts a whole column at once and may infer one format from its first non-null string, so one cell's result can depend on the others; that is not captured;
  - the calendar year is an uninterpreted `yearOf` parameter;
  - no calendar arithmetic is modelled.
- `ast.literal_eval` is a parameter that gives a parsed cell or a parse error.
- PatentClassification.ClassOf: the digits of `^([A-H]\d{2})` are ASCII '0'..'9' only. Python's `\d` on `str` matches every Unicode decimal digit, so a code such as "C١٢" (Arabic-Indic digits) has a class in Python but none in the model.
- Scores.CitationKey: lower-casing covers ASCII letters only. Python's `str.lower()` is full Unicode: "É" becomes "é", and "İ" becomes two characters. A citation id with a non-ASCII capital can therefore score differently.
- Scores.TokenSet: the same ASCII-only lower-casing applies to lemma tokens, so a title or abstract word with a non-ASCII capital can give a different word-overlap score.
- Python `str()` of cells (`Cells.Show`) is approximate. None and NaN both render as `"nan"`, and dates render as their day number. Reals render with at most 17 fractional digits, not by Python's shortest round-trip rule. This affects the stringified cells in identifiers, text similarity and IPC codes.
- `Missing` stands for None, NaN, NaT and pd.NA alike. Where Python treats them differently, the model cannot tell them apart:
  - NaN is truthy in Python, but `Missing` is falsy;
  - in `_unique_count` a NaN entry counts as a value, because the test is `is not None`;
  - in `_latlon_array` a NaN coordinate passes the `is not None` test and makes the mean distance NaN, where the model skips the entry;
  - in `_normalize_ipc_codes` only None and float NaN are skipped, so pd.NA and NaT entries become the codes `"<NA>"` and `"NaT"`, where the model drops them;
  - in `mean_or_nan` a pd.NA entry survives the filter and `np.mean` raises, where the model skips it.
- OrgCollab.UniqueCount: NaN entries are dropped like None, and equal int/float/bool entries are counted apart. So `multiple_assignee` can differ from the source for lists that hold NaN, or mix such values.
- OrgCollab.MultipleFlag: inherits the UniqueCount difference above.
- AuthorExperience.ExperienceByOrder is proved for every row order that `sort_values` may produce (`AuthorExperience.IsRowOrder`). These points are not modelled:
  - the order pandas picks among rows with equal keys;
  - NaT and other missing keys are placed last, as pandas does by default, but pandas internals of that placement are not modelled;
  - ordering keys of kinds pandas cannot compare, such as a string and a date. `AuthorExperience.CellLe` treats such a pair as equal, where pandas raises TypeError. An int and a float compare numerically, and two booleans compare with False first, as in pandas.
- Unhashable entries are modelled only in organisation collaboration and international collaboration (`OrgCollab.Unhashable`: a list, or a tuple holding something unhashable). There the TypeError that Python raises on such a set member is a `Crash`. In citation overlap and author experience, a list is treated as an ordinary value where Python raises TypeError. This covers a list inside an id list or an author list. It also covers a list-valued entry of the author positions list, which `p in {"first", "last"}` must hash (`AuthorExperience.Tagged` counts such an entry as untagged).
- Utils.MeanOrNan: `np.mean` over nested numeric lists or tuples of equal length succeeds in NumPy, but the model treats any list or tuple entry as non-numeric and crashes.
- NumPy array cells are not modelled. `load_parquet` (publish/prep/load_inputs.py:50, `pd.read_parquet`) can give native list columns as `ndarray` cells. The model assumes list columns arrive as Python lists or stringified lists. In the source an ndarray cell would decode to missing in `decode_list` and give no coordinates in `_latlon_array`, but `_normalize_ipc_codes` turns one into a list with `.tolist()`. `Cells.Cell` has no array kind, so none of these paths is expressed.
- TextSimilarity.WordOverlapCell and TextSimilarity.SemanticCell: the guard `pd.isna(a) or pd.isna(b)` returns an array for a list or tuple cell of two or more entries, and `or` then raises ValueError. The model only asks whether each cell is missing, so it stringifies such a cell and scores it.
- Python equality merges `2` with `2.0` and `True` with `1` in sets and set lookups. Distinct `Cell` values stay distinct here. This matters for the id and author sets of citation overlap, organisation collaboration and author experience.
- `select_dtypes(include=["object", "string"])` is not modelled. `Export.PrepareExport` applies Excel stripping to every string cell, whatever the column's dtype; a numeric column holds no string cells anyway.
- Column dtypes and pandas dtype conversions (e.g. `astype("Int64")`) are not modelled. Cells keep their kind.
- A pandas `MergeError` is modelled as `Crash`. pandas raises it when the suffixed labels of one side repeat among themselves. These are the first two cases of `ControlMerge.LabelsClash`.
- ControlMerge.MergeOneStatus: a suffixed compact label that equals a suffixed control label is also modelled as `Crash`. For example, compact {pair_id, y, y_control} joined with control {pair_id, y} gives two `y_control` columns. pandas returns a frame with both columns and raises nothing. The model stops because a column map cannot hold two columns under one label. The same holds for `ControlMerge.MergeOne` and the merge loop built on it.
- Column order inside a frame is not modelled, because frames are column maps. The one place where order is observable, the export projection onto `FINAL_COLUMNS`, carries the order explicitly in `Export.Sheet`.
