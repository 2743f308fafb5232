/** `add_topics`: the OpenAlex topic fields are prepared upstream; the stage
    only checks that they are there. */
module Topics {
  import opened Cells
  import opened Frames
  import opened Utils

  const TopicColumns: seq<string> := [
    "primary_topic_display_name",
    "primary_subfield_display_name",
    "primary_field_display_name",
    "primary_domain_display_name"
  ]

  /** `add_topics(df)`: the frame itself, or the guard's error. */
  function AddTopics(t: Table): (r: Result<Table>)
    ensures r.Success? ==> r.value == t
    ensures r.Failure? ==> r.error == ValueError(MissingMessage("topics", MissingColumns(t.columns.Keys, TopicColumns)))
  {
    match RequireColumns(t.columns.Keys, TopicColumns, "topics")
    case Ok => Success(t)
    case Fail(e) => Failure(e)
  }

  /** The stage raises exactly when a topic column is absent, and the
      message names every absent one, in the listed order and only those. */
  lemma AddTopicsStatus(t: Table)
    ensures AddTopics(t).Success? <==> forall c | c in TopicColumns :: c in t.columns
    ensures AddTopics(t).Failure? ==>
      forall c :: c in MissingColumns(t.columns.Keys, TopicColumns) <==> c in TopicColumns && c !in t.columns
  {
  }

  /** With the topic columns present the frame passes unchanged: no column is
      added or removed and no value changes. */
  lemma AddTopicsUnchanged(t: Table)
    requires forall c | c in TopicColumns :: c in t.columns
    ensures AddTopics(t) == Success(t)
  {
  }
}
