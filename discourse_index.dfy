/**
  Forum document assembly (scripts/embed_discourse.py, `load_discussions`):
  a parsed list of scraped topics becomes one document per topic, whose
  text is the topic's `content` and whose metadata is `{"source": url}`.
 */
module DiscourseIndex {
  import opened Wrappers
  import opened JsonValues
  import opened Documents

  /** A topic the loader accepts: a dictionary with a `url` and a string `content`. */
  predicate IsDiscussion(item: Json) {
    item.JObj? && "url" in item.fields && "content" in item.fields && item.fields["content"].JStr?
  }

  /**
    The document of one topic. `item["url"]` is read first, then
    `item["content"]`; subscripting something that is not a dictionary
    raises TypeError, a missing key raises KeyError, and a document text
    that is not a string fails the document's validation.
   */
  function DiscussionDocument(item: Json): (r: Loaded)
    ensures r.Ok? <==> IsDiscussion(item)
    ensures !item.JObj? ==> r == Err(TypeError)
    ensures item.JObj? && "url" !in item.fields ==> r == Err(KeyError("url"))
    ensures item.JObj? && "url" in item.fields && "content" !in item.fields ==> r == Err(KeyError("content"))
    ensures r.Ok? ==> |r.value| == 1
  {
    if !item.JObj? then Err(TypeError)
    else if "url" !in item.fields then Err(KeyError("url"))
    else if "content" !in item.fields then Err(KeyError("content"))
    else
      match item.fields["content"]
      case JStr(c) => Ok([Document(c, Some(map["source" := item.fields["url"]]))])
      case _ => Err(ValidationError)
  }

  /** What `load_discussions` returns for the parsed file `data`, or the exception it raises. */
  function DiscourseDocuments(data: seq<Json>): Loaded {
    Collect(DiscussionDocument, data)
  }

  /** `load_discussions`, after `json.load`. */
  method LoadDiscussions(data: seq<Json>) returns (r: Loaded)
    ensures r == DiscourseDocuments(data)
  {
    var docs: seq<Document> := [];
    var i := 0;
    while i < |data|
      invariant 0 <= i <= |data|
      invariant Collect(DiscussionDocument, data[..i]) == Ok(docs)
    {
      CollectStep(DiscussionDocument, data, i);
      var item := data[i];
      if !item.JObj? {
        CollectErrSticks(DiscussionDocument, data, i + 1);
        return Err(TypeError);
      }
      if "url" !in item.fields {
        CollectErrSticks(DiscussionDocument, data, i + 1);
        return Err(KeyError("url"));
      }
      var metadata := map["source" := item.fields["url"]];
      if "content" !in item.fields {
        CollectErrSticks(DiscussionDocument, data, i + 1);
        return Err(KeyError("content"));
      }
      var content := item.fields["content"];
      if !content.JStr? {
        assert DiscussionDocument(item) == Err(ValidationError);
        CollectErrSticks(DiscussionDocument, data, i + 1);
        return Err(ValidationError);
      }
      assert DiscussionDocument(item) == Ok([Document(content.s, Some(metadata))]);
      docs := docs + [Document(content.s, Some(metadata))];
      i := i + 1;
      assert Collect(DiscussionDocument, data[..i]) == Ok(docs);
    }
    assert data[..i] == data;
    r := Ok(docs);
  }

  /**
    A file loads exactly when every topic in it is well formed; a single
    malformed topic makes the whole load fail rather than being skipped,
    and the exception is that of the first malformed topic.
   */
  lemma DiscussionsLoadIff(data: seq<Json>)
    ensures DiscourseDocuments(data).Ok? <==> forall i :: 0 <= i < |data| ==> IsDiscussion(data[i])
    ensures DiscourseDocuments(data).Err? ==>
              exists i :: && 0 <= i < |data| && !IsDiscussion(data[i])
                          && DiscourseDocuments(data) == DiscussionDocument(data[i])
                          && forall j :: 0 <= j < i ==> IsDiscussion(data[j])
  {
    CollectErrors(DiscussionDocument, data);
  }

  /**
    A file that loads yields one document per topic, in file order, whose
    text is the topic's content verbatim and whose metadata is exactly
    the topic's url under `source`.
   */
  lemma DiscussionsOnePerTopic(data: seq<Json>)
    requires DiscourseDocuments(data).Ok?
    ensures |DiscourseDocuments(data).value| == |data|
    ensures forall i :: 0 <= i < |data| ==>
              && IsDiscussion(data[i])
              && DiscourseDocuments(data).value[i].content == data[i].fields["content"].s
              && DiscourseDocuments(data).value[i].metadata == Some(map["source" := data[i].fields["url"]])
  {
    CollectOnePerElement(DiscussionDocument, data);
  }

  /** The topics of two concatenated files load as the first file's documents, then the second's. */
  lemma DiscussionsOrder(a: seq<Json>, b: seq<Json>)
    ensures DiscourseDocuments(a + b) == Then(DiscourseDocuments(a), DiscourseDocuments(b))
  {
    CollectAppend(DiscussionDocument, a, b);
  }

  /** Fields other than `url` and `content`, such as the topic title, do not affect the document. */
  lemma OtherFieldsIgnored(m: map<string, Json>, key: string, v: Json)
    requires key != "url" && key != "content"
    ensures DiscussionDocument(JObj(m[key := v])) == DiscussionDocument(JObj(m))
  {
  }
}
