/**
  How the pieces fit together: what the two loaders can contribute to the
  links and images of an answer, and what the course loader makes of the
  file the course scraper writes.
 */
module Pipeline {
  import opened Wrappers
  import opened JsonValues
  import opened Documents
  import opened CourseIndex
  import opened DiscourseIndex
  import opened CourseScraper
  import opened Answering

  lemma {:induction false} CitationsOfSilentDocuments(docs: seq<Document>, key: string)
    requires forall i :: 0 <= i < |docs| ==> Citation(docs[i], key) == None
    ensures Citations(docs, key) == []
    decreases |docs|
  {
    if docs != [] {
      var p := docs[..|docs| - 1];
      assert forall i :: 0 <= i < |p| ==> p[i] == docs[i];
      CitationsOfSilentDocuments(p, key);
    }
  }

  /**
    Course documents carry empty metadata, so an answer drawn only from
    the course index has no links and no images.
   */
  lemma CourseDocumentsCiteNothing(data: seq<Json>, key: string)
    requires CourseDocuments(data).Ok?
    ensures Dedup(Citations(CourseDocuments(data).value, key)) == []
  {
    var docs := CourseDocuments(data).value;
    forall i | 0 <= i < |docs| ensures Citation(docs[i], key) == None {
      CourseDocumentShape(data, docs[i]);
    }
    CitationsOfSilentDocuments(docs, key);
  }

  /**
    A forum document cites its topic's url under `source` exactly when the
    url is truthy, and never cites an image.
   */
  lemma DiscussionCitation(item: Json)
    requires IsDiscussion(item)
    ensures var d := DiscussionDocument(item).value[0];
            && (Truthy(item.fields["url"]) ==> Citation(d, "source") == Some(item.fields["url"]))
            && (!Truthy(item.fields["url"]) ==> Citation(d, "source") == None)
            && Citation(d, "image") == None
  {
  }

  /** A section as the scraper writes it has no `items`, so the course loader finds nothing in it. */
  lemma ScrapedSectionYieldsNothing(s: Section)
    ensures SectionDocuments(SectionJson(s)) == Ok([])
  {
    assert "items" !in SectionJson(s).fields;
  }

  /**
    The course loader reads `section_title` and `items`, while the scraper
    writes `title` and `content`: loading the scraper's file yields no
    documents at all, whatever the tags were.
   */
  lemma {:induction false} ScrapedFileYieldsNothing(sections: seq<Section>)
    ensures CourseDocuments(CourseJson(sections)) == Ok([])
    decreases |sections|
  {
    if sections != [] {
      var data := CourseJson(sections);
      var p := sections[..|sections| - 1];
      assert data[..|data| - 1] == CourseJson(p);
      ScrapedFileYieldsNothing(p);
      ScrapedSectionYieldsNothing(sections[|sections| - 1]);
      assert CourseDocuments(data) == Then(CourseDocuments(CourseJson(p)), SectionDocuments(data[|data| - 1]));
      assert data[|data| - 1] == SectionJson(sections[|sections| - 1]);
      var none: seq<Document> := [];
      assert none + none == none;
    }
  }

  /** The whole course chain: scraping a tag stream and loading the result yields no documents. */
  lemma ScrapeThenLoad(tags: seq<Tag>)
    ensures CourseDocuments(CourseJson(Sections(tags))) == Ok([])
  {
    ScrapedFileYieldsNothing(Sections(tags));
  }
}
