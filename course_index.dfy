/**
  Course document assembly (scripts/index_data.py, `load_documents_from_json`):
  a parsed list of sections, each with a `section_title` and a list of
  `items`, becomes one document per item whose text is the stripped
  concatenation of the section title, the item title and the item
  content, and which carries no metadata.
 */
module CourseIndex {
  import opened Wrappers
  import opened JsonValues
  import opened Documents
  import opened Text
  import opened Sequences

  /**
    The elements that `for item in section.get("items", [])` hands to
    `item.get`: a list gives its elements; an empty string or dictionary
    gives none; a non-empty string or dictionary gives strings, on which
    `.get` raises AttributeError; any other value is not iterable.
   */
  function ItemsOf(v: Json): Result<seq<Json>, LoadError> {
    match v
    case JArr(es) => Ok(es)
    case JStr(s) => if s == "" then Ok([]) else Err(AttributeError)
    case JObj(m) => if m == map[] then Ok([]) else Err(AttributeError)
    case _ => Err(TypeError)
  }

  /** `f"{section_title}\n{title}\n{content}"`. */
  function FullText(sectionTitle: Json, title: Json, content: Json): (r: Result<string, LoadError>)
    ensures r.Ok? <==> !(sectionTitle.JArr? || sectionTitle.JObj? || title.JArr? || title.JObj? || content.JArr? || content.JObj?)
    ensures r.Err? ==> r.error == Unrendered
  {
    var s, t, c := Render(sectionTitle), Render(title), Render(content);
    if s.Some? && t.Some? && c.Some? then Ok(s.value + "\n" + t.value + "\n" + c.value)
    else Err(Unrendered)
  }

  /** The document of one item of a section whose title value is `sectionTitle`. */
  function ItemDocument(sectionTitle: Json, item: Json): (r: Loaded)
    ensures !item.JObj? ==> r == Err(AttributeError)
    ensures r.Ok? ==> |r.value| == 1 && r.value[0].metadata == Some(map[]) && Trimmed(r.value[0].content)
  {
    if !item.JObj? then Err(AttributeError)
    else
      var title := Get(item.fields, "title", JStr(""));
      var content := Get(item.fields, "content", JStr(""));
      match FullText(sectionTitle, title, content)
      case Err(e) => Err(e)
      case Ok(text) => Ok([Document(Strip(text), Some(map[]))])
  }

  /** The document loader for the items of a section whose title value is `sectionTitle`. */
  function ItemLoader(sectionTitle: Json): Json -> Loaded {
    (item: Json) => ItemDocument(sectionTitle, item)
  }

  /** The documents of one section. */
  function SectionDocuments(section: Json): Loaded {
    if !section.JObj? then Err(AttributeError)
    else
      var sectionTitle := Get(section.fields, "section_title", JStr(""));
      match ItemsOf(Get(section.fields, "items", JArr([])))
      case Err(e) => Err(e)
      case Ok(items) => Collect(ItemLoader(sectionTitle), items)
  }

  /** What `load_documents_from_json` returns for the parsed file `data`, or the exception it raises. */
  function CourseDocuments(data: seq<Json>): Loaded {
    Collect(SectionDocuments, data)
  }

  /**
    `load_documents_from_json`, after `json.load`: the loop over sections.
    The loop over one section's items is `AppendItemDocuments`.
   */
  method LoadDocumentsFromJson(data: seq<Json>) returns (r: Loaded)
    ensures r == CourseDocuments(data)
  {
    var documents: seq<Document> := [];
    var s := 0;
    while s < |data|
      invariant 0 <= s <= |data|
      invariant Collect(SectionDocuments, data[..s]) == Ok(documents)
    {
      CollectStep(SectionDocuments, data, s);
      var section := data[s];
      if !section.JObj? {
        CollectErrSticks(SectionDocuments, data, s + 1);
        return Err(AttributeError);
      }
      var sectionTitle := Get(section.fields, "section_title", JStr(""));
      var items := ItemsOf(Get(section.fields, "items", JArr([])));
      if items.Err? {
        CollectErrSticks(SectionDocuments, data, s + 1);
        return Err(items.error);
      }
      var extended := AppendItemDocuments(documents, sectionTitle, items.value);
      if extended.Err? {
        CollectErrSticks(SectionDocuments, data, s + 1);
        return extended;
      }
      documents := extended.value;
      s := s + 1;
    }
    assert data[..s] == data;
    r := Ok(documents);
  }

  /**
    The inner loop of `load_documents_from_json`: appends to `documents`
    one document per item of a section, or stops at the first exception.
   */
  method AppendItemDocuments(documents: seq<Document>, sectionTitle: Json, items: seq<Json>)
    returns (r: Loaded)
    ensures r == Then(Ok(documents), Collect(ItemLoader(sectionTitle), items))
  {
    var f := ItemLoader(sectionTitle);
    var docs := documents;
    ghost var added: seq<Document> := [];
    var j := 0;
    while j < |items|
      invariant 0 <= j <= |items|
      invariant Collect(f, items[..j]) == Ok(added)
      invariant docs == documents + added
    {
      CollectStep(f, items, j);
      var next := f(items[j]);
      if next.Err? {
        CollectErrSticks(f, items, j + 1);
        return next;
      }
      AppendAssoc(documents, added, next.value);
      docs := docs + next.value;
      added := added + next.value;
      j := j + 1;
      assert Collect(f, items[..j]) == Ok(added);
    }
    assert items[..j] == items;
    r := Ok(docs);
  }

  /** An item whose fields are strings (or missing) yields the stripped, newline-joined text. */
  lemma ItemOfStrings(s: string, t: string, c: string, m: map<string, Json>)
    requires Get(m, "title", JStr("")) == JStr(t) && Get(m, "content", JStr("")) == JStr(c)
    ensures ItemDocument(JStr(s), JObj(m)) == Ok([Document(Strip(s + "\n" + t + "\n" + c), Some(map[]))])
  {
    assert FullText(JStr(s), JStr(t), JStr(c)) == Ok(s + "\n" + t + "\n" + c);
  }

  /**
    An item whose `title` and `content` are empty or missing, in a section
    without a title, yields a document with empty text; it is not skipped.
   */
  lemma EmptyItemKept(m: map<string, Json>)
    requires Get(m, "title", JStr("")) == JStr("") && Get(m, "content", JStr("")) == JStr("")
    ensures ItemDocument(JStr(""), JObj(m)) == Ok([Document("", Some(map[]))])
  {
    var text := "" + "\n" + "" + "\n" + "";
    assert text == "\n\n";
    assert AllSpace(text) by { assert IsSpace(text[0]) && IsSpace(text[1]); }
    ItemOfStrings("", "", "", m);
  }

  /** A section without an `items` key yields no documents. */
  lemma SectionWithoutItems(section: Json)
    requires section.JObj? && "items" !in section.fields
    ensures SectionDocuments(section) == Ok([])
  {
  }

  /** A section that loads yields one document per item, in item order. */
  lemma SectionOnePerItem(section: Json)
    requires section.JObj? && SectionDocuments(section).Ok?
    ensures ItemsOf(Get(section.fields, "items", JArr([]))).Ok?
    ensures var items := ItemsOf(Get(section.fields, "items", JArr([]))).value;
            var sectionTitle := Get(section.fields, "section_title", JStr(""));
            var docs := SectionDocuments(section).value;
            |docs| == |items| &&
            forall i :: 0 <= i < |items| ==>
              ItemDocument(sectionTitle, items[i]).Ok? && docs[i] == ItemDocument(sectionTitle, items[i]).value[0]
  {
    var items := ItemsOf(Get(section.fields, "items", JArr([]))).value;
    var sectionTitle := Get(section.fields, "section_title", JStr(""));
    var f := ItemLoader(sectionTitle);
    assert forall x :: f(x) == ItemDocument(sectionTitle, x);
    CollectOnePerElement(f, items);
  }

  /** The number of items of a section, or 0 if its items cannot be iterated. */
  function ItemCount(section: Json): nat {
    if !section.JObj? then 0
    else
      match ItemsOf(Get(section.fields, "items", JArr([])))
      case Err(_) => 0
      case Ok(items) => |items|
  }

  /** The number of items in all sections. */
  function TotalItems(data: seq<Json>): nat
    decreases |data|
  {
    if data == [] then 0 else TotalItems(data[..|data| - 1]) + ItemCount(data[|data| - 1])
  }

  /** A file that loads yields exactly one document per item. */
  lemma {:induction false} CourseOnePerItem(data: seq<Json>)
    requires CourseDocuments(data).Ok?
    ensures |CourseDocuments(data).value| == TotalItems(data)
    decreases |data|
  {
    if data != [] {
      var p := data[..|data| - 1];
      var last := data[|data| - 1];
      assert CourseDocuments(data) == Then(CourseDocuments(p), SectionDocuments(last));
      CourseOnePerItem(p);
      SectionOnePerItem(last);
    }
  }

  /** The documents of a concatenation of section lists are those of the first list, then those of the second. */
  lemma CourseSectionOrder(a: seq<Json>, b: seq<Json>)
    ensures CourseDocuments(a + b) == Then(CourseDocuments(a), CourseDocuments(b))
  {
    CollectAppend(SectionDocuments, a, b);
  }

  /** Every document loaded from a course file has stripped text and empty metadata. */
  lemma CourseDocumentShape(data: seq<Json>, d: Document)
    requires CourseDocuments(data).Ok? && d in CourseDocuments(data).value
    ensures d.metadata == Some(map[]) && Trimmed(d.content)
  {
    CollectFrom(SectionDocuments, data, d);
    var i :| 0 <= i < |data| && SectionDocuments(data[i]).Ok? && d in SectionDocuments(data[i]).value;
    SectionDocumentShape(data[i]);
  }

  lemma SectionDocumentShape(section: Json)
    ensures SectionDocuments(section).Ok? ==>
              forall d :: d in SectionDocuments(section).value ==> d.metadata == Some(map[]) && Trimmed(d.content)
  {
    if SectionDocuments(section).Ok? {
      var items := ItemsOf(Get(section.fields, "items", JArr([]))).value;
      var sectionTitle := Get(section.fields, "section_title", JStr(""));
      forall d | d in SectionDocuments(section).value ensures d.metadata == Some(map[]) && Trimmed(d.content) {
        CollectFrom(ItemLoader(sectionTitle), items, d);
      }
    }
  }
}
