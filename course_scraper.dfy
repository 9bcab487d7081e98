/**
  Course section grouping (scripts/scrape_course.py, lines 22-34): the
  selected tags of the rendered course page, in document order, are
  grouped into sections; each `h2` or `h3` heading opens a section and the
  text of every other tag is appended to the section that is open.
 */
module CourseScraper {
  import opened Wrappers
  import opened JsonValues
  import opened Text
  import opened Sequences

  /**
    One selected tag: its name, its `tag.text`, and its
    `tag.get_text(separator="\n")`. The HTML parsing that produces the
    tags is not part of this model.
   */
  datatype Tag = Tag(name: string, text: string, separatedText: string)

  /** A section as written to the course file. */
  datatype Section = Section(title: string, content: string)

  predicate IsHeading(t: Tag) {
    t.name == "h2" || t.name == "h3"
  }

  /** What a non-heading tag appends to the open section's content. */
  function Line(t: Tag): (r: string)
    ensures |r| > 0 && r[|r| - 1] == '\n'
  {
    Strip(t.separatedText) + "\n"
  }

  /** The lines of all of `ts`. */
  function Lines(ts: seq<Tag>): string {
    if ts == [] then "" else Line(ts[0]) + Lines(ts[1..])
  }

  /** The lines of the tags that come before the first heading of `ts`. */
  function Body(ts: seq<Tag>): string {
    if ts == [] || IsHeading(ts[0]) then "" else Line(ts[0]) + Body(ts[1..])
  }

  /** The section an open section becomes when flushed: present only if its title is truthy. */
  function Open(title: Option<string>, content: string): seq<Section> {
    if title.Some? && title.value != "" then [Section(title.value, content)] else []
  }

  /**
    The sections of a tag stream, read heading by heading: a heading whose
    stripped text is non-empty yields a section with that title and the
    lines of the tags up to the next heading; tags before the first
    heading, and those after a heading with empty text, yield nothing.
   */
  function Sections(ts: seq<Tag>): seq<Section> {
    if ts == [] then []
    else if IsHeading(ts[0]) then Open(Some(Strip(ts[0].text)), Body(ts[1..])) + Sections(ts[1..])
    else Sections(ts[1..])
  }

  /** The grouping loop and the final flush. */
  method GroupSections(tags: seq<Tag>) returns (courseData: seq<Section>)
    ensures courseData == Sections(tags)
  {
    courseData := [];
    var title: Option<string> := None;
    var content := "";
    var i := 0;
    while i < |tags|
      invariant 0 <= i <= |tags|
      invariant Sections(tags) == courseData + Open(title, content + Body(tags[i..])) + Sections(tags[i..])
    {
      var tag := tags[i];
      ghost var before, openBefore := courseData, Open(title, content);
      assert tags[i..][1..] == tags[i + 1..];
      assert tags[i..][0] == tag;
      if IsHeading(tag) {
        HeadingStep(courseData, title, content, tags[i..]);
        if title.Some? && title.value != "" {
          courseData := courseData + [Section(title.value, content)];
        }
        assert courseData == before + openBefore;
        title := Some(Strip(tag.text));
        content := "";
      } else {
        TextStep(courseData, title, content, tags[i..]);
        content := content + Line(tag);
      }
      i := i + 1;
      assert Sections(tags) == courseData + Open(title, content + Body(tags[i..])) + Sections(tags[i..]);
    }
    FlushStep(courseData, title, content, tags[i..]);
    if title.Some? && title.value != "" {
      courseData := courseData + [Section(title.value, content)];
    }
  }

  /** At a heading, the open section is flushed and a new one with empty content is opened. */
  lemma HeadingStep(out: seq<Section>, title: Option<string>, content: string, ts: seq<Tag>)
    requires ts != [] && IsHeading(ts[0])
    ensures out + Open(title, content + Body(ts)) + Sections(ts)
            == (out + Open(title, content)) + Open(Some(Strip(ts[0].text)), "" + Body(ts[1..])) + Sections(ts[1..])
  {
    assert Body(ts) == "";
    assert content + "" == content;
    assert "" + Body(ts[1..]) == Body(ts[1..]);
  }

  /** At any other tag, its line is appended to the open section's content. */
  lemma TextStep(out: seq<Section>, title: Option<string>, content: string, ts: seq<Tag>)
    requires ts != [] && !IsHeading(ts[0])
    ensures out + Open(title, content + Body(ts)) + Sections(ts)
            == out + Open(title, (content + Line(ts[0])) + Body(ts[1..])) + Sections(ts[1..])
  {
    assert content + Body(ts) == (content + Line(ts[0])) + Body(ts[1..]);
  }

  /** After the last tag, only the open section is left to flush. */
  lemma FlushStep(out: seq<Section>, title: Option<string>, content: string, ts: seq<Tag>)
    requires ts == []
    ensures out + Open(title, content + Body(ts)) + Sections(ts) == out + Open(title, content)
  {
    assert content + "" == content;
  }

  // ---------------------------------------------------------------------
  // Properties of the grouping

  function HeadingCount(ts: seq<Tag>): nat {
    if ts == [] then 0 else (if IsHeading(ts[0]) then 1 else 0) + HeadingCount(ts[1..])
  }

  /** There are never more sections than headings. */
  lemma {:induction false} SectionsAtMostHeadings(ts: seq<Tag>)
    ensures |Sections(ts)| <= HeadingCount(ts)
    decreases |ts|
  {
    if ts != [] {
      SectionsAtMostHeadings(ts[1..]);
    }
  }

  predicate EndsWithNewline(s: string) {
    s == "" || s[|s| - 1] == '\n'
  }

  lemma EndsWithNewlineAppend(a: string, b: string)
    requires EndsWithNewline(b) && b != ""
    ensures EndsWithNewline(a + b)
  {
  }

  lemma {:induction false} BodyEndsWithNewline(ts: seq<Tag>)
    ensures EndsWithNewline(Body(ts))
    decreases |ts|
  {
    if ts != [] && !IsHeading(ts[0]) {
      BodyEndsWithNewline(ts[1..]);
      if Body(ts[1..]) == "" {
        assert Body(ts) == Line(ts[0]) + "";
      } else {
        EndsWithNewlineAppend(Line(ts[0]), Body(ts[1..]));
      }
    }
  }

  /** A non-empty, stripped title, and content that is empty or ends with a newline. */
  predicate WellFormedSection(s: Section) {
    s.title != "" && Trimmed(s.title) && EndsWithNewline(s.content)
  }

  /** Every section a tag stream yields is well formed. */
  lemma {:induction false} SectionsWellFormed(ts: seq<Tag>)
    ensures forall s :: s in Sections(ts) ==> WellFormedSection(s)
    decreases |ts|
  {
    if ts != [] {
      SectionsWellFormed(ts[1..]);
      if IsHeading(ts[0]) {
        SectionsAtHeading(ts);
        BodyEndsWithNewline(ts[1..]);
        OpenWellFormed(Strip(ts[0].text), Body(ts[1..]), Sections(ts[1..]));
      } else {
        SectionsAtText(ts);
      }
    }
  }

  lemma OpenWellFormed(title: string, content: string, rest: seq<Section>)
    requires Trimmed(title) && EndsWithNewline(content)
    requires forall s :: s in rest ==> WellFormedSection(s)
    ensures forall s :: s in Open(Some(title), content) + rest ==> WellFormedSection(s)
  {
  }

  lemma SectionsAtHeading(ts: seq<Tag>)
    requires ts != [] && IsHeading(ts[0])
    ensures Sections(ts) == Open(Some(Strip(ts[0].text)), Body(ts[1..])) + Sections(ts[1..])
  {
  }

  lemma SectionsAtText(ts: seq<Tag>)
    requires ts != [] && !IsHeading(ts[0])
    ensures Sections(ts) == Sections(ts[1..])
  {
  }

  /** Text before the first heading is dropped. */
  lemma {:induction false} LeadingTextDropped(pre: seq<Tag>, ts: seq<Tag>)
    requires forall k :: 0 <= k < |pre| ==> !IsHeading(pre[k])
    ensures Sections(pre + ts) == Sections(ts)
    decreases |pre|
  {
    if pre != [] {
      TailOfAppend(pre, ts);
      SectionsAtText(pre + ts);
      LeadingTextDropped(pre[1..], ts);
    } else {
      AppendEmpty(pre, ts);
    }
  }

  lemma {:induction false} BodyOfRun(run: seq<Tag>, rest: seq<Tag>)
    requires forall k :: 0 <= k < |run| ==> !IsHeading(run[k])
    requires rest == [] || IsHeading(rest[0])
    ensures Body(run + rest) == Lines(run)
    decreases |run|
  {
    if run != [] {
      TailOfAppend(run, rest);
      BodyOfRun(run[1..], rest);
      assert Body(run + rest) == Line(run[0]) + Body(run[1..] + rest);
    } else {
      AppendEmpty(run, rest);
    }
  }

  /**
    A heading followed by a run of other tags up to the next heading
    yields at most one section: if the heading's stripped text is
    non-empty, a section with that title whose content is each tag's
    stripped text plus a newline; otherwise none.
   */
  lemma HeadingOpensSection(h: Tag, run: seq<Tag>, rest: seq<Tag>)
    requires IsHeading(h)
    requires forall k :: 0 <= k < |run| ==> !IsHeading(run[k])
    requires rest == [] || IsHeading(rest[0])
    ensures Sections([h] + run + rest) == Open(Some(Strip(h.text)), Lines(run)) + Sections(rest)
    ensures Strip(h.text) != "" ==> Sections([h] + run + rest) == [Section(Strip(h.text), Lines(run))] + Sections(rest)
  {
    AppendAssoc([h], run, rest);
    TailOfAppend([h], run + rest);
    SectionsAtHeading([h] + (run + rest));
    BodyOfRun(run, rest);
    LeadingTextDropped(run, rest);
  }

  /** A heading whose stripped text is empty loses the text that follows it. */
  lemma EmptyHeadingDropsContent(h: Tag, run: seq<Tag>, rest: seq<Tag>)
    requires IsHeading(h) && Strip(h.text) == ""
    requires forall k :: 0 <= k < |run| ==> !IsHeading(run[k])
    ensures Sections([h] + run + rest) == Sections(rest)
  {
    AppendAssoc([h], run, rest);
    TailOfAppend([h], run + rest);
    SectionsAtHeading([h] + (run + rest));
    LeadingTextDropped(run, rest);
  }

  /**
    Cut at a heading, a tag stream yields the sections of the part before
    the cut, in order, then those of the part after it; in particular the
    section still open at the end of the first part is flushed.
   */
  lemma {:induction false} SectionsSplitAtHeading(a: seq<Tag>, b: seq<Tag>)
    requires b == [] || IsHeading(b[0])
    ensures Sections(a + b) == Sections(a) + Sections(b)
    decreases |a|
  {
    if a == [] {
      AppendEmpty(a, b);
      AppendEmpty(Sections(a), Sections(b));
    } else {
      TailOfAppend(a, b);
      SectionsSplitAtHeading(a[1..], b);
      if IsHeading(a[0]) {
        SectionsAtHeading(a + b);
        SectionsAtHeading(a);
        BodyPrefix(a[1..], b);
        AppendAssoc(Open(Some(Strip(a[0].text)), Body(a[1..])), Sections(a[1..]), Sections(b));
      } else {
        SectionsAtText(a + b);
        SectionsAtText(a);
      }
    }
  }

  lemma {:induction false} BodyPrefix(a: seq<Tag>, b: seq<Tag>)
    requires b == [] || IsHeading(b[0])
    ensures Body(a + b) == Body(a)
    decreases |a|
  {
    if a == [] {
      AppendEmpty(a, b);
    } else {
      TailOfAppend(a, b);
      BodyPrefix(a[1..], b);
    }
  }

  // ---------------------------------------------------------------------
  // The course file

  /** A section as `json.dump` writes it: a dictionary with keys `title` and `content`. */
  function SectionJson(s: Section): (v: Json)
    ensures v.JObj? && v.fields.Keys == {"title", "content"}
  {
    JObj(map["title" := JStr(s.title), "content" := JStr(s.content)])
  }

  function CourseJson(sections: seq<Section>): (r: seq<Json>)
    ensures |r| == |sections|
    ensures forall i :: 0 <= i < |sections| ==> r[i] == SectionJson(sections[i])
  {
    if sections == [] then [] else CourseJson(sections[..|sections| - 1]) + [SectionJson(sections[|sections| - 1])]
  }
}
