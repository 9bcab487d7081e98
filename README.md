# virtual_ta: a Dafny model of the answering endpoint and the document loaders

virtual_ta is a teaching assistant service. It answers a student's
question from two search indexes: the course notes and the forum
discussions. This project models, and proves properties of, the parts of
the repository that are its own logic rather than calls into libraries:

- **Answer assembly** (`app/main.py`, `ask_question`). Three steps:
  - an empty retrieval short-circuits with a canned response;
  - a confidence gate rejects an empty answer, and any answer whose
    lower-case form contains one of six fallback phrases;
  - otherwise the `source` and `image` metadata of the ranked documents
    are collected in first-seen order, each value once.
- **Course document assembly** (`scripts/index_data.py`,
  `load_documents_from_json`). A nested walk over the parsed course file
  builds one stripped text per item and attaches no metadata.
- **Forum document assembly** (`scripts/embed_discourse.py`,
  `load_discussions`). Each scraped topic becomes one document carrying
  `{"source": url}`.
- **Course section grouping** (`scripts/scrape_course.py`). A loop over
  the `h2`/`h3`/`p`/`ul`/`ol`/`pre`/`blockquote` tags of the rendered
  course page groups them into titled sections.

The modules:

- `Wrappers`: Option and Result.
- `JsonValues`: parsed JSON values, with Python truthiness, `dict.get`
  and `str()` of a scalar.
- `Text`: `str.strip()`, `str.lower()` and the substring test.
- `Documents`: the document record, plus `Collect`, the "element by
  element, first exception wins" walk that both loaders share.
- `Answering`: the endpoint.
- `CourseIndex`, `DiscourseIndex`, `CourseScraper`: the three scripts.
- `Pipeline`: facts that involve several files.

Each loop in the source is a Dafny `method` with a `while` loop. Its
`ensures` ties the result to a reference function (`Dedup(Citations(..))`,
`CourseDocuments`, `DiscourseDocuments`, `Sections`). The properties of
those functions are proved as lemmas.

Modelling choices:

- A loader's input is the value `json.load` returns, modelled as the
  datatype `Json`. Reading and writing files is not modelled.
- Retrieval (`similarity_search`) is an input: the ranked list `docs`.
- The question-answering chain is a function parameter `chain`, applied to
  the documents and the question. Its result is `None` or the answer text.
- The optional image form field is a parameter that the computation does
  not read.
- A Python exception that the loaders can raise on a malformed file is an
  `Err(LoadError)`. The model covers `AttributeError` from `.get` on a
  non-dictionary, `TypeError`, `KeyError` from `item["url"]`, and the
  validation error of a `Document` whose text is not a string.

Points where the code's behaviour is easy to misread, which the model
follows as written:

- A citation is taken only when the metadata value is truthy. It is not
  enough for it to be present. An empty string, `None`, `0` or an empty
  list contributes nothing (`app/main.py:121`, `app/main.py:124`).
- The empty-retrieval and low-confidence responses differ in their
  `response` text. Both have empty links and images.
- Course documents carry no metadata at all, so neither `source` nor
  `title` is set on them (`scripts/index_data.py:51`).
- Metadata values are arbitrary JSON values, not only strings or null.

## Model

| member | source | states |
|---|---|---|
| Answering.AskQuestion | app/main.py:86-131 | With no retrieved documents, the response is "No relevant documents found." with empty links and images, whatever the chain would answer. A rejected answer gives the fixed low-confidence text with empty links and images, whatever was retrieved. An accepted answer is returned unchanged, with each list deduplicated in first-seen order. The image field takes no part in the result. |
| Answering.CollectCitations | app/main.py:116-125 | The citation loop returns, for `source` and for `image` independently, the deduplicated sequence of cited values. |
| Answering.CitationsStep | app/main.py:118-125 | One loop iteration appends a document's citation to the list exactly when the citation is present and not yet listed. |
| Answering.Citation | app/main.py:119-124 | A document contributes a value under a key exactly when its metadata is present, has the key, and the value there is truthy. The value it contributes is the metadata value itself. |
| JsonValues.Truthy | app/main.py:121-125 | Python truthiness of a decoded JSON value: `None`, `False`, `0`, and empty strings, lists and dictionaries are false. It decides the `if source` and `if image_link` guards, as Answering.Citation and Pipeline.DiscussionCitation state. |
| Answering.Citations | app/main.py:118-125 | The values the ranked documents contribute under a key, in rank order, repeats kept. There is at most one per document. Answering.CitationsMembers states which values occur. |
| Answering.Dedup | app/main.py:121-125 | The `not in links` guard keeps the first occurrence of each value, in order. Answering.CitedLinks and Answering.DedupUnique characterise it. |
| Answering.CitedLinks | app/main.py:116-125 | `links` (and `images`) has no duplicates. It holds exactly the values some retrieved document contributes. Its values appear in the order in which each is first seen among the ranked documents. |
| Answering.CitationsMembers | app/main.py:118-125 | A value is cited under a key exactly when some retrieved document contributes it. |
| Answering.DedupUnique | app/main.py:121-125 | Any sequence that lists the cited values once each, in first-seen order, equals the loop's result, so the result is fully determined by that description. |
| Answering.DedupFirstSeenOrder | app/main.py:121-125 | The kept values stand in the order of their first occurrences. |
| Answering.DedupNoDuplicates | app/main.py:121-125 | The `not in links` check keeps every value at most once. |
| Answering.DedupMembers | app/main.py:121-125 | Deduplication drops repeats only: a value is kept exactly when it occurs. |
| Answering.SilentDocumentIgnored | app/main.py:119-125 | Inserting anywhere a document with None metadata, no such key, or a falsy value leaves the collected list unchanged. |
| Answering.Rejected | app/main.py:104-113 | The confidence gate: the answer is missing or empty, or its lower-case form contains one of the six fallback phrases. Answering.RejectedIffPhraseOccurs states this by phrase positions. |
| Answering.RejectedIffPhraseOccurs | app/main.py:104-113 | An answer is rejected exactly when it is empty, or when one of the six phrases occurs at some position of its lower-case form. |
| Answering.GateIgnoresCase | app/main.py:113 | Lower-casing an answer before the gate does not change the decision: matching is case-insensitive. |
| Text.Contains | app/main.py:113 | Python's `p in s`. A match needs `p` to be no longer than `s`, and the empty pattern always matches. Text.ContainsIff characterises it fully. |
| Text.ContainsIff | app/main.py:113 | The substring test `p in s` holds exactly when `p` occurs in `s` at some position. |
| Text.IsSpace | scripts/index_data.py:50 | The characters `str.isspace` accepts, which `str.strip()` removes. Text.Strip, Text.StripPadded and Text.StripSplits characterise stripping over exactly this set. |
| Text.Strip | scripts/index_data.py:50 | The stripped text neither starts nor ends with whitespace. It is empty exactly when the input is all whitespace, and it is no longer than the input. |
| Text.StripPadded | scripts/index_data.py:50 | Stripping any whitespace prefix and suffix off a text that neither starts nor ends with whitespace gives that text back. |
| Text.StripSplits | scripts/index_data.py:50 | Every text is its stripped form with whitespace around it. |
| Text.Lower | app/main.py:113 | Lower-casing keeps the length and maps each character separately. |
| Text.LowerIdempotent | app/main.py:113 | Lower-casing twice is lower-casing once. |
| JsonValues.Render | scripts/index_data.py:50 | `str()` of a string is the string itself, and `str()` is defined here for every scalar. |
| JsonValues.DigitsRoundTrip | scripts/index_data.py:50 | The decimal text that `str()` gives for a natural number reads back as that number. |
| Documents.CollectErrors | scripts/index_data.py:45-51 | A walk succeeds exactly when every element loads. Otherwise the exception is the first failing element's, and every earlier element loaded. |
| Documents.CollectAppend | scripts/index_data.py:45-51 | Walking a concatenation walks the first part, then the second. |
| Documents.CollectOnePerElement | scripts/embed_discourse.py:19-21 | When each element yields one document, a successful walk yields one document per element, in order. |
| Documents.CollectFrom | scripts/index_data.py:45-51 | Every document produced comes from some element of the input. |
| Documents.Collect | scripts/index_data.py:45-51 | A `for` loop that appends each element's documents in order and stops at the first exception, shared by both loaders (also scripts/embed_discourse.py:19-21). Documents.CollectErrors, Documents.CollectAppend, Documents.CollectOnePerElement and Documents.CollectFrom characterise it. |
| CourseIndex.CourseDocuments | scripts/index_data.py:41-52 | The documents of a parsed course file, section by section, or the first exception raised. CourseIndex.CourseOnePerItem, CourseIndex.CourseSectionOrder and CourseIndex.CourseDocumentShape characterise it. |
| CourseIndex.LoadDocumentsFromJson | scripts/index_data.py:41-52 | The section loop returns exactly `CourseDocuments(data)`: the documents, or the exception Python raises. |
| CourseIndex.AppendItemDocuments | scripts/index_data.py:47-51 | The item loop appends, in item order, each item's document to those already collected, or stops with the first item's exception. |
| CourseIndex.SectionDocuments | scripts/index_data.py:45-51 | The documents of one section, item by item, or the first exception raised. CourseIndex.SectionOnePerItem and CourseIndex.SectionWithoutItems characterise it. |
| CourseIndex.FullText | scripts/index_data.py:50 | The f-string succeeds exactly when none of the section title, item title and item content is a list or dictionary. Otherwise it fails with `Unrendered`. |
| CourseIndex.ItemDocument | scripts/index_data.py:48-51 | A non-dictionary item raises AttributeError. A successful item yields exactly one document, whose metadata is empty and whose text has no surrounding whitespace. |
| CourseIndex.ItemOfStrings | scripts/index_data.py:48-50 | An item whose fields are strings, or missing, yields `strip(section_title + "\n" + title + "\n" + content)`, with a missing field read as "". |
| CourseIndex.EmptyItemKept | scripts/index_data.py:48-51 | In a section without a title, any item whose `title` and `content` are empty or missing still yields a document, whose text is empty. |
| CourseIndex.SectionWithoutItems | scripts/index_data.py:47 | A section without `items` contributes no documents. |
| CourseIndex.SectionOnePerItem | scripts/index_data.py:47-51 | A section that loads yields one document per item, in item order. |
| CourseIndex.CourseOnePerItem | scripts/index_data.py:45-52 | The number of documents equals the total number of items over all sections. |
| CourseIndex.CourseSectionOrder | scripts/index_data.py:45-51 | Documents appear in section order: the documents of a concatenation of section lists are those of the first list, then those of the second. |
| CourseIndex.CourseDocumentShape | scripts/index_data.py:50-51 | Every course document has empty metadata and a text with no leading or trailing whitespace. |
| CourseIndex.SectionDocumentShape | scripts/index_data.py:47-51 | When one section loads, each of its documents has empty metadata and stripped text. |
| DiscourseIndex.DiscussionDocument | scripts/embed_discourse.py:19-21 | A topic loads exactly when it is a dictionary with a `url` and a string `content`. A non-dictionary raises TypeError. A missing `url` raises KeyError("url"), checked before `content`. A missing `content` raises KeyError("content"). A loaded topic gives one document. |
| DiscourseIndex.DiscourseDocuments | scripts/embed_discourse.py:15-22 | The documents of a parsed forum file, topic by topic, or the first exception raised. DiscourseIndex.DiscussionsLoadIff and DiscourseIndex.DiscussionsOnePerTopic characterise it. |
| DiscourseIndex.LoadDiscussions | scripts/embed_discourse.py:15-22 | The loop returns exactly `DiscourseDocuments(data)`. |
| DiscourseIndex.DiscussionsLoadIff | scripts/embed_discourse.py:19-21 | A file loads exactly when every topic is well formed. A malformed topic is never skipped: the load fails with the first malformed topic's exception. |
| DiscourseIndex.DiscussionsOnePerTopic | scripts/embed_discourse.py:18-22 | A loaded file has as many documents as topics, in file order. Document i's text is topic i's `content` verbatim, and its metadata is exactly `{"source": url}`. |
| DiscourseIndex.DiscussionsOrder | scripts/embed_discourse.py:18-22 | The topics of two concatenated files load as the first file's documents, then the second's. |
| DiscourseIndex.OtherFieldsIgnored | scripts/embed_discourse.py:20-21 | Fields other than `url` and `content`, such as `title`, do not affect the document. |
| CourseScraper.Sections | scripts/scrape_course.py:22-34 | Each heading whose stripped text is non-empty opens one section. Its content is the lines of the tags up to the next heading; tags before the first heading are dropped. CourseScraper.HeadingOpensSection, CourseScraper.SectionsWellFormed and CourseScraper.SectionsSplitAtHeading characterise it. |
| CourseScraper.Open | scripts/scrape_course.py:27-28 | The `if current_section["title"]` flush: an open section is emitted only when its title is present and non-empty. CourseScraper.HeadingOpensSection, CourseScraper.EmptyHeadingDropsContent and CourseScraper.SectionsWellFormed characterise it. |
| CourseScraper.GroupSections | scripts/scrape_course.py:22-34 | The grouping loop and the final flush return exactly `Sections(tags)`. |
| CourseScraper.Line | scripts/scrape_course.py:31 | What a non-heading tag appends ends with a newline. |
| CourseScraper.HeadingStep | scripts/scrape_course.py:26-29 | At a heading, the open section is emitted if its title is truthy, and a new section opens with the heading's stripped text and empty content. |
| CourseScraper.TextStep | scripts/scrape_course.py:30-31 | At any other tag, its stripped separated text and a newline are appended to the open section's content. |
| CourseScraper.FlushStep | scripts/scrape_course.py:33-34 | After the last tag, the open section is emitted if its title is truthy. |
| CourseScraper.HeadingOpensSection | scripts/scrape_course.py:26-31 | A heading followed by other tags up to the next heading yields at most one section. If its stripped text is non-empty, that section has the stripped heading text as its title. Its content is each tag's stripped text plus a newline. |
| CourseScraper.EmptyHeadingDropsContent | scripts/scrape_course.py:27-33 | A heading whose stripped text is empty loses the text that follows it. |
| CourseScraper.LeadingTextDropped | scripts/scrape_course.py:24-33 | Text before the first heading is dropped. |
| CourseScraper.SectionsSplitAtHeading | scripts/scrape_course.py:27-34 | Sections are emitted in document order: cut at a heading, the stream yields the sections before the cut, including the one still open there, then those after it. |
| CourseScraper.SectionsAtMostHeadings | scripts/scrape_course.py:26-33 | There are never more sections than heading tags. |
| CourseScraper.SectionsWellFormed | scripts/scrape_course.py:27-33 | Every emitted section has a non-empty, stripped title and content that is empty or ends with a newline. |
| CourseScraper.BodyEndsWithNewline | scripts/scrape_course.py:29-31 | The content gathered under a heading is empty or ends with a newline. |
| CourseScraper.SectionJson | scripts/scrape_course.py:29 | A written section is a dictionary with exactly the keys `title` and `content`. |
| CourseScraper.CourseJson | scripts/scrape_course.py:41 | The written file lists the sections in order, one dictionary each. |
| Pipeline.CourseDocumentsCiteNothing | scripts/index_data.py:51 | An answer drawn only from course documents has no links and no images. |
| Pipeline.DiscussionCitation | scripts/embed_discourse.py:20 | A forum document cites its url under `source` exactly when the url is truthy, and never cites an image. |
| Pipeline.ScrapedSectionYieldsNothing | scripts/scrape_course.py:29 | The course loader finds no items in a section as the scraper writes it. |
| Pipeline.ScrapedFileYieldsNothing | scripts/index_data.py:46-47 | The course loader reads `section_title`/`items`, but the scraper writes `title`/`content`. Loading the scraper's file therefore yields no documents. |
| Pipeline.ScrapeThenLoad | scripts/scrape_course.py:22-34 | Scraping any tag stream and loading the result yields no documents. |

## Left out

- The FastAPI application, its routes, CORS and health page: HTTP plumbing.
- Loading the two FAISS indexes at startup, `merge_from`, and `similarity_search` with k=6: a foreign library over float embeddings. The ranked document list is an input.
- `qa_chain.run` and the chat model: an external model call. It is a function parameter whose result is the answer text or None. Because the parameter is a pure function, "the chain is never invoked on an empty retrieval" is stated as "the result does not depend on the chain". A `qa_chain.run` that raises is not modelled: the endpoint then fails with no response.
- `base64.b64decode` of the image field and its error message: the decoded value is never used. The image is a parameter that the result provably does not depend on: the `ensures` of `Answering.AskQuestion` do not mention it.
- Splitting documents into chunks (`RecursiveCharacterTextSplitter`) and computing embeddings: library internals and network calls that are not shown.
- Reading and writing the JSON files, downloading the course page, rendering markdown and selecting tags with BeautifulSoup: I/O and HTML parsing. The tags arrive as `(name, text, get_text(separator="\n"))` triples in document order.
- `scripts/embed_course.py`, `scripts/scrape_discourse.py`, `scripts/scrape_discourse_selenium.py`, `scripts/debug_window_vars.py`: network, browser and embedding code outside the modelled core.
- The `print` logging throughout.
- Floating-point JSON numbers: `Json` numbers are integers.
- A top-level JSON value that is not a list: the loaders take the parsed list.
- Python's `True == 1` equality inside `source not in links`: the model compares JSON values structurally, so `true` and `1` count as different values.
- JsonValues.Render: `str()` of a list or a dictionary is not modelled. Such a value in a course file makes the model report `Unrendered` where Python would embed its printed form in the text.
- CourseIndex.FullText: for the same reason, it fails with `Unrendered` when a section title, item title or item content is a list or dictionary.
- DiscourseIndex.DiscussionDocument: a `content` that is not a string is modelled as the document validation error. Versions of the document class that convert numbers to text are not modelled.
- Text.Lower: modelled for `A`-`Z` and KELVIN SIGN, which lowers to `k`. These are the only characters whose lower-case form is a single ASCII letter. Every other character stays as it is. The six phrases are pure ASCII, so the gate's decision is still exact: any other character lowers to non-ASCII text, which cannot be part of a phrase match. The one exception is the dotted capital I (U+0130), which lowers to `i` followed by U+0307 COMBINING DOT ABOVE. An `i` taken from there would have U+0307 right after it. No phrase contains that character, and no phrase ends in `i`, so no match can use it. Lower-casing other text exactly is not modelled.
- CourseIndex.ItemsOf: iterating a string or dictionary `items` value is modelled only as far as `.get` on its elements. A non-empty one of either raises AttributeError and an empty one yields nothing. Other values raise TypeError.
