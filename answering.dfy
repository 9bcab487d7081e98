/**
  Query answering (app/main.py): the empty-retrieval short circuit, the
  confidence gate over the generated answer, and the aggregation of
  source and image links from the retrieved documents.
 */
module Answering {
  import opened Wrappers
  import opened JsonValues
  import opened Documents
  import opened Text

  /** The JSON object the endpoint returns. */
  datatype Response = Response(response: string, links: seq<Json>, images: seq<Json>)

  const NoDocumentsMessage: string := "No relevant documents found."
  const LowConfidenceMessage: string := "The system couldn't find a confident answer. Please try rephrasing."

  /** The low-confidence indicator phrases, in the order the source lists them. */
  const FallbackPhrases: seq<string> := [
    "i don't know",
    "no relevant answer",
    "i am not sure",
    "unable to help",
    "couldn't find",
    "don't have enough information"
  ]

  /**
    The confidence gate: an answer is rejected when it is None or empty, or
    when its lower-case form contains one of the fallback phrases.
   */
  predicate Rejected(answer: Option<string>) {
    || answer.None?
    || answer.value == ""
    || exists k :: 0 <= k < |FallbackPhrases| && Contains(Lower(answer.value), FallbackPhrases[k])
  }

  // ---------------------------------------------------------------------
  // Citation aggregation

  /** `doc.metadata or {}`. */
  function MetadataOf(d: Document): map<string, Json> {
    if d.metadata.Some? then d.metadata.value else map[]
  }

  /**
    What one document contributes under `key`: `metadata.get(key)` when
    that value is truthy, and nothing otherwise.
   */
  function Citation(d: Document, key: string): (c: Option<Json>)
    ensures c.Some? <==> d.metadata.Some? && key in d.metadata.value && Truthy(d.metadata.value[key])
    ensures c.Some? ==> c.value == d.metadata.value[key]
  {
    var m := MetadataOf(d);
    if key in m && Truthy(m[key]) then Some(m[key]) else None
  }

  function OptionToSeq(c: Option<Json>): seq<Json> {
    if c.Some? then [c.value] else []
  }

  /** The values the documents contribute under `key`, in rank order, repeats kept. */
  function Citations(docs: seq<Document>, key: string): (r: seq<Json>)
    ensures |r| <= |docs|
    decreases |docs|
  {
    if docs == [] then []
    else Citations(docs[..|docs| - 1], key) + OptionToSeq(Citation(docs[|docs| - 1], key))
  }

  /** Keeps the first occurrence of each value, in order. */
  function Dedup<T(==)>(xs: seq<T>): seq<T>
    decreases |xs|
  {
    if xs == [] then []
    else
      var d := Dedup(xs[..|xs| - 1]);
      if xs[|xs| - 1] in d then d else d + [xs[|xs| - 1]]
  }

  predicate NoDuplicates<T(==)>(s: seq<T>) {
    forall i, j :: 0 <= i < j < |s| ==> s[i] != s[j]
  }

  /** The index of the first occurrence of `x` in `xs`. */
  function FirstIndex<T(==)>(xs: seq<T>, x: T): (r: nat)
    requires x in xs
    ensures r < |xs| && xs[r] == x && x !in xs[..r]
    decreases |xs|
  {
    if xs[0] == x then 0 else 1 + FirstIndex(xs[1..], x)
  }

  /** `s` lists its elements in the order of their first occurrence in `xs`. */
  predicate InFirstSeenOrder<T(==)>(s: seq<T>, xs: seq<T>)
    requires forall x :: x in s ==> x in xs
  {
    forall i, j :: 0 <= i < j < |s| ==> FirstIndex(xs, s[i]) < FirstIndex(xs, s[j])
  }

  // ---------------------------------------------------------------------
  // The endpoint

  /**
    `ask_question`. Retrieval is given as its result `docs`; the question
    answering chain is the function `chain`, applied to the retrieved
    documents and the question. The optional image field is accepted and
    does not take part in computing the response.
   */
  method AskQuestion(question: string, image: Option<string>, docs: seq<Document>,
                     chain: (seq<Document>, string) -> Option<string>)
    returns (r: Response)
    ensures docs == [] ==> r == Response(NoDocumentsMessage, [], [])
    ensures docs != [] && Rejected(chain(docs, question)) ==> r == Response(LowConfidenceMessage, [], [])
    ensures docs != [] && !Rejected(chain(docs, question)) ==>
              && r.response == chain(docs, question).value
              && r.links == Dedup(Citations(docs, "source"))
              && r.images == Dedup(Citations(docs, "image"))
  {
    if docs == [] {
      return Response(NoDocumentsMessage, [], []);
    }
    var answer := chain(docs, question);
    if Rejected(answer) {
      return Response(LowConfidenceMessage, [], []);
    }
    var links, images := CollectCitations(docs);
    r := Response(answer.value, links, images);
  }

  /**
    The citation loop of `ask_question`: the `source` and `image` values of
    the retrieved documents, each kept once, in order of first appearance.
   */
  method CollectCitations(docs: seq<Document>) returns (links: seq<Json>, images: seq<Json>)
    ensures links == Dedup(Citations(docs, "source"))
    ensures images == Dedup(Citations(docs, "image"))
  {
    links, images := [], [];
    var i := 0;
    while i < |docs|
      invariant 0 <= i <= |docs|
      invariant links == Dedup(Citations(docs[..i], "source"))
      invariant images == Dedup(Citations(docs[..i], "image"))
    {
      ghost var linksBefore, imagesBefore := links, images;
      var source := Citation(docs[i], "source");
      if source.Some? && source.value !in links {
        links := links + [source.value];
      }
      assert links == AddCitation(linksBefore, source);
      CitationsStep(docs, i, "source");
      var imageLink := Citation(docs[i], "image");
      if imageLink.Some? && imageLink.value !in images {
        images := images + [imageLink.value];
      }
      assert images == AddCitation(imagesBefore, imageLink);
      CitationsStep(docs, i, "image");
      i := i + 1;
      assert links == Dedup(Citations(docs[..i], "source"));
      assert images == Dedup(Citations(docs[..i], "image"));
    }
    assert docs[..i] == docs;
  }

  /** `links` after the loop body has looked at a document whose citation is `c`. */
  function AddCitation(links: seq<Json>, c: Option<Json>): seq<Json> {
    if c.Some? && c.value !in links then links + [c.value] else links
  }

  /** One loop step: the next document's citation is deduplicated onto the prefix's. */
  lemma CitationsStep(docs: seq<Document>, i: nat, key: string)
    requires i < |docs|
    ensures Dedup(Citations(docs[..i + 1], key)) == AddCitation(Dedup(Citations(docs[..i], key)), Citation(docs[i], key))
  {
    var pre := docs[..i + 1];
    assert pre[..|pre| - 1] == docs[..i];
    var c := Citation(docs[i], key);
    var xs := Citations(docs[..i + 1], key);
    if c.Some? {
      assert xs == Citations(docs[..i], key) + [c.value];
      assert xs[..|xs| - 1] == Citations(docs[..i], key);
    } else {
      assert xs == Citations(docs[..i], key) + [];
      assert xs == Citations(docs[..i], key);
    }
  }

  // ---------------------------------------------------------------------
  // Properties of the citation aggregation

  lemma {:induction false} DedupMembers<T>(xs: seq<T>)
    ensures forall x :: x in Dedup(xs) <==> x in xs
    decreases |xs|
  {
    if xs != [] {
      var p := xs[..|xs| - 1];
      DedupMembers(p);
      assert xs == p + [xs[|xs| - 1]];
    }
  }

  lemma {:induction false} DedupNoDuplicates<T>(xs: seq<T>)
    ensures NoDuplicates(Dedup(xs))
    decreases |xs|
  {
    if xs != [] {
      DedupNoDuplicates(xs[..|xs| - 1]);
    }
  }

  /** In `xs + [y]`, a value already present in `xs` is first seen where it is first seen in `xs`. */
  lemma FirstIndexExtend<T>(xs: seq<T>, y: T, x: T)
    requires x in xs
    ensures FirstIndex(xs + [y], x) == FirstIndex(xs, x)
  {
    var r := FirstIndex(xs, x);
    assert (xs + [y])[..r] == xs[..r];
    FirstIndexUnique(xs + [y], x, r);
  }

  /** The first occurrence is the one position holding `x` with no `x` before it. */
  lemma FirstIndexUnique<T>(zs: seq<T>, x: T, r: nat)
    requires r < |zs| && zs[r] == x && x !in zs[..r]
    ensures FirstIndex(zs, x) == r
  {
  }

  lemma {:induction false} DedupFirstSeenOrder<T>(xs: seq<T>)
    ensures forall x :: x in Dedup(xs) ==> x in xs
    ensures InFirstSeenOrder(Dedup(xs), xs)
    decreases |xs|
  {
    DedupMembers(xs);
    if xs != [] {
      var p := xs[..|xs| - 1];
      var y := xs[|xs| - 1];
      assert xs == p + [y];
      var d := Dedup(p);
      DedupMembers(p);
      DedupFirstSeenOrder(p);
      forall x | x in d ensures FirstIndex(xs, x) == FirstIndex(p, x) {
        FirstIndexExtend(p, y, x);
      }
      if y !in d {
        assert y !in p;
        assert FirstIndex(xs, y) == |p| by {
          assert xs[..|p|] == p;
        }
      }
    }
  }

  /**
    Deduplication is the only way to list the values of `xs` once each in
    the order of their first occurrence: any sequence that does so is
    `Dedup(xs)`.
   */
  lemma DedupUnique<T>(xs: seq<T>, s: seq<T>)
    requires NoDuplicates(s)
    requires forall x :: x in s <==> x in xs
    requires InFirstSeenOrder(s, xs)
    ensures s == Dedup(xs)
  {
    DedupMembers(xs);
    DedupNoDuplicates(xs);
    DedupFirstSeenOrder(xs);
    SortedByFirstIndexUnique(xs, s, Dedup(xs));
  }

  lemma {:induction false} SortedByFirstIndexUnique<T>(xs: seq<T>, s: seq<T>, t: seq<T>)
    requires NoDuplicates(s) && NoDuplicates(t)
    requires forall x :: x in s <==> x in t
    requires forall x :: x in s ==> x in xs
    requires InFirstSeenOrder(s, xs) && InFirstSeenOrder(t, xs)
    ensures s == t
    decreases |s|
  {
    if s == [] {
      if t != [] {
        HeadIn(t);
        assert false;
      }
    } else {
      assert s[0] in s;
      assert t != [];
      HeadsAgree(xs, s, t);
      TailFacts(xs, s);
      TailFacts(xs, t);
      SortedByFirstIndexUnique(xs, s[1..], t[1..]);
      assert s == [s[0]] + s[1..];
      assert t == [t[0]] + t[1..];
    }
  }

  lemma HeadIn<T>(t: seq<T>)
    requires t != []
    ensures t[0] in t
  {
  }

  /** Two such listings start with the same value: the one seen first in `xs`. */
  lemma HeadsAgree<T>(xs: seq<T>, s: seq<T>, t: seq<T>)
    requires s != [] && t != []
    requires forall x :: x in s <==> x in t
    requires forall x :: x in s ==> x in xs
    requires InFirstSeenOrder(s, xs) && InFirstSeenOrder(t, xs)
    ensures s[0] == t[0]
  {
    assert t[0] in t && s[0] in s;
  }

  lemma TailFacts<T>(xs: seq<T>, s: seq<T>)
    requires s != [] && NoDuplicates(s)
    requires forall x :: x in s ==> x in xs
    requires InFirstSeenOrder(s, xs)
    ensures NoDuplicates(s[1..])
    ensures forall x :: x in s[1..] <==> x in s && x != s[0]
    ensures forall x :: x in s[1..] ==> x in xs
    ensures InFirstSeenOrder(s[1..], xs)
  {
    forall x ensures x in s[1..] <==> x in s && x != s[0] {
      if x in s && x != s[0] {
        var i :| 0 <= i < |s| && s[i] == x;
        assert s[1..][i - 1] == x;
      }
    }
    forall i, j | 0 <= i < j < |s[1..]| ensures FirstIndex(xs, s[1..][i]) < FirstIndex(xs, s[1..][j]) {
      assert s[1..][i] == s[i + 1] && s[1..][j] == s[j + 1];
    }
  }

  /** A value is cited under `key` exactly when some retrieved document contributes it. */
  lemma {:induction false} CitationsMembers(docs: seq<Document>, key: string)
    ensures forall x :: x in Citations(docs, key) <==> exists i :: 0 <= i < |docs| && Citation(docs[i], key) == Some(x)
    decreases |docs|
  {
    if docs != [] {
      var p := docs[..|docs| - 1];
      CitationsMembers(p, key);
      forall x ensures x in Citations(docs, key) <==> exists i :: 0 <= i < |docs| && Citation(docs[i], key) == Some(x) {
        if exists i :: 0 <= i < |docs| && Citation(docs[i], key) == Some(x) {
          var i :| 0 <= i < |docs| && Citation(docs[i], key) == Some(x);
          if i < |p| { assert p[i] == docs[i]; }
        }
        if x in Citations(p, key) {
          var i :| 0 <= i < |p| && Citation(p[i], key) == Some(x);
          assert docs[i] == p[i];
        }
      }
    }
  }

  lemma {:induction false} CitationsAppend(a: seq<Document>, b: seq<Document>, key: string)
    ensures Citations(a + b, key) == Citations(a, key) + Citations(b, key)
    decreases |b|
  {
    if b == [] {
      assert a + b == a;
    } else {
      var b' := b[..|b| - 1];
      assert (a + b)[..|a + b| - 1] == a + b';
      assert (a + b)[|a + b| - 1] == b[|b| - 1];
      CitationsAppend(a, b', key);
    }
  }

  /**
    The links (or images) of an accepted answer: each value some retrieved
    document contributes under `key`, once, in order of first appearance
    in the ranked documents; a document whose metadata is None, lacks the
    key or holds a falsy value there contributes nothing.
   */
  lemma CitedLinks(docs: seq<Document>, key: string)
    ensures NoDuplicates(Dedup(Citations(docs, key)))
    ensures forall x :: x in Dedup(Citations(docs, key)) ==> x in Citations(docs, key)
    ensures forall x :: x in Dedup(Citations(docs, key)) <==>
                          exists i :: 0 <= i < |docs| && Citation(docs[i], key) == Some(x)
    ensures InFirstSeenOrder(Dedup(Citations(docs, key)), Citations(docs, key))
  {
    DedupNoDuplicates(Citations(docs, key));
    DedupMembers(Citations(docs, key));
    DedupFirstSeenOrder(Citations(docs, key));
    CitationsMembers(docs, key);
  }

  /** Inserting a document that contributes nothing under `key` leaves the cited values unchanged. */
  lemma SilentDocumentIgnored(a: seq<Document>, d: Document, b: seq<Document>, key: string)
    requires Citation(d, key) == None
    ensures Dedup(Citations(a + [d] + b, key)) == Dedup(Citations(a + b, key))
  {
    SilentCitations(a, d, b, key);
  }

  lemma SilentCitations(a: seq<Document>, d: Document, b: seq<Document>, key: string)
    requires Citation(d, key) == None
    ensures Citations(a + [d] + b, key) == Citations(a + b, key)
  {
    var x := Citations(a, key);
    assert Citations([d], key) == [] by {
      assert [d][..0] == [];
    }
    CitationsAppend(a, [d], key);
    assert x + [] == x;
    CitationsAppend(a + [d], b, key);
    CitationsAppend(a, b, key);
  }

  // ---------------------------------------------------------------------
  // Properties of the gate

  /** Some fallback phrase occurs somewhere in `t`. */
  ghost predicate SomePhraseOccurs(t: string) {
    exists k, i :: 0 <= k < |FallbackPhrases| && OccursAt(t, FallbackPhrases[k], i)
  }

  /** The gate rejects exactly the empty answers and those in whose lower-case form a fallback phrase occurs. */
  lemma RejectedIffPhraseOccurs(s: string)
    ensures Rejected(Some(s)) <==> s == "" || SomePhraseOccurs(Lower(s))
  {
    var t := Lower(s);
    forall k | 0 <= k < |FallbackPhrases| {
      ContainsIff(t, FallbackPhrases[k]);
    }
    if s != "" && Rejected(Some(s)) {
      var k :| 0 <= k < |FallbackPhrases| && Contains(t, FallbackPhrases[k]);
      var i :| OccursAt(t, FallbackPhrases[k], i);
      assert SomePhraseOccurs(t);
    }
  }

  /** Matching ignores case: lower-casing an answer first does not change the decision. */
  lemma GateIgnoresCase(s: string)
    ensures Rejected(Some(Lower(s))) == Rejected(Some(s))
  {
    LowerIdempotent(s);
  }
}
