/**
  The document record the loaders build and the index returns, and the
  shape both loaders share: walk a list front to back, turn each element
  into documents, append them, and stop at the first exception.
 */
module Documents {
  import opened Wrappers
  import opened JsonValues

  /**
    A document: its text (`page_content`) and its metadata dictionary,
    which a caller may also pass as None.
   */
  datatype Document = Document(content: string, metadata: Option<map<string, Json>>)

  /** The exceptions the loaders can raise on a malformed parsed file. */
  datatype LoadError =
    | AttributeError   // `.get` called on something that is not a dictionary
    | TypeError        // iteration over, or subscripting of, an unsuitable value
    | KeyError(key: string)
    | ValidationError  // document text that is not a string
    | Unrendered       // `str()` of a list or a dictionary, which is not modelled

  type Loaded = Result<seq<Document>, LoadError>

  /** Appending what one more element yields to what the elements before it yielded. */
  function Then(before: Loaded, next: Loaded): Loaded {
    match before
    case Err(e) => Err(e)
    case Ok(p) =>
      match next
      case Err(e) => Err(e)
      case Ok(d) => Ok(p + d)
  }

  /** The documents of `xs`, element after element, or the first exception raised. */
  function Collect<A>(f: A -> Loaded, xs: seq<A>): Loaded
    decreases |xs|
  {
    if xs == [] then Ok([]) else Then(Collect(f, xs[..|xs| - 1]), f(xs[|xs| - 1]))
  }

  /** The loop step: the prefix one element longer. */
  lemma CollectStep<A>(f: A -> Loaded, xs: seq<A>, i: nat)
    requires i < |xs|
    ensures Collect(f, xs[..i + 1]) == Then(Collect(f, xs[..i]), f(xs[i]))
  {
    assert xs[..i + 1][..i] == xs[..i];
  }

  lemma ThenAssociative(a: Loaded, b: Loaded, c: Loaded)
    ensures Then(Then(a, b), c) == Then(a, Then(b, c))
  {
    if a.Ok? && b.Ok? && c.Ok? {
      assert (a.value + b.value) + c.value == a.value + (b.value + c.value);
    }
  }

  /** Loading a concatenation loads the first part, then the second. */
  lemma {:induction false} CollectAppend<A>(f: A -> Loaded, a: seq<A>, b: seq<A>)
    ensures Collect(f, a + b) == Then(Collect(f, a), Collect(f, b))
    decreases |b|
  {
    if b == [] {
      assert a + b == a;
      if Collect(f, a).Ok? { assert Collect(f, a).value + [] == Collect(f, a).value; }
    } else {
      var b' := b[..|b| - 1];
      assert (a + b)[..|a + b| - 1] == a + b';
      assert (a + b)[|a + b| - 1] == b[|b| - 1];
      CollectAppend(f, a, b');
      ThenAssociative(Collect(f, a), Collect(f, b'), f(b[|b| - 1]));
    }
  }

  /** Once an exception is raised, the rest of the list is not looked at. */
  lemma CollectErrSticks<A>(f: A -> Loaded, xs: seq<A>, i: nat)
    requires i <= |xs| && Collect(f, xs[..i]).Err?
    ensures Collect(f, xs) == Collect(f, xs[..i])
  {
    assert xs == xs[..i] + xs[i..];
    CollectAppend(f, xs[..i], xs[i..]);
  }

  /**
    Loading succeeds exactly when every element loads; otherwise the error
    is that of the first element that fails.
   */
  lemma {:induction false} CollectErrors<A>(f: A -> Loaded, xs: seq<A>)
    ensures Collect(f, xs).Ok? <==> forall i :: 0 <= i < |xs| ==> f(xs[i]).Ok?
    ensures Collect(f, xs).Err? ==>
              exists i :: 0 <= i < |xs| && Collect(f, xs) == f(xs[i]) && forall j :: 0 <= j < i ==> f(xs[j]).Ok?
    decreases |xs|
  {
    if xs != [] {
      var p := xs[..|xs| - 1];
      CollectErrors(f, p);
      assert forall i :: 0 <= i < |p| ==> p[i] == xs[i];
      if Collect(f, p).Err? {
        var i :| 0 <= i < |p| && Collect(f, p) == f(p[i]) && forall j :: 0 <= j < i ==> f(p[j]).Ok?;
        assert Collect(f, xs) == f(xs[i]);
      }
    }
  }

  /**
    When every element yields exactly one document, a successful load has
    one document per element, in order.
   */
  lemma {:induction false} CollectOnePerElement<A>(f: A -> Loaded, xs: seq<A>)
    requires forall i :: 0 <= i < |xs| && f(xs[i]).Ok? ==> |f(xs[i]).value| == 1
    requires Collect(f, xs).Ok?
    ensures |Collect(f, xs).value| == |xs|
    ensures forall i :: 0 <= i < |xs| ==> f(xs[i]).Ok? && Collect(f, xs).value[i] == f(xs[i]).value[0]
    decreases |xs|
  {
    if xs != [] {
      var p := xs[..|xs| - 1];
      assert forall i :: 0 <= i < |p| ==> p[i] == xs[i];
      CollectOnePerElement(f, p);
    }
  }

  /** A successful load yields only documents that some element yields. */
  lemma {:induction false} CollectFrom<A>(f: A -> Loaded, xs: seq<A>, d: Document)
    requires Collect(f, xs).Ok? && d in Collect(f, xs).value
    ensures exists i :: 0 <= i < |xs| && f(xs[i]).Ok? && d in f(xs[i]).value
    decreases |xs|
  {
    var p := xs[..|xs| - 1];
    var last := xs[|xs| - 1];
    assert Collect(f, xs).value == Collect(f, p).value + f(last).value;
    if d in Collect(f, p).value {
      CollectFrom(f, p, d);
      var i :| 0 <= i < |p| && f(p[i]).Ok? && d in f(p[i]).value;
      assert p[i] == xs[i];
    } else {
      assert f(xs[|xs| - 1]).Ok? && d in f(xs[|xs| - 1]).value;
    }
  }
}
