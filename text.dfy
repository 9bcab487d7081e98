/**
  The Python string operations the core uses: `str.strip()` with no
  argument, `str.lower()`, and the substring test `p in s`.
 */
module Text {

  /**
    The characters Python's `str.isspace` accepts, which are the ones
    `str.strip()` removes: TAB to CR, the four information separators,
    SPACE, NEL, NO-BREAK SPACE, OGHAM SPACE MARK, EN QUAD to HAIR SPACE,
    LINE and PARAGRAPH SEPARATOR, NARROW NO-BREAK SPACE, MEDIUM
    MATHEMATICAL SPACE and IDEOGRAPHIC SPACE.
   */
  predicate IsSpace(c: char) {
    || '\U{9}' <= c <= '\U{D}'
    || '\U{1C}' <= c <= '\U{20}'
    || c == '\U{85}' || c == '\U{A0}' || c == '\U{1680}'
    || '\U{2000}' <= c <= '\U{200A}'
    || c == '\U{2028}' || c == '\U{2029}' || c == '\U{202F}'
    || c == '\U{205F}' || c == '\U{3000}'
  }

  predicate AllSpace(s: string) {
    forall i :: 0 <= i < |s| ==> IsSpace(s[i])
  }

  /** True when `s` neither starts nor ends with whitespace. */
  predicate Trimmed(s: string) {
    s == [] || (!IsSpace(s[0]) && !IsSpace(s[|s| - 1]))
  }

  /** `s.lstrip()`: what is left after the leading whitespace. */
  function TrimLeft(s: string): (r: string)
    ensures |r| <= |s| && r == s[|s| - |r|..]
    ensures AllSpace(s[..|s| - |r|])
    ensures r == [] || !IsSpace(r[0])
    decreases |s|
  {
    if s != [] && IsSpace(s[0]) then TrimLeft(s[1..]) else s
  }

  /** `s.rstrip()`: what is left before the trailing whitespace. */
  function TrimRight(s: string): (r: string)
    ensures |r| <= |s| && r == s[..|r|]
    ensures AllSpace(s[|r|..])
    ensures r == [] || !IsSpace(r[|r| - 1])
    decreases |s|
  {
    if s != [] && IsSpace(s[|s| - 1]) then
      var r := TrimRight(s[..|s| - 1]);
      assert s[|r|..] == s[..|s| - 1][|r|..] + [s[|s| - 1]];
      r
    else s
  }

  /** `s.strip()`. */
  function Strip(s: string): (r: string)
    ensures Trimmed(r)
    ensures r == [] <==> AllSpace(s)
    ensures |r| <= |s|
  {
    var l := TrimLeft(s);
    var r := TrimRight(l);
    assert r == [] ==> AllSpace(s) by {
      if r == [] {
        assert l == [];
        assert s[..|s|] == s;
      }
    }
    r
  }

  lemma {:induction false} TrimLeftSkipsSpaces(pre: string, t: string)
    requires AllSpace(pre)
    ensures TrimLeft(pre + t) == TrimLeft(t)
    decreases |pre|
  {
    if pre == [] {
      assert pre + t == t;
    } else {
      assert (pre + t)[0] == pre[0] && IsSpace(pre[0]);
      assert (pre + t)[1..] == pre[1..] + t;
      assert AllSpace(pre[1..]) by {
        forall i | 0 <= i < |pre[1..]| ensures IsSpace(pre[1..][i]) { assert pre[1..][i] == pre[i + 1]; }
      }
      TrimLeftSkipsSpaces(pre[1..], t);
    }
  }

  lemma {:induction false} TrimRightSkipsSpaces(t: string, post: string)
    requires AllSpace(post)
    ensures TrimRight(t + post) == TrimRight(t)
    decreases |post|
  {
    if post == [] {
      assert t + post == t;
    } else {
      var p := post[..|post| - 1];
      assert (t + post)[|t + post| - 1] == post[|post| - 1] && IsSpace(post[|post| - 1]);
      assert (t + post)[..|t + post| - 1] == t + p;
      assert AllSpace(p) by {
        forall i | 0 <= i < |p| ensures IsSpace(p[i]) { assert p[i] == post[i]; }
      }
      TrimRightSkipsSpaces(t, p);
    }
  }

  /**
    `strip` is characterised by its result: surrounding any text that
    neither starts nor ends with whitespace by whitespace, and stripping,
    gives the text back.
   */
  lemma StripPadded(pre: string, core: string, post: string)
    requires AllSpace(pre) && AllSpace(post) && Trimmed(core)
    ensures Strip(pre + core + post) == core
  {
    if core == [] {
      assert pre + core + post == pre + post;
      assert AllSpace(pre + post) by {
        forall i | 0 <= i < |pre + post| ensures IsSpace((pre + post)[i]) {
          if i >= |pre| { assert (pre + post)[i] == post[i - |pre|]; }
        }
      }
    } else {
      assert pre + core + post == pre + (core + post);
      TrimLeftSkipsSpaces(pre, core + post);
      TrimRightSkipsSpaces(core, post);
    }
  }

  /** `s` split as a whitespace prefix of length `k`, then `core`, then a whitespace suffix. */
  predicate PaddedAt(s: string, k: int, core: string) {
    0 <= k <= |s| - |core| && s[k..k + |core|] == core && AllSpace(s[..k]) && AllSpace(s[k + |core|..])
  }

  /** Every string is its stripped form surrounded by whitespace. */
  lemma StripSplits(s: string)
    ensures exists k :: PaddedAt(s, k, Strip(s))
  {
    var l := TrimLeft(s);
    var r := TrimRight(l);
    assert Strip(s) == r;
    PaddedParts(s, l, r);
  }

  lemma PaddedParts(s: string, l: string, r: string)
    requires |l| <= |s| && l == s[|s| - |l|..] && AllSpace(s[..|s| - |l|])
    requires |r| <= |l| && r == l[..|r|] && AllSpace(l[|r|..])
    ensures PaddedAt(s, |s| - |l|, r)
  {
    var k := |s| - |l|;
    assert s[k..k + |r|] == l[..|r|];
    assert s[k + |r|..] == l[|r|..];
  }

  /**
    The case mapping `str.lower()` applies to one character, restricted to
    the characters whose lower-case form is ASCII: A to Z, and KELVIN SIGN,
    which becomes 'k'. Every other character is left as it is.
   */
  function LowerChar(c: char): char {
    if 'A' <= c <= 'Z' then ((c as int) + 32) as char
    else if c == '\U{212A}' then 'k'
    else c
  }

  /** `s.lower()`, character by character. */
  function Lower(s: string): (r: string)
    ensures |r| == |s|
    ensures forall i :: 0 <= i < |s| ==> r[i] == LowerChar(s[i])
    decreases |s|
  {
    if s == [] then [] else [LowerChar(s[0])] + Lower(s[1..])
  }

  lemma LowerIdempotent(s: string)
    ensures Lower(Lower(s)) == Lower(s)
  {
    assert forall i :: 0 <= i < |s| ==> LowerChar(LowerChar(s[i])) == LowerChar(s[i]);
  }

  /** `p` occurs in `s` starting at index `i`. */
  predicate OccursAt(s: string, p: string, i: int) {
    0 <= i <= |s| - |p| && s[i..i + |p|] == p
  }

  /** Python's `p in s`, searching from the left. */
  function Contains(s: string, p: string): (r: bool)
    ensures r ==> |p| <= |s|
    ensures p == [] ==> r
    decreases |s|
  {
    |p| <= |s| && (s[..|p|] == p || Contains(s[1..], p))
  }

  lemma {:induction false} ContainsIff(s: string, p: string)
    ensures Contains(s, p) <==> exists i :: OccursAt(s, p, i)
    decreases |s|
  {
    if |p| <= |s| {
      if s[..|p|] == p {
        assert OccursAt(s, p, 0);
      } else {
        ContainsIff(s[1..], p);
        if Contains(s[1..], p) {
          var i :| OccursAt(s[1..], p, i);
          assert s[i + 1..i + 1 + |p|] == s[1..][i..i + |p|];
          assert OccursAt(s, p, i + 1);
        } else {
          forall i | 0 < i <= |s| - |p| ensures !OccursAt(s, p, i) {
            assert s[1..][i - 1..i - 1 + |p|] == s[i..i + |p|];
            assert !OccursAt(s[1..], p, i - 1);
          }
        }
      }
    }
  }
}
