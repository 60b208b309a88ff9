/**
 * The document tree the cleanup engine works on: text nodes and elements
 * with a tag name, an attribute map and an ordered list of children, as an
 * XML parser hands them over. Parsing and serialisation are not modelled.
 */
module Markup {

  datatype Option<T> = None | Some(value: T)

  datatype Node =
    | Text(s: string)
    | Elem(name: string, attrs: map<string, string>, children: seq<Node>)

  /** The characters Python's `str.isspace()` accepts: those `str.strip()`
      removes and the regular expression class `\s` matches. */
  predicate IsWhitespace(c: char) {
    ('\t' <= c <= '\r') || ('\U{1C}' <= c <= ' ') || c == '\U{85}' || c == '\U{A0}'
    || c == '\U{1680}' || ('\U{2000}' <= c <= '\U{200A}') || c == '\U{2028}' || c == '\U{2029}'
    || c == '\U{202F}' || c == '\U{205F}' || c == '\U{3000}'
  }

  /** A string whose stripped form is empty. */
  predicate IsBlank(s: string) {
    forall k :: 0 <= k < |s| ==> IsWhitespace(s[k])
  }

  /** `s` without its leading whitespace. */
  function StripLeft(s: string): (r: string)
    ensures |r| <= |s| && r == s[|s| - |r|..]
    ensures IsBlank(s[..|s| - |r|])
    ensures r == [] || !IsWhitespace(r[0])
  {
    if s != [] && IsWhitespace(s[0]) then
      var r := StripLeft(s[1..]);
      StripLeftStep(s, r);
      r
    else s
  }

  lemma StripLeftStep(s: string, r: string)
    requires s != [] && IsWhitespace(s[0]) && |r| <= |s| - 1
    requires r == s[1..][|s| - 1 - |r|..] && IsBlank(s[1..][..|s| - 1 - |r|])
    ensures r == s[|s| - |r|..] && IsBlank(s[..|s| - |r|])
  {
    var k := |s| - |r|;
    assert s[1..][k - 1..] == s[k..];
    forall j | 0 <= j < k ensures IsWhitespace(s[..k][j]) {
      if j > 0 {
        assert s[..k][j] == s[1..][..k - 1][j - 1];
      }
    }
  }

  /** `s` without its trailing whitespace. */
  function StripRight(s: string): (r: string)
    ensures |r| <= |s| && r == s[..|r|]
    ensures IsBlank(s[|r|..])
    ensures r == [] || !IsWhitespace(r[|r| - 1])
  {
    if s != [] && IsWhitespace(s[|s| - 1]) then
      var r := StripRight(s[..|s| - 1]);
      StripRightStep(s, r);
      r
    else s
  }

  lemma StripRightStep(s: string, r: string)
    requires s != [] && IsWhitespace(s[|s| - 1]) && |r| <= |s| - 1
    requires r == s[..|s| - 1][..|r|] && IsBlank(s[..|s| - 1][|r|..])
    ensures r == s[..|r|] && IsBlank(s[|r|..])
  {
    assert s[..|s| - 1][..|r|] == s[..|r|];
    forall j | |r| <= j < |s| ensures IsWhitespace(s[j]) {
      if j < |s| - 1 {
        assert s[j] == s[..|s| - 1][|r|..][j - |r|];
      }
    }
  }

  /** Python's `str.strip()` over the whitespace set above. */
  function Strip(s: string): string {
    StripRight(StripLeft(s))
  }

  /** A string strips to nothing exactly when it is all whitespace. */
  lemma StripEmptyIffBlank(s: string)
    ensures Strip(s) == [] <==> IsBlank(s)
  {
    var l := StripLeft(s);
    if Strip(s) == [] {
      assert IsBlank(l[0..]);
      forall k | 0 <= k < |s| ensures IsWhitespace(s[k]) {
        assert s[k] == s[..|s| - |l|][k];
      }
    }
  }

  /** A string that starts with a non-whitespace character keeps, after
      stripping, every character up to and including any later
      non-whitespace character. */
  lemma StripKeepsUpTo(s: string, j: nat)
    requires j < |s| && !IsWhitespace(s[0]) && !IsWhitespace(s[j])
    ensures j < |Strip(s)| && Strip(s)[..j + 1] == s[..j + 1]
  {
    assert StripLeft(s) == s;
    var r := StripRight(s);
    assert r[..j + 1] == s[..|r|][..j + 1];
  }

  /** What `get_text()` returns: all descendant text, in document order. */
  function TextOf(n: Node): string {
    match n
    case Text(s) => s
    case Elem(_, _, children) => TextOfSeq(children)
  }

  function TextOfSeq(ns: seq<Node>): string {
    if ns == [] then "" else TextOf(ns[0]) + TextOfSeq(ns[1..])
  }

  lemma {:induction false} TextOfSeqConcat(a: seq<Node>, b: seq<Node>)
    ensures TextOfSeq(a + b) == TextOfSeq(a) + TextOfSeq(b)
  {
    if a == [] {
      assert a + b == b;
    } else {
      assert (a + b)[1..] == a[1..] + b;
      TextOfSeqConcat(a[1..], b);
    }
  }

  lemma SplitTwo<T>(s: seq<T>, i: nat)
    requires i <= |s|
    ensures s == s[..i] + s[i..]
  {}

  lemma TextOfSeqOne(x: Node)
    ensures TextOfSeq([x]) == TextOf(x)
  {
    assert [x][1..] == [];
  }

  lemma SplitThree<T>(s: seq<T>, i: nat, j: nat)
    requires i <= j <= |s|
    ensures s == s[..i] + s[i..j] + s[j..]
  {}

  /** Number of nodes in a tree; it bounds the recursion of the whole-tree
      cleanup. */
  function Size(n: Node): nat {
    match n
    case Text(_) => 1
    case Elem(_, _, children) => 1 + SizeSeq(children)
  }

  function SizeSeq(ns: seq<Node>): nat {
    if ns == [] then 0 else 1 + Size(ns[0]) + SizeSeq(ns[1..])
  }

  lemma {:induction false} SizeSeqConcat(a: seq<Node>, b: seq<Node>)
    ensures SizeSeq(a + b) == SizeSeq(a) + SizeSeq(b)
  {
    if a == [] {
      assert a + b == b;
    } else {
      assert (a + b)[1..] == a[1..] + b;
      SizeSeqConcat(a[1..], b);
    }
  }

  /** Children of the first `body` element in document order, which is the
      element `soup.find('body')` returns. */
  function FindBody(n: Node): Option<seq<Node>> {
    match n
    case Text(_) => None
    case Elem(name, _, children) =>
      if name == "body" then Some(children) else FindBodyIn(children)
  }

  function FindBodyIn(ns: seq<Node>): Option<seq<Node>> {
    if ns == [] then None
    else if FindBody(ns[0]).Some? then FindBody(ns[0])
    else FindBodyIn(ns[1..])
  }

  /** The tree with the children of that first `body` element replaced. */
  function ReplaceBody(n: Node, kids: seq<Node>): Node {
    match n
    case Text(_) => n
    case Elem(name, attrs, children) =>
      if name == "body" then Elem(name, attrs, kids)
      else Elem(name, attrs, ReplaceBodyIn(children, kids))
  }

  function ReplaceBodyIn(ns: seq<Node>, kids: seq<Node>): seq<Node> {
    if ns == [] then []
    else if FindBody(ns[0]).Some? then [ReplaceBody(ns[0], kids)] + ns[1..]
    else [ns[0]] + ReplaceBodyIn(ns[1..], kids)
  }

  /** Replacing the body's children is seen by the next lookup, and a tree
      without a body is left alone. */
  lemma {:induction false} FindAfterReplace(n: Node, kids: seq<Node>)
    ensures FindBody(n).Some? ==> FindBody(ReplaceBody(n, kids)) == Some(kids)
    ensures FindBody(n).None? ==> ReplaceBody(n, kids) == n
  {
    match n
    case Text(_) =>
    case Elem(name, attrs, children) =>
      if name != "body" {
        FindAfterReplaceIn(children, kids);
      }
  }

  lemma {:induction false} FindAfterReplaceIn(ns: seq<Node>, kids: seq<Node>)
    ensures FindBodyIn(ns).Some? ==> FindBodyIn(ReplaceBodyIn(ns, kids)) == Some(kids)
    ensures FindBodyIn(ns).None? ==> ReplaceBodyIn(ns, kids) == ns
  {
    if ns != [] {
      FindAfterReplace(ns[0], kids);
      FindAfterReplaceIn(ns[1..], kids);
      if FindBody(ns[0]).Some? {
        assert ReplaceBodyIn(ns, kids)[0] == ReplaceBody(ns[0], kids);
      } else {
        assert ReplaceBodyIn(ns, kids)[1..] == ReplaceBodyIn(ns[1..], kids);
        assert ns == [ns[0]] + ns[1..];
      }
    }
  }

  /** A string that starts and ends with non-whitespace is its own strip. */
  lemma StripUnchanged(s: string)
    requires s != [] && !IsWhitespace(s[0]) && !IsWhitespace(s[|s| - 1])
    ensures Strip(s) == s
  {
    assert StripLeft(s) == s;
  }

  /** Body children with the same text leave the document text unchanged. */
  lemma {:induction false} ReplaceBodyText(n: Node, kids: seq<Node>)
    requires FindBody(n).Some? && TextOfSeq(kids) == TextOfSeq(FindBody(n).value)
    ensures TextOf(ReplaceBody(n, kids)) == TextOf(n)
  {
    match n
    case Text(_) =>
    case Elem(name, attrs, children) =>
      if name != "body" {
        ReplaceBodyInText(children, kids);
      }
  }

  lemma {:induction false} ReplaceBodyInText(ns: seq<Node>, kids: seq<Node>)
    requires FindBodyIn(ns).Some? && TextOfSeq(kids) == TextOfSeq(FindBodyIn(ns).value)
    ensures TextOfSeq(ReplaceBodyIn(ns, kids)) == TextOfSeq(ns)
  {
    var r := ReplaceBodyIn(ns, kids);
    if FindBody(ns[0]).Some? {
      ReplaceBodyText(ns[0], kids);
      assert r[0] == ReplaceBody(ns[0], kids) && r[1..] == ns[1..];
    } else {
      ReplaceBodyInText(ns[1..], kids);
      assert r[0] == ns[0] && r[1..] == ReplaceBodyIn(ns[1..], kids);
    }
  }

  /** Stripping twice is stripping once. */
  lemma StripIdempotent(s: string)
    ensures Strip(Strip(s)) == Strip(s)
  {
    var r := Strip(s);
    if r != [] {
      var l := StripLeft(s);
      assert r == l[..|r|] && l[0] == r[0];
      StripUnchanged(r);
    }
  }
}
