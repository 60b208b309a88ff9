/**
 * The span merger over a whole document. The source scans every span of
 * the document in document order; a merge only touches the siblings of the
 * span it starts at and the children it moves into that span, so the same
 * result is obtained by merging each element's children and then cleaning
 * the resulting children, top-down.
 */
module SpanTree {
  import opened Markup
  import opened SpanMerge

  // ----- the merge never grows the tree -----

  lemma {:induction false} GatherSize(ns: seq<Node>, mode: SeparatorMode)
    ensures SizeSeq(Gather(ns, mode)) <= SizeSeq(ns)
    ensures ns != [] && ns[0].Elem? ==> SizeSeq(Gather(ns, mode)) + 2 <= SizeSeq(ns)
  {
    if ns != [] {
      GatherSize(ns[1..], mode);
      SizeSeqConcat(Piece(ns[0], mode), Gather(ns[1..], mode));
      match ns[0]
      case Text(s) =>
        assert SizeSeq([Text(SeparatorText(mode, s))]) == 2;
      case Elem(_, _, _) =>
    }
  }

  lemma MergeRunSize(kids: seq<Node>, i: nat, r: nat, mode: SeparatorMode)
    requires i < r < |kids| && kids[i].Elem?
    ensures SizeSeq(MergeRun(kids, i, r, mode)) <= SizeSeq(kids)
  {
    var res := MergeRun(kids, i, r, mode);
    var region := kids[i..r + 1];
    assert kids == kids[..i] + region + kids[r + 1..];
    SizeSeqConcat(kids[..i] + region, kids[r + 1..]);
    SizeSeqConcat(kids[..i], region);
    assert res == kids[..i] + [res[i]] + kids[r + 1..];
    SizeSeqConcat(kids[..i] + [res[i]], kids[r + 1..]);
    SizeSeqConcat(kids[..i], [res[i]]);
    assert SizeSeq([res[i]]) == 2 + SizeSeq(Gather(region, mode));
    GatherSize(region, mode);
  }

  lemma {:induction false} MergePassSize(kids: seq<Node>, i: nat, mode: SeparatorMode)
    requires i <= |kids|
    ensures SizeSeq(MergePass(kids, i, mode)) <= SizeSeq(kids)
    decreases SpanCount(kids), |kids| - i
  {
    if i < |kids| {
      var (next, j) := PassStep(kids, i, mode);
      PassStepFacts(kids, i, mode);
      MergePassSize(next, j, mode);
      if j == i {
        MergeRunSize(kids, i, RunLast(kids, i, kids[i].attrs["style"]), mode);
      }
    }
  }

  // ----- the whole-document merge -----

  /** `merge_consecutive_spans(soup)`: every element's children merged,
      top-down. */
  function CleanTree(n: Node, mode: SeparatorMode): Node
    decreases Size(n)
  {
    match n
    case Text(_) => n
    case Elem(name, attrs, children) =>
      MergePassSize(children, 0, mode);
      Elem(name, attrs, CleanSeq(MergeSpans(children, mode), mode))
  }

  function CleanSeq(ns: seq<Node>, mode: SeparatorMode): seq<Node>
    decreases SizeSeq(ns)
  {
    if ns == [] then [] else [CleanTree(ns[0], mode)] + CleanSeq(ns[1..], mode)
  }

  /** A node as the merger sees it: text with its characters, a span with
      a style attribute and that style, or some other element. */
  predicate SameShape(a: Node, b: Node) {
    match a
    case Text(s) => b == a
    case Elem(_, _, _) =>
      b.Elem? && IsStyledSpan(b) == IsStyledSpan(a)
      && (IsStyledSpan(a) ==> b.attrs["style"] == a.attrs["style"])
  }

  predicate SameShapes(a: seq<Node>, b: seq<Node>) {
    |a| == |b| && forall k :: 0 <= k < |a| ==> SameShape(a[k], b[k])
  }

  lemma {:induction false} CleanShapes(n: Node, ns: seq<Node>, mode: SeparatorMode)
    ensures SameShape(n, CleanTree(n, mode))
    ensures SameShapes(ns, CleanSeq(ns, mode))
    decreases SizeSeq(ns)
  {
    if ns != [] {
      CleanShapes(ns[0], ns[1..], mode);
      assert CleanSeq(ns, mode)[1..] == CleanSeq(ns[1..], mode);
    }
  }

  /** Runs only look at the shape of the siblings. */
  lemma {:induction false} SameShapeRunLast(a: seq<Node>, b: seq<Node>, i: nat, style: string)
    requires SameShapes(a, b) && i < |a|
    ensures RunLast(a, i, style) == RunLast(b, i, style)
    decreases |a| - i
  {
    var m := NextNonBlank(a, i + 1);
    NextNonBlankIs(b, i + 1, m);
    if m < |a| && Continues(a[m], style) {
      SameShapeRunLast(a, b, m, style);
    }
  }

  lemma SameShapeMergeable(a: seq<Node>, b: seq<Node>)
    requires SameShapes(a, b)
    ensures Mergeable(a) <==> Mergeable(b)
  {
    forall p | 0 <= p < |a| ensures HasRunAt(a, p) <==> HasRunAt(b, p) {
      if IsStyledSpan(a[p]) {
        SameShapeRunLast(a, b, p, a[p].attrs["style"]);
      }
    }
  }

  /** No sibling list anywhere in the tree holds a run of two or more spans. */
  predicate Tidy(n: Node) {
    match n
    case Text(_) => true
    case Elem(_, _, children) => !Mergeable(children) && forall k :: 0 <= k < |children| ==> Tidy(children[k])
  }

  /** The whole-document merge leaves no run anywhere. */
  lemma {:induction false} CleanTreeTidy(n: Node, mode: SeparatorMode)
    ensures Tidy(CleanTree(n, mode))
    decreases Size(n), 1
  {
    match n
    case Text(_) =>
    case Elem(name, attrs, children) =>
      var merged := MergeSpans(children, mode);
      MergePassSize(children, 0, mode);
      MergeSpansSpec(children, mode);
      CleanShapes(n, merged, mode);
      SameShapeMergeable(merged, CleanSeq(merged, mode));
      CleanSeqTidy(merged, mode);
  }

  lemma {:induction false} CleanSeqTidy(ns: seq<Node>, mode: SeparatorMode)
    ensures forall k :: 0 <= k < |CleanSeq(ns, mode)| ==> Tidy(CleanSeq(ns, mode)[k])
    decreases SizeSeq(ns), 0
  {
    if ns != [] {
      CleanTreeTidy(ns[0], mode);
      CleanSeqTidy(ns[1..], mode);
      assert CleanSeq(ns, mode) == [CleanTree(ns[0], mode)] + CleanSeq(ns[1..], mode);
    }
  }

  /** A tidy tree is left as it is. */
  lemma {:induction false} TidyClean(n: Node, mode: SeparatorMode)
    requires Tidy(n)
    ensures CleanTree(n, mode) == n
    decreases Size(n), 1
  {
    match n
    case Text(_) =>
    case Elem(name, attrs, children) =>
      MergePassNoRunIdentity(children, 0, mode);
      TidySeqClean(children, mode);
  }

  lemma {:induction false} TidySeqClean(ns: seq<Node>, mode: SeparatorMode)
    requires forall k :: 0 <= k < |ns| ==> Tidy(ns[k])
    ensures CleanSeq(ns, mode) == ns
    decreases SizeSeq(ns), 0
  {
    if ns != [] {
      TidyClean(ns[0], mode);
      TidySeqClean(ns[1..], mode);
    }
  }

  /** Merging is idempotent: a second run over the document changes nothing. */
  lemma CleanTreeIdempotent(n: Node, mode: SeparatorMode)
    ensures CleanTree(CleanTree(n, mode), mode) == CleanTree(n, mode)
  {
    CleanTreeTidy(n, mode);
    TidyClean(CleanTree(n, mode), mode);
  }

  /** The document-level `changes_made`: the merge changes the document
      exactly when some element holds a run. */
  lemma CleanTreeChanges(n: Node, mode: SeparatorMode)
    ensures CleanTree(n, mode) == n <==> Tidy(n)
  {
    CleanTreeTidy(n, mode);
    if Tidy(n) {
      TidyClean(n, mode);
    }
  }

  // ----- edits that keep a tree tidy -----

  /** Runs only look forward: two lists that agree from position `p` of
      `b` on, with `a` shifted by `d`, have the same run there. */
  lemma {:induction false} RunLastShift(a: seq<Node>, b: seq<Node>, d: nat, p: nat, style: string)
    requires p < |b| && |a| == d + |b|
    requires forall k :: p <= k < |b| ==> a[d + k] == b[k]
    ensures RunLast(a, d + p, style) == d + RunLast(b, p, style)
    decreases |b| - p
  {
    var m := NextNonBlank(b, p + 1);
    forall k | d + p + 1 <= k < d + m ensures IsBlankText(a[k]) {
      assert a[k] == b[k - d];
    }
    if m < |b| {
      assert a[d + m] == b[m];
    }
    NextNonBlankIs(a, d + p + 1, d + m);
    if m < |b| && Continues(b[m], style) {
      RunLastShift(a, b, d, m, style);
    }
  }

  lemma HasRunShift(a: seq<Node>, b: seq<Node>, d: nat, p: nat)
    requires p < |b| && |a| == d + |b|
    requires forall k :: p <= k < |b| ==> a[d + k] == b[k]
    ensures HasRunAt(a, d + p) == HasRunAt(b, p)
  {
    if IsStyledSpan(b[p]) {
      RunLastShift(a, b, d, p, b[p].attrs["style"]);
    }
  }

  /** An element that is not a styled span, put after leading text, starts
      no run and joins none. */
  lemma InsertKeepsNoRun(kids: seq<Node>, i: nat, x: Node)
    requires i <= |kids| && !Mergeable(kids)
    requires forall k :: 0 <= k < i ==> kids[k].Text?
    requires x.Elem? && !IsStyledSpan(x)
    ensures !Mergeable(kids[..i] + [x] + kids[i..])
  {
    var res := kids[..i] + [x] + kids[i..];
    forall k | 0 <= k <= i ensures !IsStyledSpan(res[k]) {
      if k < i {
        assert res[k] == kids[k];
      }
    }
    forall k | i <= k < |kids| ensures res[1 + k] == kids[k] {
      assert res[1 + k] == kids[i..][k - i];
    }
    ShiftedKeepsNoRun(kids, res, i);
  }

  /** A list that starts with `i + 1` nodes that are no styled spans and
      then goes on as `kids` from position `i` holds no run when `kids`
      holds none. */
  lemma ShiftedKeepsNoRun(kids: seq<Node>, res: seq<Node>, i: nat)
    requires i <= |kids| && |res| == |kids| + 1 && !Mergeable(kids)
    requires forall k :: 0 <= k <= i ==> !IsStyledSpan(res[k])
    requires forall k :: i <= k < |kids| ==> res[1 + k] == kids[k]
    ensures !Mergeable(res)
  {
    forall q | i < q < |res| ensures !HasRunAt(res, q) {
      HasRunShift(res, kids, 1, q - 1);
    }
  }

  /** The body of a tidy tree is tidy. */
  lemma {:induction false} TidyBody(n: Node)
    requires Tidy(n) && FindBody(n).Some?
    ensures !Mergeable(FindBody(n).value)
    ensures forall k :: 0 <= k < |FindBody(n).value| ==> Tidy(FindBody(n).value[k])
    decreases Size(n), 1
  {
    match n
    case Elem(name, attrs, children) =>
      if name != "body" {
        TidyBodyIn(children);
      }
  }

  lemma {:induction false} TidyBodyIn(ns: seq<Node>)
    requires FindBodyIn(ns).Some? && forall k :: 0 <= k < |ns| ==> Tidy(ns[k])
    ensures !Mergeable(FindBodyIn(ns).value)
    ensures forall k :: 0 <= k < |FindBodyIn(ns).value| ==> Tidy(FindBodyIn(ns).value[k])
    decreases SizeSeq(ns), 0
  {
    if FindBody(ns[0]).Some? {
      TidyBody(ns[0]);
    } else {
      TidyBodyIn(ns[1..]);
    }
  }

  /** Giving the body of a tidy tree children that are tidy and hold no run
      leaves the tree tidy. */
  lemma {:induction false} TidyReplaceBody(n: Node, kids: seq<Node>)
    requires Tidy(n) && !Mergeable(kids) && forall k :: 0 <= k < |kids| ==> Tidy(kids[k])
    ensures Tidy(ReplaceBody(n, kids))
    decreases Size(n), 1
  {
    match n
    case Text(_) =>
    case Elem(name, attrs, children) =>
      if name != "body" {
        TidyReplaceBodyIn(children, kids);
        SameShapeMergeable(children, ReplaceBodyIn(children, kids));
      }
  }

  lemma {:induction false} TidyReplaceBodyIn(ns: seq<Node>, kids: seq<Node>)
    requires forall k :: 0 <= k < |ns| ==> Tidy(ns[k])
    requires !Mergeable(kids) && forall k :: 0 <= k < |kids| ==> Tidy(kids[k])
    ensures SameShapes(ns, ReplaceBodyIn(ns, kids))
    ensures forall k :: 0 <= k < |ns| ==> Tidy(ReplaceBodyIn(ns, kids)[k])
    decreases SizeSeq(ns), 0
  {
    if ns != [] {
      var rest := ReplaceBodyIn(ns[1..], kids);
      if FindBody(ns[0]).Some? {
        TidyReplaceBody(ns[0], kids);
        assert ReplaceBodyIn(ns, kids) == [ReplaceBody(ns[0], kids)] + ns[1..];
      } else {
        TidyReplaceBodyIn(ns[1..], kids);
        assert ReplaceBodyIn(ns, kids) == [ns[0]] + rest;
      }
    }
  }

  /** The document text survives the merge up to line breaks in separators
      turned into spaces, and exactly when separators are copied verbatim. */
  lemma {:induction false} CleanTreeText(n: Node, mode: SeparatorMode)
    ensures SameUpToLineBreaks(TextOf(n), TextOf(CleanTree(n, mode)))
    ensures mode == Verbatim ==> TextOf(CleanTree(n, mode)) == TextOf(n)
    decreases Size(n), 1
  {
    match n
    case Text(_) =>
    case Elem(name, attrs, children) =>
      var merged := MergeSpans(children, mode);
      MergePassSize(children, 0, mode);
      MergePassText(children, 0, mode);
      CleanSeqText(merged, mode);
      SameUpToLineBreaksTrans(TextOfSeq(children), TextOfSeq(merged), TextOfSeq(CleanSeq(merged, mode)));
  }

  lemma {:induction false} CleanSeqText(ns: seq<Node>, mode: SeparatorMode)
    ensures SameUpToLineBreaks(TextOfSeq(ns), TextOfSeq(CleanSeq(ns, mode)))
    ensures mode == Verbatim ==> TextOfSeq(CleanSeq(ns, mode)) == TextOfSeq(ns)
    decreases SizeSeq(ns), 0
  {
    if ns != [] {
      CleanTreeText(ns[0], mode);
      CleanSeqText(ns[1..], mode);
      var c := CleanSeq(ns, mode);
      assert c[0] == CleanTree(ns[0], mode) && c[1..] == CleanSeq(ns[1..], mode);
      SameUpToLineBreaksConcat(TextOf(ns[0]), TextOf(c[0]), TextOfSeq(ns[1..]), TextOfSeq(c[1..]));
    }
  }
}
