/**
 * The span merger: a styled span starts a run that extends over
 * whitespace-only text siblings and over sibling spans carrying exactly the
 * same `style` string; a run of two or more spans is collapsed into its
 * first span. Run members are identified by their position in the sibling
 * list (the source compares nodes structurally, see the as-written module).
 */
module SpanMerge {
  import opened Markup

  /** How the whitespace between two run members is copied into the merged
      span: line breaks turned into spaces (calibre-plugin/cleanup.py) or
      copied as they are (epub_cleanup.py). */
  datatype SeparatorMode = Normalize | Verbatim

  /** Whitespace text between run members. An empty text node is not one:
      it is falsy in the source's `while next_sibling:` test, so it ends the
      run. */
  predicate IsBlankText(n: Node) {
    n.Text? && n.s != "" && IsBlank(n.s)
  }

  predicate IsSpan(n: Node) {
    n.Elem? && n.name == "span"
  }

  predicate IsStyledSpan(n: Node) {
    IsSpan(n) && "style" in n.attrs
  }

  /** A node that continues a run whose first span has style `style`. */
  predicate Continues(n: Node, style: string) {
    IsStyledSpan(n) && n.attrs["style"] == style
  }

  /** Number of `span` elements among the siblings. */
  function SpanCount(ns: seq<Node>): nat {
    if ns == [] then 0 else (if IsSpan(ns[0]) then 1 else 0) + SpanCount(ns[1..])
  }

  lemma {:induction false} SpanCountConcat(a: seq<Node>, b: seq<Node>)
    ensures SpanCount(a + b) == SpanCount(a) + SpanCount(b)
  {
    if a == [] {
      assert a + b == b;
    } else {
      assert (a + b)[1..] == a[1..] + b;
      SpanCountConcat(a[1..], b);
    }
  }

  /** The first position at or after `j` that is not whitespace-only text. */
  function NextNonBlank(kids: seq<Node>, j: nat): (m: nat)
    requires j <= |kids|
    decreases |kids| - j
    ensures j <= m <= |kids|
    ensures forall k :: j <= k < m ==> IsBlankText(kids[k])
    ensures m < |kids| ==> !IsBlankText(kids[m])
  {
    if j == |kids| || !IsBlankText(kids[j]) then j else NextNonBlank(kids, j + 1)
  }

  /** The postcondition of NextNonBlank pins its result down. */
  lemma NextNonBlankIs(kids: seq<Node>, j: nat, m: nat)
    requires j <= m <= |kids|
    requires forall k :: j <= k < m ==> IsBlankText(kids[k])
    requires m < |kids| ==> !IsBlankText(kids[m])
    ensures NextNonBlank(kids, j) == m
  {
  }

  /** The run from position `r` has ended: the next node that is not
      whitespace does not continue it. */
  predicate Stops(kids: seq<Node>, r: nat, style: string)
    requires r < |kids|
  {
    var m := NextNonBlank(kids, r + 1);
    m == |kids| || !Continues(kids[m], style)
  }

  /** Position of the last span of the run that starts at `i`: every node
      after `i` up to it is whitespace text or a span with the same style,
      and the next node that is not whitespace text stops the run. */
  function RunLast(kids: seq<Node>, i: nat, style: string): (r: nat)
    requires i < |kids|
    decreases |kids| - i
    ensures i <= r < |kids|
    ensures forall k :: i < k <= r ==> IsBlankText(kids[k]) || Continues(kids[k], style)
    ensures r > i ==> Continues(kids[r], style)
    ensures Stops(kids, r, style)
  {
    var m := NextNonBlank(kids, i + 1);
    if m < |kids| && Continues(kids[m], style) then RunLast(kids, m, style) else i
  }

  /** A run of two or more spans starts at `i`. */
  predicate HasRunAt(kids: seq<Node>, i: nat) {
    i < |kids| && IsStyledSpan(kids[i]) && RunLast(kids, i, kids[i].attrs["style"]) > i
  }

  /** No run of two or more spans starts before position `i`. */
  predicate NoRunBefore(kids: seq<Node>, i: nat) {
    forall p :: 0 <= p < i ==> !HasRunAt(kids, p)
  }

  /** Some run of two or more spans exists among the siblings. */
  predicate Mergeable(kids: seq<Node>) {
    exists i :: 0 <= i < |kids| && HasRunAt(kids, i)
  }

  predicate IsLineBreak(c: char) {
    c == '\n' || c == '\r'
  }

  /** `s.replace('\n', ' ').replace('\r', ' ')` */
  function LineBreaksToSpaces(s: string): (r: string)
    ensures |r| == |s|
    ensures forall k :: 0 <= k < |s| ==> r[k] == if IsLineBreak(s[k]) then ' ' else s[k]
  {
    seq(|s|, k requires 0 <= k < |s| => if IsLineBreak(s[k]) then ' ' else s[k])
  }

  function SeparatorText(mode: SeparatorMode, s: string): string {
    match mode
    case Normalize => LineBreaksToSpaces(s)
    case Verbatim => s
  }

  /** What one node of a run region contributes to the merged span: a span
      gives its children, a separator gives its (possibly normalised) text. */
  function Piece(n: Node, mode: SeparatorMode): seq<Node> {
    match n
    case Text(s) => [Text(SeparatorText(mode, s))]
    case Elem(_, _, children) => children
  }

  /** The merged content of a run region, in order. */
  function Gather(ns: seq<Node>, mode: SeparatorMode): seq<Node> {
    if ns == [] then [] else Piece(ns[0], mode) + Gather(ns[1..], mode)
  }

  lemma {:induction false} GatherConcat(a: seq<Node>, b: seq<Node>, mode: SeparatorMode)
    ensures Gather(a + b, mode) == Gather(a, mode) + Gather(b, mode)
  {
    if a == [] {
      assert a + b == b;
    } else {
      assert (a + b)[1..] == a[1..] + b;
      GatherConcat(a[1..], b, mode);
    }
  }

  /** Collapses the run `kids[i..r+1]` into its first span. The spans after
      the first and the whitespace before each of them disappear; the first
      span keeps its place, name and attributes; the siblings around the run
      are untouched. */
  function MergeRun(kids: seq<Node>, i: nat, r: nat, mode: SeparatorMode): (res: seq<Node>)
    requires i < r < |kids| && kids[i].Elem?
    ensures |res| == |kids| - (r - i)
    ensures res[..i] == kids[..i] && res[i + 1..] == kids[r + 1..]
    ensures res[i].Elem? && res[i].name == kids[i].name && res[i].attrs == kids[i].attrs
    ensures res[i].children == Gather(kids[i..r + 1], mode)
  {
    kids[..i] + [kids[i].(children := Gather(kids[i..r + 1], mode))] + kids[r + 1..]
  }

  lemma SpanCountAround(a: seq<Node>, x: Node, b: seq<Node>)
    ensures SpanCount(a + [x] + b) == SpanCount(a) + (if IsSpan(x) then 1 else 0) + SpanCount(b)
  {
    SpanCountConcat(a + [x], b);
    SpanCountConcat(a, [x]);
  }

  lemma FirstMiddleLast<T>(s: seq<T>)
    requires |s| >= 2
    ensures s == [s[0]] + s[1..|s| - 1] + [s[|s| - 1]]
  {}

  lemma SpanCountOne(x: Node)
    ensures SpanCount([x]) == if IsSpan(x) then 1 else 0
  {
    assert [x][1..] == [];
  }

  lemma SpanCountEnds(s: seq<Node>)
    requires |s| >= 2 && IsSpan(s[0]) && IsSpan(s[|s| - 1])
    ensures SpanCount(s) >= 2
  {
    FirstMiddleLast(s);
    SpanCountConcat([s[0]] + s[1..|s| - 1], [s[|s| - 1]]);
    SpanCountConcat([s[0]], s[1..|s| - 1]);
    SpanCountOne(s[0]);
    SpanCountOne(s[|s| - 1]);
  }

  lemma SpanCountSplit(kids: seq<Node>, i: nat, r: nat)
    requires i <= r < |kids|
    ensures SpanCount(kids) == SpanCount(kids[..i]) + SpanCount(kids[i..r + 1]) + SpanCount(kids[r + 1..])
  {
    var a, b, c := kids[..i], kids[i..r + 1], kids[r + 1..];
    SplitThree(kids, i, r + 1);
    SpanCountConcat(a + b, c);
    SpanCountConcat(a, b);
  }

  /** Each merge lowers the number of spans by the run length minus one. */
  lemma MergeRunSpanCount(kids: seq<Node>, i: nat, r: nat, mode: SeparatorMode)
    requires i < r < |kids| && IsSpan(kids[i]) && IsSpan(kids[r])
    ensures SpanCount(kids[i..r + 1]) >= 2
    ensures SpanCount(MergeRun(kids, i, r, mode)) == SpanCount(kids) - (SpanCount(kids[i..r + 1]) - 1)
  {
    var res := MergeRun(kids, i, r, mode);
    SpanCountSplit(kids, i, r);
    assert res == kids[..i] + [res[i]] + kids[r + 1..];
    SpanCountAround(kids[..i], res[i], kids[r + 1..]);
    SpanCountEnds(kids[i..r + 1]);
  }

  /** The merge pass of the source: scan the siblings from `i`; at a styled
      span that starts a run of two or more, merge the run and look at the
      same position again, otherwise move on. */
  function MergePass(kids: seq<Node>, i: nat, mode: SeparatorMode): seq<Node>
    requires i <= |kids|
    decreases SpanCount(kids), |kids| - i
  {
    if i == |kids| then kids
    else if !IsStyledSpan(kids[i]) then MergePass(kids, i + 1, mode)
    else
      var r := RunLast(kids, i, kids[i].attrs["style"]);
      if r == i then MergePass(kids, i + 1, mode)
      else
        MergeRunSpanCount(kids, i, r, mode);
        MergePass(MergeRun(kids, i, r, mode), i, mode)
  }

  /** One step of the pass at position `i`: the list with the run that
      starts there merged, looked at again at `i`, or the same list one
      position on. */
  function PassStep(kids: seq<Node>, i: nat, mode: SeparatorMode): (seq<Node>, nat)
    requires i < |kids|
  {
    if HasRunAt(kids, i) then (MergeRun(kids, i, RunLast(kids, i, kids[i].attrs["style"]), mode), i)
    else (kids, i + 1)
  }

  lemma PassStepFacts(kids: seq<Node>, i: nat, mode: SeparatorMode)
    requires i < |kids|
    ensures var (next, j) := PassStep(kids, i, mode);
      j <= |next| && MergePass(kids, i, mode) == MergePass(next, j, mode)
      && (j == i + 1 ==> next == kids && !HasRunAt(kids, i))
      && (j == i || j == i + 1)
      && (j == i ==> HasRunAt(kids, i) && SpanCount(next) < SpanCount(kids))
  {
    if HasRunAt(kids, i) {
      var r := RunLast(kids, i, kids[i].attrs["style"]);
      MergeRunSpanCount(kids, i, r, mode);
      assert MergePass(kids, i, mode) == MergePass(MergeRun(kids, i, r, mode), i, mode);
    } else {
      assert MergePass(kids, i, mode) == MergePass(kids, i + 1, mode);
    }
  }

  /** The whole merge of one sibling list. */
  function MergeSpans(kids: seq<Node>, mode: SeparatorMode): seq<Node> {
    MergePass(kids, 0, mode)
  }

  // ----- which positions start a run -----

  /** Runs that start before position `i` only look at nodes up to and
      including `i`, as long as `i` holds a span; so two lists that agree
      before `i` and hold spans of the same name and attributes at `i` have
      the same runs before `i`. */
  lemma SamePrefixSameRuns(a: seq<Node>, b: seq<Node>, i: nat, p: nat)
    requires p < i < |a| && i < |b| && a[..i] == b[..i]
    requires IsSpan(a[i]) && IsSpan(b[i]) && a[i].attrs == b[i].attrs
    ensures HasRunAt(a, p) == HasRunAt(b, p)
  {
    assert a[p] == a[..i][p] && b[p] == b[..i][p];
    if IsStyledSpan(a[p]) {
      var st := a[p].attrs["style"];
      var m := NextNonBlank(a, p + 1);
      assert m <= i;
      forall k | p + 1 <= k < m ensures IsBlankText(b[k]) {
        assert a[k] == a[..i][k] && b[k] == b[..i][k];
      }
      if m < i {
        assert a[m] == a[..i][m] && b[m] == b[..i][m];
      }
      NextNonBlankIs(b, p + 1, m);
    }
  }

  /** A merge at `i` creates no run at an earlier position that had none. */
  lemma MergeRunKeepsPrefix(kids: seq<Node>, i: nat, r: nat, mode: SeparatorMode)
    requires i < r < |kids| && IsSpan(kids[i])
    requires NoRunBefore(kids, i)
    ensures NoRunBefore(MergeRun(kids, i, r, mode), i)
  {
    var res := MergeRun(kids, i, r, mode);
    forall p | 0 <= p < i ensures !HasRunAt(res, p) {
      SamePrefixSameRuns(kids, res, i, p);
    }
  }

  /** After the pass no run of two or more spans is left. */
  lemma {:induction false} MergePassLeavesNoRun(kids: seq<Node>, i: nat, mode: SeparatorMode)
    requires i <= |kids| && NoRunBefore(kids, i)
    ensures !Mergeable(MergePass(kids, i, mode))
    decreases SpanCount(kids), |kids| - i
  {
    if i < |kids| {
      PassStepFacts(kids, i, mode);
      if HasRunAt(kids, i) {
        var r := RunLast(kids, i, kids[i].attrs["style"]);
        MergeRunKeepsPrefix(kids, i, r, mode);
        MergePassLeavesNoRun(MergeRun(kids, i, r, mode), i, mode);
      } else {
        NoRunExtends(kids, i);
        MergePassLeavesNoRun(kids, i + 1, mode);
      }
    }
  }

  lemma NoRunExtends(kids: seq<Node>, i: nat)
    requires NoRunBefore(kids, i) && !HasRunAt(kids, i)
    ensures NoRunBefore(kids, i + 1)
  {
  }

  /** A list without runs passes through unchanged. */
  lemma {:induction false} MergePassNoRunIdentity(kids: seq<Node>, i: nat, mode: SeparatorMode)
    requires i <= |kids| && !Mergeable(kids)
    ensures MergePass(kids, i, mode) == kids
    decreases |kids| - i
  {
    if i < |kids| {
      assert !HasRunAt(kids, i);
      PassStepFacts(kids, i, mode);
      MergePassNoRunIdentity(kids, i + 1, mode);
    }
  }

  /** The pass removes at least one span exactly when some run of two or
      more spans exists at or after `i` (before `i` there is none). */
  lemma {:induction false} MergePassSpanCount(kids: seq<Node>, i: nat, mode: SeparatorMode)
    requires i <= |kids|
    ensures SpanCount(MergePass(kids, i, mode)) <= SpanCount(kids)
    ensures (exists p :: i <= p < |kids| && HasRunAt(kids, p)) ==>
              SpanCount(MergePass(kids, i, mode)) < SpanCount(kids)
    decreases SpanCount(kids), |kids| - i
  {
    MergePassSpanNoMore(kids, i, mode);
    if p :| i <= p < |kids| && HasRunAt(kids, p) {
      MergePassRemovesSpan(kids, i, p, mode);
    }
  }

  lemma {:induction false} MergePassSpanNoMore(kids: seq<Node>, i: nat, mode: SeparatorMode)
    requires i <= |kids|
    ensures SpanCount(MergePass(kids, i, mode)) <= SpanCount(kids)
    decreases SpanCount(kids), |kids| - i
  {
    if i < |kids| {
      var (next, j) := PassStep(kids, i, mode);
      PassStepFacts(kids, i, mode);
      MergePassSpanNoMore(next, j, mode);
    }
  }

  lemma {:induction false} MergePassRemovesSpan(kids: seq<Node>, i: nat, p: nat, mode: SeparatorMode)
    requires i <= p < |kids| && HasRunAt(kids, p)
    ensures SpanCount(MergePass(kids, i, mode)) < SpanCount(kids)
    decreases SpanCount(kids), |kids| - i
  {
    PassStepFacts(kids, i, mode);
    if HasRunAt(kids, i) {
      MergePassSpanNoMore(PassStep(kids, i, mode).0, i, mode);
    } else {
      MergePassRemovesSpan(kids, i + 1, p, mode);
    }
  }

  /** The merge changes the list exactly when it holds a run of two or more
      spans, leaves no such run behind, and so is idempotent. */
  lemma MergeSpansSpec(kids: seq<Node>, mode: SeparatorMode)
    ensures !Mergeable(MergeSpans(kids, mode))
    ensures MergeSpans(MergeSpans(kids, mode), mode) == MergeSpans(kids, mode)
    ensures Mergeable(kids) <==> MergeSpans(kids, mode) != kids
    ensures Mergeable(kids) ==> SpanCount(MergeSpans(kids, mode)) < SpanCount(kids)
  {
    MergePassLeavesNoRun(kids, 0, mode);
    MergePassNoRunIdentity(MergeSpans(kids, mode), 0, mode);
    MergePassSpanCount(kids, 0, mode);
    if !Mergeable(kids) {
      MergePassNoRunIdentity(kids, 0, mode);
    }
  }

  // ----- text -----

  predicate SameUpToLineBreaks(a: string, b: string) {
    |a| == |b| && forall k :: 0 <= k < |a| ==> b[k] == a[k] || (IsLineBreak(a[k]) && b[k] == ' ')
  }

  lemma SameUpToLineBreaksConcat(a: string, b: string, c: string, d: string)
    requires SameUpToLineBreaks(a, b) && SameUpToLineBreaks(c, d)
    ensures SameUpToLineBreaks(a + c, b + d)
  {
    forall k | 0 <= k < |a + c| ensures (b + d)[k] == (a + c)[k] || (IsLineBreak((a + c)[k]) && (b + d)[k] == ' ') {
      if k >= |a| {
        assert (a + c)[k] == c[k - |a|] && (b + d)[k] == d[k - |b|];
      }
    }
  }

  /** The text of a run region as it reads after the merge: member spans
      give their text, separators their (possibly normalised) text. */
  function RegionText(ns: seq<Node>, mode: SeparatorMode): string {
    if ns == [] then ""
    else
      (match ns[0]
       case Text(s) => SeparatorText(mode, s)
       case Elem(_, _, _) => TextOf(ns[0]))
      + RegionText(ns[1..], mode)
  }

  /** The merged content reads as the region text; copied verbatim, that is
      the original text, and normalised it differs from it only in line
      breaks turned into spaces. */
  lemma {:induction false} GatherText(ns: seq<Node>, mode: SeparatorMode)
    ensures TextOfSeq(Gather(ns, mode)) == RegionText(ns, mode)
    ensures mode == Verbatim ==> RegionText(ns, mode) == TextOfSeq(ns)
    ensures SameUpToLineBreaks(TextOfSeq(ns), RegionText(ns, mode))
  {
    if ns != [] {
      GatherText(ns[1..], mode);
      TextOfSeqConcat(Piece(ns[0], mode), Gather(ns[1..], mode));
      match ns[0]
      case Text(s) =>
        assert TextOfSeq([Text(SeparatorText(mode, s))]) == SeparatorText(mode, s);
        SameUpToLineBreaksConcat(s, SeparatorText(mode, s), TextOfSeq(ns[1..]), RegionText(ns[1..], mode));
      case Elem(_, _, _) =>
        SameUpToLineBreaksConcat(TextOf(ns[0]), TextOf(ns[0]), TextOfSeq(ns[1..]), RegionText(ns[1..], mode));
    }
  }

  /** After merging a run, the first span reads as the members' texts with
      the separators between them, in order, and the siblings' text is
      otherwise the same. */
  lemma MergeRunText(kids: seq<Node>, i: nat, r: nat, mode: SeparatorMode)
    requires i < r < |kids| && kids[i].Elem?
    ensures TextOf(MergeRun(kids, i, r, mode)[i]) == RegionText(kids[i..r + 1], mode)
    ensures TextOfSeq(MergeRun(kids, i, r, mode)) ==
              TextOfSeq(kids[..i]) + RegionText(kids[i..r + 1], mode) + TextOfSeq(kids[r + 1..])
  {
    var res := MergeRun(kids, i, r, mode);
    GatherText(kids[i..r + 1], mode);
    assert res == kids[..i] + [res[i]] + kids[r + 1..];
    TextOfSeqConcat(kids[..i] + [res[i]], kids[r + 1..]);
    TextOfSeqConcat(kids[..i], [res[i]]);
    assert TextOfSeq([res[i]]) == TextOf(res[i]);
  }

  /** The whole pass keeps the siblings' text up to line breaks turned into
      spaces, and keeps it exactly when separators are copied verbatim. */
  lemma {:induction false} MergePassText(kids: seq<Node>, i: nat, mode: SeparatorMode)
    requires i <= |kids|
    ensures SameUpToLineBreaks(TextOfSeq(kids), TextOfSeq(MergePass(kids, i, mode)))
    ensures mode == Verbatim ==> TextOfSeq(MergePass(kids, i, mode)) == TextOfSeq(kids)
    decreases SpanCount(kids), |kids| - i
  {
    if i < |kids| {
      var (next, j) := PassStep(kids, i, mode);
      PassStepFacts(kids, i, mode);
      MergePassText(next, j, mode);
      if j == i {
        MergeRunKeepsText(kids, i, RunLast(kids, i, kids[i].attrs["style"]), mode);
        SameUpToLineBreaksTrans(TextOfSeq(kids), TextOfSeq(next), TextOfSeq(MergePass(next, j, mode)));
      }
    }
  }

  lemma TextOfSeqSplit(kids: seq<Node>, i: nat, r: nat)
    requires i <= r < |kids|
    ensures TextOfSeq(kids) == TextOfSeq(kids[..i]) + TextOfSeq(kids[i..r + 1]) + TextOfSeq(kids[r + 1..])
  {
    var a, b, c := kids[..i], kids[i..r + 1], kids[r + 1..];
    SplitThree(kids, i, r + 1);
    TextOfSeqConcat(a + b, c);
    TextOfSeqConcat(a, b);
  }

  lemma SameUpToLineBreaksInside(p: string, a: string, b: string, q: string)
    requires SameUpToLineBreaks(a, b)
    ensures SameUpToLineBreaks(p + a + q, p + b + q)
  {
    SameUpToLineBreaksConcat(p, p, a, b);
    SameUpToLineBreaksConcat(p + a, p + b, q, q);
  }

  lemma MergeRunKeepsText(kids: seq<Node>, i: nat, r: nat, mode: SeparatorMode)
    requires i < r < |kids| && kids[i].Elem?
    ensures SameUpToLineBreaks(TextOfSeq(kids), TextOfSeq(MergeRun(kids, i, r, mode)))
    ensures mode == Verbatim ==> TextOfSeq(MergeRun(kids, i, r, mode)) == TextOfSeq(kids)
  {
    MergeRunText(kids, i, r, mode);
    GatherText(kids[i..r + 1], mode);
    TextOfSeqSplit(kids, i, r);
    SameUpToLineBreaksInside(TextOfSeq(kids[..i]), TextOfSeq(kids[i..r + 1]),
      RegionText(kids[i..r + 1], mode), TextOfSeq(kids[r + 1..]));
  }

  lemma SameUpToLineBreaksTrans(a: string, b: string, c: string)
    requires SameUpToLineBreaks(a, b) && SameUpToLineBreaks(b, c)
    ensures SameUpToLineBreaks(a, c)
  {
  }

  /** Two spans of one style separated by a line break, the way a parser
      leaves the whitespace between them: line breaks becoming spaces, the
      merged text reads with a single space; copied verbatim, the line
      break stays. */
  lemma LineBreakSeparatorExample(x: string, y: string, attrs: map<string, string>)
    requires "style" in attrs
    ensures var kids := [Elem("span", attrs, [Text(x)]), Text("\n"), Elem("span", attrs, [Text(y)])];
      RunLast(kids, 0, attrs["style"]) == 2
      && TextOfSeq(MergeRun(kids, 0, 2, Normalize)) == x + " " + y
      && TextOfSeq(MergeRun(kids, 0, 2, Verbatim)) == x + "\n" + y
  {
    var kids := [Elem("span", attrs, [Text(x)]), Text("\n"), Elem("span", attrs, [Text(y)])];
    assert IsBlankText(kids[1]);
    assert NextNonBlank(kids, 1) == 2;
    assert NextNonBlank(kids, 3) == 3;
    LineBreakBecomesSpace();
    MergedThreeText(kids, x, y, Normalize);
    MergedThreeText(kids, x, y, Verbatim);
  }

  lemma LineBreakBecomesSpace()
    ensures SeparatorText(Normalize, "\n") == " "
  {
    var r := LineBreaksToSpaces("\n");
    assert |r| == 1 && r[0] == ' ';
  }

  lemma MergedThreeText(kids: seq<Node>, x: string, y: string, mode: SeparatorMode)
    requires |kids| == 3 && kids[0].Elem? && kids[0].children == [Text(x)]
    requires kids[1] == Text("\n") && kids[2].Elem? && kids[2].children == [Text(y)]
    ensures TextOfSeq(MergeRun(kids, 0, 2, mode)) == x + SeparatorText(mode, "\n") + y
  {
    var sep := SeparatorText(mode, "\n");
    assert kids[0..3] == kids;
    assert Gather(kids[2..], mode) == [Text(y)] by {
      assert kids[2..][1..] == [];
    }
    assert Gather(kids[1..], mode) == [Text(sep), Text(y)] by {
      assert kids[1..][1..] == kids[2..];
    }
    var g := [Text(x), Text(sep), Text(y)];
    assert Gather(kids, mode) == g;
    assert MergeRun(kids, 0, 2, mode) == [kids[0].(children := g)];
    TextOfSeqOne(kids[0].(children := g));
    TextOfSeqConcat([Text(x)], [Text(sep), Text(y)]);
    TextOfSeqConcat([Text(sep)], [Text(y)]);
    TextOfSeqOne(Text(x));
    TextOfSeqOne(Text(sep));
    TextOfSeqOne(Text(y));
    assert [Text(x)] + [Text(sep), Text(y)] == g;
    assert [Text(sep)] + [Text(y)] == [Text(sep), Text(y)];
  }

  /** An empty text node between two spans of one style ends the run: the
      source's `while next_sibling:` stops at a falsy sibling. */
  lemma EmptyTextEndsRun(x: string, y: string, attrs: map<string, string>)
    requires "style" in attrs
    ensures var kids := [Elem("span", attrs, [Text(x)]), Text(""), Elem("span", attrs, [Text(y)])];
      RunLast(kids, 0, attrs["style"]) == 0 && !Mergeable(kids)
  {
    var kids := [Elem("span", attrs, [Text(x)]), Text(""), Elem("span", attrs, [Text(y)])];
    assert NextNonBlank(kids, 1) == 1;
    assert !HasRunAt(kids, 0);
    assert NextNonBlank(kids, 3) == 3;
    assert !HasRunAt(kids, 2);
    assert !HasRunAt(kids, 1);
  }

  // ----- the in-place merge -----

  /** The state of the in-place merge at position `i` of `kids`, started on
      `orig`: what is left to do finishes the merge of `orig`, no run starts
      before `i`, and the flag says whether anything was merged yet. */
  ghost predicate PassState(kids: seq<Node>, i: nat, orig: seq<Node>, changed: bool, mode: SeparatorMode) {
    i <= |kids| && MergePass(kids, i, mode) == MergeSpans(orig, mode) && NoRunBefore(kids, i)
    && (!changed ==> kids == orig) && (changed ==> Mergeable(orig))
  }

  /** Moving past position `i` when no run of two or more starts there. */
  lemma SkipStep(kids: seq<Node>, i: nat, orig: seq<Node>, changed: bool, mode: SeparatorMode)
    requires PassState(kids, i, orig, changed, mode) && i < |kids|
    requires !IsStyledSpan(kids[i]) || RunLast(kids, i, kids[i].attrs["style"]) == i
    ensures PassState(kids, i + 1, orig, changed, mode)
  {
    assert MergePass(kids, i, mode) == MergePass(kids, i + 1, mode);
  }

  /** Merging the run that starts at `i` and looking at `i` again. */
  lemma MergeStep(kids: seq<Node>, i: nat, r: nat, orig: seq<Node>, changed: bool, mode: SeparatorMode)
    requires PassState(kids, i, orig, changed, mode) && i < |kids| && IsStyledSpan(kids[i])
    requires r == RunLast(kids, i, kids[i].attrs["style"]) && r > i
    ensures PassState(MergeRun(kids, i, r, mode), i, orig, true, mode)
    ensures SpanCount(MergeRun(kids, i, r, mode)) < SpanCount(kids)
  {
    PassStepFacts(kids, i, mode);
    MergeRunKeepsPrefix(kids, i, r, mode);
    assert HasRunAt(kids, i);
  }

  /** At the end of the list the pass is over and no run is left. */
  lemma PassEnd(kids: seq<Node>, orig: seq<Node>, changed: bool, mode: SeparatorMode)
    requires PassState(kids, |kids|, orig, changed, mode)
    ensures kids == MergeSpans(orig, mode) && changed == Mergeable(orig) && !Mergeable(kids)
  {
    assert MergePass(kids, |kids|, mode) == kids;
  }

  lemma MergeRunIs(kids: seq<Node>, i: nat, r: nat, mode: SeparatorMode, span: Node)
    requires i < r < |kids| && kids[i].Elem?
    requires span == kids[i].(children := Gather(kids[i..r + 1], mode))
    ensures MergeRun(kids, i, r, mode) == kids[..i] + [span] + kids[r + 1..]
  {
  }

  /** Walks the siblings after the styled span at `i` the way the source
      does and returns the position of the last span of its run. */
  method RunEnd(nodes: seq<Node>, i: nat, style: string) returns (last: nat)
    requires i < |nodes|
    ensures last == RunLast(nodes, i, style)
  {
    var next;
    last, next := i, i + 1;
    while next < |nodes|
      invariant last < next <= |nodes|
      invariant RunLast(nodes, last, style) == RunLast(nodes, i, style)
      invariant forall k :: last < k < next ==> IsBlankText(nodes[k])
      decreases |nodes| - next
    {
      if IsBlankText(nodes[next]) {
        next := next + 1;
      } else if Continues(nodes[next], style) {
        RunLastContinues(nodes, last, next, style);
        last, next := next, next + 1;
      } else {
        break;
      }
    }
    RunLastStops(nodes, last, next, style);
  }

  /** Whitespace and then a continuing span: the run goes on from there. */
  lemma RunLastContinues(nodes: seq<Node>, last: nat, next: nat, style: string)
    requires last < next < |nodes| && !IsBlankText(nodes[next]) && Continues(nodes[next], style)
    requires forall k :: last < k < next ==> IsBlankText(nodes[k])
    ensures RunLast(nodes, last, style) == RunLast(nodes, next, style)
  {
    NextNonBlankIs(nodes, last + 1, next);
  }

  /** Whitespace and then the end or a node that does not continue: the run
      ends at `last`. */
  lemma RunLastStops(nodes: seq<Node>, last: nat, next: nat, style: string)
    requires last < next <= |nodes|
    requires forall k :: last < k < next ==> IsBlankText(nodes[k])
    requires next < |nodes| ==> !IsBlankText(nodes[next]) && !Continues(nodes[next], style)
    ensures RunLast(nodes, last, style) == last
  {
    NextNonBlankIs(nodes, last + 1, next);
  }

  /** The copy loop of the source: the children of every member and the
      separators between members, in order. */
  method CollectRun(nodes: seq<Node>, i: nat, last: nat, mode: SeparatorMode) returns (merged: seq<Node>)
    requires i <= last < |nodes|
    ensures merged == Gather(nodes[i..last + 1], mode)
  {
    merged := [];
    var k := i;
    while k <= last
      invariant i <= k <= last + 1
      invariant merged == Gather(nodes[i..k], mode)
    {
      GatherSnoc(nodes, i, k, mode);
      merged := merged + Piece(nodes[k], mode);
      k := k + 1;
    }
  }

  lemma GatherSnoc(nodes: seq<Node>, i: nat, k: nat, mode: SeparatorMode)
    requires i <= k < |nodes|
    ensures Gather(nodes[i..k + 1], mode) == Gather(nodes[i..k], mode) + Piece(nodes[k], mode)
  {
    GatherConcat(nodes[i..k], [nodes[k]], mode);
    assert nodes[i..k + 1] == nodes[i..k] + [nodes[k]];
    assert Gather([nodes[k]], mode) == Piece(nodes[k], mode) + [];
  }

  /** The children of one element, which the merger rewrites in place. */
  class ChildList {
    var nodes: seq<Node>

    constructor (nodes: seq<Node>)
      ensures this.nodes == nodes
    {
      this.nodes := nodes;
    }

    /** Moves the content of the run `i..last` into its first span and
        removes the other members with the whitespace before each. */
    method MergeAt(i: nat, last: nat, mode: SeparatorMode)
      requires i < last < |nodes| && nodes[i].Elem?
      modifies this
      ensures nodes == MergeRun(old(nodes), i, last, mode)
    {
      var merged := CollectRun(nodes, i, last, mode);
      var span := nodes[i].(children := merged);
      MergeRunIs(nodes, i, last, mode, span);
      nodes := nodes[..i] + [span] + nodes[last + 1..];
    }

    /** Merges every run of two or more same-style spans among these
        siblings and tells whether it merged any. */
    method MergeConsecutiveSpans(mode: SeparatorMode) returns (changed: bool)
      modifies this
      ensures nodes == MergeSpans(old(nodes), mode)
      ensures changed == Mergeable(old(nodes))
      ensures !Mergeable(nodes)
    {
      changed := false;
      var i: nat := 0;
      while i < |nodes|
        invariant PassState(nodes, i, old(nodes), changed, mode)
        decreases SpanCount(nodes), |nodes| - i
      {
        var last := i;
        if IsStyledSpan(nodes[i]) {
          last := RunEnd(nodes, i, nodes[i].attrs["style"]);
        }
        i, changed := VisitAt(i, last, changed, old(nodes), mode);
      }
      PassEnd(nodes, old(nodes), changed, mode);
    }

    /** The rest of one turn of the merge loop, once the walk has found the
        last span `last` of the run at `i`: the node at `i` either starts a
        run of two or more spans, which is merged and looked at again, or is
        passed over. */
    method VisitAt(i: nat, last: nat, changed: bool, ghost orig: seq<Node>, mode: SeparatorMode) returns (next: nat, merged: bool)
      requires PassState(nodes, i, orig, changed, mode) && i < |nodes|
      requires last == if IsStyledSpan(nodes[i]) then RunLast(nodes, i, nodes[i].attrs["style"]) else i
      modifies this
      ensures PassState(nodes, next, orig, merged, mode)
      ensures next == i || next == i + 1
      ensures next == i + 1 ==> nodes == old(nodes) && merged == changed
      ensures next == i ==> merged && SpanCount(nodes) < SpanCount(old(nodes))
    {
      if last == i {
        SkipStep(nodes, i, orig, changed, mode);
        next, merged := i + 1, changed;
      } else {
        MergeRunAt(i, last, changed, orig, mode);
        next, merged := i, true;
      }
    }

    /** The merge branch of the loop: the run from `i` to `last` is merged
        in place, and the pass goes on at `i`. */
    method MergeRunAt(i: nat, last: nat, changed: bool, ghost orig: seq<Node>, mode: SeparatorMode)
      requires PassState(nodes, i, orig, changed, mode) && i < |nodes| && IsStyledSpan(nodes[i])
      requires last == RunLast(nodes, i, nodes[i].attrs["style"]) && last > i
      modifies this
      ensures PassState(nodes, i, orig, true, mode)
      ensures SpanCount(nodes) < SpanCount(old(nodes))
    {
      MergeStep(nodes, i, last, orig, changed, mode);
      MergeAt(i, last, mode);
    }
  }
}
