/**
 * One XHTML document through the plugin: the span merge, then the chapter
 * heading, with the running chapter counter threaded from one document to
 * the next.
 */
module Cleanup {
  import opened Markup
  import opened SpanMerge
  import opened SpanTree
  import opened Numbering
  import opened Headings

  /** The processed document and the counter for the next document. */
  datatype Processed = Processed(doc: Node, chapterNumber: nat)

  /** A configuration dictionary with no entries: every setting falls back
      to its default. */
  const DefaultConfig: Config := Config(None, None, None, None)

  // ----- placeholders are never created by the merge -----

  lemma {:induction false} PlaceholderCountSeqConcat(a: seq<Node>, b: seq<Node>)
    ensures PlaceholderCountSeq(a + b) == PlaceholderCountSeq(a) + PlaceholderCountSeq(b)
  {
    if a == [] {
      assert a + b == b;
    } else {
      assert (a + b)[1..] == a[1..] + b;
      PlaceholderCountSeqConcat(a[1..], b);
    }
  }

  lemma {:induction false} GatherCount(ns: seq<Node>, mode: SeparatorMode)
    ensures PlaceholderCountSeq(Gather(ns, mode)) <= PlaceholderCountSeq(ns)
  {
    if ns != [] {
      GatherCount(ns[1..], mode);
      PlaceholderCountSeqConcat(Piece(ns[0], mode), Gather(ns[1..], mode));
      match ns[0]
      case Text(s) =>
        assert PlaceholderCountSeq([Text(SeparatorText(mode, s))]) == 0;
      case Elem(_, _, _) =>
    }
  }

  /** The span a run collapses into holds no more placeholders than the
      run did. */
  lemma RunHeadCount(region: seq<Node>, mode: SeparatorMode)
    requires region != [] && region[0].Elem?
    ensures PlaceholderCount(region[0].(children := Gather(region, mode))) <= PlaceholderCountSeq(region)
  {
    assert Gather(region, mode) == region[0].children + Gather(region[1..], mode);
    PlaceholderCountSeqConcat(region[0].children, Gather(region[1..], mode));
    GatherCount(region[1..], mode);
  }

  lemma MergeRunCount(kids: seq<Node>, i: nat, r: nat, mode: SeparatorMode)
    requires i < r < |kids| && kids[i].Elem?
    ensures PlaceholderCountSeq(MergeRun(kids, i, r, mode)) <= PlaceholderCountSeq(kids)
  {
    var region := kids[i..r + 1];
    var span := kids[i].(children := Gather(region, mode));
    MergeRunIs(kids, i, r, mode, span);
    SplitThree(kids, i, r + 1);
    PlaceholderCountSeqConcat(kids[..i] + region, kids[r + 1..]);
    PlaceholderCountSeqConcat(kids[..i], region);
    CountAround(kids[..i], span, kids[r + 1..]);
    RunHeadCount(region, mode);
  }

  lemma CountAround(a: seq<Node>, x: Node, b: seq<Node>)
    ensures PlaceholderCountSeq(a + [x] + b) == PlaceholderCountSeq(a) + PlaceholderCount(x) + PlaceholderCountSeq(b)
  {
    PlaceholderCountSeqConcat(a + [x], b);
    PlaceholderCountSeqConcat(a, [x]);
    assert PlaceholderCountSeq([x]) == PlaceholderCount(x) + PlaceholderCountSeq([]);
  }

  lemma {:induction false} MergePassCount(kids: seq<Node>, i: nat, mode: SeparatorMode)
    requires i <= |kids|
    ensures PlaceholderCountSeq(MergePass(kids, i, mode)) <= PlaceholderCountSeq(kids)
    decreases SpanCount(kids), |kids| - i
  {
    if i < |kids| {
      var (next, j) := PassStep(kids, i, mode);
      PassStepFacts(kids, i, mode);
      MergePassCount(next, j, mode);
      if j == i {
        MergeRunCount(kids, i, RunLast(kids, i, kids[i].attrs["style"]), mode);
      }
    }
  }

  /** The whole-document merge adds no placeholder. */
  lemma {:induction false} CleanTreeCount(n: Node, mode: SeparatorMode)
    ensures PlaceholderCount(CleanTree(n, mode)) <= PlaceholderCount(n)
    decreases Size(n), 1
  {
    match n
    case Text(_) =>
    case Elem(name, attrs, children) =>
      MergePassSize(children, 0, mode);
      MergePassCount(children, 0, mode);
      CleanSeqCount(MergeSpans(children, mode), mode);
  }

  lemma {:induction false} CleanSeqCount(ns: seq<Node>, mode: SeparatorMode)
    ensures PlaceholderCountSeq(CleanSeq(ns, mode)) <= PlaceholderCountSeq(ns)
    decreases SizeSeq(ns), 0
  {
    if ns != [] {
      CleanTreeCount(ns[0], mode);
      CleanSeqCount(ns[1..], mode);
      assert CleanSeq(ns, mode)[1..] == CleanSeq(ns[1..], mode);
    }
  }

  // ----- a marked document holds a placeholder -----

  lemma {:induction false} MemberCount(kids: seq<Node>, i: nat)
    requires i < |kids|
    ensures PlaceholderCount(kids[i]) <= PlaceholderCountSeq(kids)
  {
    if i > 0 {
      MemberCount(kids[1..], i - 1);
    }
  }

  lemma {:induction false} BodyCount(n: Node)
    requires FindBody(n).Some?
    ensures PlaceholderCountSeq(FindBody(n).value) <= PlaceholderCount(n)
    decreases Size(n), 1
  {
    match n
    case Text(_) =>
    case Elem(name, attrs, children) =>
      if name != "body" {
        BodyCountIn(children);
      }
  }

  lemma {:induction false} BodyCountIn(ns: seq<Node>)
    requires FindBodyIn(ns).Some?
    ensures PlaceholderCountSeq(FindBodyIn(ns).value) <= PlaceholderCountSeq(ns)
    decreases SizeSeq(ns), 0
  {
    if FindBody(ns[0]).Some? {
      BodyCount(ns[0]);
    } else {
      BodyCountIn(ns[1..]);
    }
  }

  /** A document whose first body element is marked has a placeholder to
      fill. */
  lemma MarkedCounted(doc: Node)
    requires MarkedFirst(doc)
    ensures PlaceholderCount(doc) > 0
  {
    var kids := FindBody(doc).value;
    MemberCount(kids, FirstElement(kids).value);
    BodyCount(doc);
  }

  // ----- the heading stage -----

  /** Marking followed by filling: the marked paragraph receives the
      heading for chapter `n` and the counter moves on exactly when the
      first paragraph called for a heading; otherwise the document is left
      as it was. */
  function HeadingStage(cleaned: Node, n: nat, cfg: Config, insertAsP: bool): (r: Processed)
    ensures r.chapterNumber == (if WantsHeading(cleaned, cfg, insertAsP) then n + 1 else n)
    ensures r.chapterNumber == n ==> r.doc == cleaned
  {
    var m := AddChapterHeadingsWithConfig(cleaned, cfg, insertAsP);
    if m.added == 0 then Processed(m.doc, n)
    else
      MarkedCounted(m.doc);
      var (filled, found) := FillPlaceholder(m.doc, HeadingText(n, cfg));
      if found then Processed(filled, n + 1) else Processed(m.doc, n)
  }

  /** In a document without placeholders, the heading becomes the body's
      first paragraph and nothing outside the body's children changes. */
  lemma HeadingStagePlaces(cleaned: Node, n: nat, cfg: Config, insertAsP: bool)
    requires PlaceholderCount(cleaned) == 0
    requires WantsHeading(cleaned, cfg, insertAsP)
    ensures var r := HeadingStage(cleaned, n, cfg, insertAsP);
      HeadingFirst(r.doc, HeadingText(n, cfg)) && FindBody(r.doc).Some?
      && r.doc == ReplaceBody(cleaned, FindBody(r.doc).value)
  {
    HeadingLands(cleaned, cfg, insertAsP, HeadingText(n, cfg));
  }

  /** The heading paragraph that takes the place of the body's first
      paragraph `p`: a blank one keeps its attributes but the placeholder
      mark and gets the heading as its only content; in front of any other
      one a new paragraph with the heading is inserted. */
  function WithHeading(kids: seq<Node>, i: nat, heading: string): seq<Node>
    requires i < |kids| && kids[i].Elem?
  {
    if IsBlank(TextOf(kids[i])) then kids[i := Elem("p", kids[i].attrs - {PlaceholderKey}, [Text(heading)])]
    else kids[..i] + [Elem("p", map[], [Text(heading)])] + kids[i..]
  }

  lemma FillMarkedParagraph(kids: seq<Node>, i: nat, h: string)
    requires i < |kids| && kids[i].Elem? && kids[i].name == "p"
    requires forall k :: 0 <= k < i ==> kids[k].Text?
    ensures FillPlaceholderIn(kids[i := Mark(kids[i])], h)
      == (kids[i := Elem("p", kids[i].attrs - {PlaceholderKey}, [Text(h)])], true)
  {
    var marked := kids[i := Mark(kids[i])];
    assert MarkedAt(marked, i);
    FillAtMark(marked, i, h);
    assert Filled(marked[i], h) == Elem("p", kids[i].attrs - {PlaceholderKey}, [Text(h)]);
    assert marked[i := Filled(marked[i], h)] == kids[i := Filled(marked[i], h)];
  }

  lemma FillInsertedParagraph(kids: seq<Node>, i: nat, h: string)
    requires i <= |kids| && forall k :: 0 <= k < i ==> kids[k].Text?
    ensures FillPlaceholderIn(kids[..i] + [NewPlaceholder] + kids[i..], h)
      == (kids[..i] + [Elem("p", map[], [Text(h)])] + kids[i..], true)
  {
    var marked := kids[..i] + [NewPlaceholder] + kids[i..];
    InsertMarks(kids, i);
    FillAtMark(marked, i, h);
    FilledNewPlaceholder(h);
    UpdateInserted(kids[..i], NewPlaceholder, Filled(NewPlaceholder, h), kids[i..]);
  }

  lemma FilledNewPlaceholder(h: string)
    ensures Filled(NewPlaceholder, h) == Elem("p", map[], [Text(h)])
  {
    assert map[PlaceholderKey := "true"] - {PlaceholderKey} == map[];
  }

  lemma UpdateInserted<T>(a: seq<T>, x: T, y: T, b: seq<T>)
    ensures (a + [x] + b)[|a| := y] == a + [y] + b
  {}

  /** Filling the edited body children writes the heading at the first
      paragraph. */
  lemma FillEditedBody(kids: seq<Node>, i: nat, cfg: Config, insertAsP: bool, h: string)
    requires i < |kids| && kids[i].Elem? && kids[i].name == "p"
    requires forall k :: 0 <= k < i ==> kids[k].Text?
    requires EditBody(kids, i, cfg, insertAsP).Some?
    ensures FillPlaceholderIn(EditBody(kids, i, cfg, insertAsP).value, h) == (WithHeading(kids, i, h), true)
  {
    StripEmptyIffBlank(TextOf(kids[i]));
    if IsBlank(TextOf(kids[i])) {
      FillMarkedParagraph(kids, i, h);
    } else {
      FillInsertedParagraph(kids, i, h);
    }
  }

  /** In a document without placeholders, the heading stage rewrites just
      the body's children, and in one of the two ways above. */
  lemma HeadingStageResult(cleaned: Node, n: nat, cfg: Config, insertAsP: bool)
    requires PlaceholderCount(cleaned) == 0
    requires WantsHeading(cleaned, cfg, insertAsP)
    ensures var kids := FindBody(cleaned).value;
      HeadingStage(cleaned, n, cfg, insertAsP)
      == Processed(ReplaceBody(cleaned, WithHeading(kids, FirstElement(kids).value, HeadingText(n, cfg))), n + 1)
  {
    var kids := FindBody(cleaned).value;
    var i := FirstElement(kids).value;
    var h := HeadingText(n, cfg);
    var marked := EditBody(kids, i, cfg, insertAsP).value;
    MarkingEditsBody(cleaned, cfg, insertAsP);
    FillReplacedBody(cleaned, marked, h);
    FillEditedBody(kids, i, cfg, insertAsP, h);
  }

  /** The heading paragraph is no span, so writing it into a body without
      runs creates none. */
  lemma WithHeadingTidy(kids: seq<Node>, i: nat, heading: string)
    requires i < |kids| && kids[i].Elem? && kids[i].name == "p"
    requires forall k :: 0 <= k < i ==> kids[k].Text?
    requires !Mergeable(kids) && forall k :: 0 <= k < |kids| ==> Tidy(kids[k])
    ensures var res := WithHeading(kids, i, heading);
      !Mergeable(res) && forall k :: 0 <= k < |res| ==> Tidy(res[k])
  {
    var p := Elem("p", if IsBlank(TextOf(kids[i])) then kids[i].attrs - {PlaceholderKey} else map[], [Text(heading)]);
    assert !HasRunAt(p.children, 0);
    assert Tidy(p);
    if IsBlank(TextOf(kids[i])) {
      assert SameShapes(kids, kids[i := p]);
      SameShapeMergeable(kids, kids[i := p]);
    } else {
      InsertKeepsNoRun(kids, i, p);
      var res := kids[..i] + [p] + kids[i..];
      forall k | 0 <= k < |res| ensures Tidy(res[k]) {
        if k > i {
          assert res[k] == kids[k - 1];
        }
      }
    }
  }

  /** The heading stage keeps a tidy document tidy. */
  lemma HeadingStageTidy(cleaned: Node, n: nat, cfg: Config, insertAsP: bool)
    requires PlaceholderCount(cleaned) == 0 && Tidy(cleaned)
    ensures Tidy(HeadingStage(cleaned, n, cfg, insertAsP).doc)
  {
    if WantsHeading(cleaned, cfg, insertAsP) {
      var kids := FindBody(cleaned).value;
      var i := FirstElement(kids).value;
      HeadingStageResult(cleaned, n, cfg, insertAsP);
      TidyBody(cleaned);
      WithHeadingTidy(kids, i, HeadingText(n, cfg));
      TidyReplaceBody(cleaned, WithHeading(kids, i, HeadingText(n, cfg)));
    }
  }

  // ----- `process_xhtml_content_with_config` -----

  /** The span merge when the document is cleaned, then the heading stage
      when chapters are added, with headings inserted as the configuration
      says. The counter moves on by one exactly when chapters are added and
      the first paragraph of the merged document calls for a heading; a
      document that gets no heading keeps its text up to line breaks, and
      all of it when it is not cleaned. */
  function ProcessXhtmlContentWithConfig(doc: Node, n: nat, cfg: Config, shouldCleanup: bool, shouldAddChapters: bool): (r: Processed)
    ensures var cleaned := if shouldCleanup then CleanTree(doc, Normalize) else doc;
      r.chapterNumber == (if shouldAddChapters && WantsHeading(cleaned, cfg, InsertHeading(cfg)) then n + 1 else n)
    ensures r.chapterNumber == n ==> SameUpToLineBreaks(TextOf(doc), TextOf(r.doc))
    ensures r.chapterNumber == n && !shouldCleanup ==> r.doc == doc
    ensures shouldCleanup && r.chapterNumber == n ==> Tidy(r.doc)
  {
    var cleaned := if shouldCleanup then CleanTree(doc, Normalize) else doc;
    CleanTreeTidy(doc, Normalize);
    CleanTreeText(doc, Normalize);
    assert SameUpToLineBreaks(TextOf(doc), TextOf(doc));
    if !shouldAddChapters then Processed(cleaned, n)
    else HeadingStage(cleaned, n, cfg, InsertHeading(cfg))
  }

  /** In a document without placeholders, a chapter heading that is added
      becomes the body's first paragraph, and nothing outside the body's
      children differs from the merged document. */
  lemma ProcessPlacesHeading(doc: Node, n: nat, cfg: Config, shouldCleanup: bool, shouldAddChapters: bool)
    requires PlaceholderCount(doc) == 0
    ensures var r := ProcessXhtmlContentWithConfig(doc, n, cfg, shouldCleanup, shouldAddChapters);
      var cleaned := if shouldCleanup then CleanTree(doc, Normalize) else doc;
      r.chapterNumber == n + 1 ==>
        HeadingFirst(r.doc, HeadingText(n, cfg)) && FindBody(r.doc).Some?
        && r.doc == ReplaceBody(cleaned, FindBody(r.doc).value)
  {
    var cleaned := if shouldCleanup then CleanTree(doc, Normalize) else doc;
    CleanTreeCount(doc, Normalize);
    if shouldAddChapters && WantsHeading(cleaned, cfg, InsertHeading(cfg)) {
      HeadingStagePlaces(cleaned, n, cfg, InsertHeading(cfg));
    }
  }

  /** A cleaned document stays free of runs through the heading stage. */
  lemma ProcessKeepsTidy(doc: Node, n: nat, cfg: Config, shouldCleanup: bool, shouldAddChapters: bool)
    requires PlaceholderCount(doc) == 0 && shouldCleanup
    ensures Tidy(ProcessXhtmlContentWithConfig(doc, n, cfg, shouldCleanup, shouldAddChapters).doc)
  {
    CleanTreeTidy(doc, Normalize);
    CleanTreeCount(doc, Normalize);
    if shouldAddChapters {
      HeadingStageTidy(CleanTree(doc, Normalize), n, cfg, InsertHeading(cfg));
    }
  }

  /** Running the plugin again over its own output, with the counter it
      returned, changes nothing: a heading it wrote is recognised and the
      merge finds no run. This needs a heading that can be recognised. */
  lemma SecondRunChangesNothing(doc: Node, n: nat, cfg: Config, shouldCleanup: bool, shouldAddChapters: bool)
    requires PlaceholderCount(doc) == 0
    requires InitialText(cfg) != [] && !IsWhitespace(InitialText(cfg)[0])
    requires Recognisable(n, NumberingStyle(cfg))
    ensures var r := ProcessXhtmlContentWithConfig(doc, n, cfg, shouldCleanup, shouldAddChapters);
      ProcessXhtmlContentWithConfig(r.doc, r.chapterNumber, cfg, shouldCleanup, shouldAddChapters) == r
  {
    var r := ProcessXhtmlContentWithConfig(doc, n, cfg, shouldCleanup, shouldAddChapters);
    var cleaned := if shouldCleanup then CleanTree(doc, Normalize) else doc;
    if shouldCleanup {
      ProcessKeepsTidy(doc, n, cfg, shouldCleanup, shouldAddChapters);
      TidyClean(r.doc, Normalize);
    }
    if r.chapterNumber == n + 1 {
      ProcessPlacesHeading(doc, n, cfg, shouldCleanup, shouldAddChapters);
      NoSecondHeading(r.doc, n, cfg, InsertHeading(cfg));
    }
  }

  /** With insertion off, the heading can only fill a blank first
      paragraph. */
  lemma BlankParagraphFilled(cleaned: Node, n: nat, cfg: Config, heading: string)
    requires PlaceholderCount(cleaned) == 0
    requires WantsHeading(cleaned, cfg, false) && heading == HeadingText(n, cfg)
    ensures var kids := FindBody(cleaned).value;
      var i := FirstElement(kids).value;
      HeadingStage(cleaned, n, cfg, false)
      == Processed(ReplaceBody(cleaned, kids[i := Elem("p", kids[i].attrs - {PlaceholderKey}, [Text(heading)])]), n + 1)
  {
    HeadingStageResult(cleaned, n, cfg, false);
  }

  /** A paragraph first among the body's children is its first paragraph. */
  lemma FirstParagraphIs(doc: Node, x: Node, rest: seq<Node>)
    requires FindBody(doc) == Some([x] + rest) && x.Elem? && x.name == "p"
    ensures FirstElement([x] + rest) == Some(0) && FirstParagraph(doc) == Some(x)
  {
  }

  /** An empty paragraph first in the body takes the heading as its
      content. */
  lemma EmptyParagraphTakesHeading(doc: Node, rest: seq<Node>, n: nat, cfg: Config, insertAsP: bool)
    requires FindBody(doc) == Some([Elem("p", map[], [])] + rest) && PlaceholderCount(doc) == 0
    ensures HeadingStage(doc, n, cfg, insertAsP)
      == Processed(ReplaceBody(doc, [Elem("p", map[], [Text(HeadingText(n, cfg))])] + rest), n + 1)
  {
    EmptyFirstWants(doc, rest, cfg, insertAsP);
    HeadingStageResult(doc, n, cfg, insertAsP);
    BlankFrontFilled(rest, HeadingText(n, cfg));
  }

  lemma EmptyFirstWants(doc: Node, rest: seq<Node>, cfg: Config, insertAsP: bool)
    requires FindBody(doc) == Some([Elem("p", map[], [])] + rest)
    ensures FirstElement([Elem("p", map[], [])] + rest) == Some(0) && WantsHeading(doc, cfg, insertAsP)
  {
    var kids := [Elem("p", map[], [])] + rest;
    FirstParagraphIs(doc, kids[0], rest);
    assert TextOf(kids[0]) == "";
    BlankWantsHeading(doc, cfg, insertAsP);
  }

  lemma BlankFrontFilled(rest: seq<Node>, h: string)
    ensures WithHeading([Elem("p", map[], [])] + rest, 0, h) == [Elem("p", map[], [Text(h)])] + rest
  {
    var kids := [Elem("p", map[], [])] + rest;
    assert TextOf(kids[0]) == "";
    assert kids[0].attrs - {PlaceholderKey} == map[];
  }

  lemma BlankWantsHeading(doc: Node, cfg: Config, insertAsP: bool)
    requires FirstParagraph(doc).Some? && IsBlank(TextOf(FirstParagraph(doc).value))
    ensures WantsHeading(doc, cfg, insertAsP)
  {}

  lemma InsertedInFront(x: Node, rest: seq<Node>, h: string)
    requires x.Elem?
    ensures WithHeading([x] + rest, 0, h) == (if IsBlank(TextOf(x)) then [Elem("p", x.attrs - {PlaceholderKey}, [Text(h)])] + rest
      else [Elem("p", map[], [Text(h)]), x] + rest)
  {
    if IsBlank(TextOf(x)) {
      ReplaceFront(x, rest, Elem("p", x.attrs - {PlaceholderKey}, [Text(h)]));
    } else {
      InsertFront(x, rest, Elem("p", map[], [Text(h)]));
    }
  }

  lemma ReplaceFront<T>(x: T, rest: seq<T>, y: T)
    ensures ([x] + rest)[0 := y] == [y] + rest
  {}

  lemma InsertFront<T>(x: T, rest: seq<T>, y: T)
    ensures ([x] + rest)[..0] + [y] + ([x] + rest)[0..] == [y, x] + rest
  {}

  /** With insertion on, a first paragraph that has text but is not a
      heading gets a new heading paragraph in front of it. */
  lemma HeadingInsertedInFront(doc: Node, x: Node, rest: seq<Node>, n: nat, cfg: Config)
    requires FindBody(doc) == Some([x] + rest) && PlaceholderCount(doc) == 0
    requires x.Elem? && x.name == "p" && !IsBlank(TextOf(x))
    requires !IsExistingChapterHeading(Strip(TextOf(x)), InitialText(cfg))
    ensures HeadingStage(doc, n, cfg, true)
      == Processed(ReplaceBody(doc, [Elem("p", map[], [Text(HeadingText(n, cfg))]), x] + rest), n + 1)
  {
    FirstParagraphIs(doc, x, rest);
    assert WantsHeading(doc, cfg, true);
    HeadingStageResult(doc, n, cfg, true);
    InsertedInFront(x, rest, HeadingText(n, cfg));
  }

  /** With default settings, chapter 5: the paragraph reads "Chapter 5" and
      the next document is chapter 6. */
  lemma EmptyParagraphExample(doc: Node, rest: seq<Node>)
    requires FindBody(doc) == Some([Elem("p", map[], [])] + rest) && PlaceholderCount(doc) == 0
    ensures ProcessXhtmlContentWithConfig(doc, 5, DefaultConfig, false, true)
      == Processed(ReplaceBody(doc, [Elem("p", map[], [Text("Chapter 5")])] + rest), 6)
  {
    EmptyParagraphTakesHeading(doc, rest, 5, DefaultConfig, false);
    DefaultHeadingExample();
  }

  // ----- the first version: `process_xhtml_content` -----

  /** The heading the first version writes is the default heading. */
  lemma DefaultHeading(n: nat)
    ensures HeadingText(n, DefaultConfig) == "Chapter " + NatToString(n)
  {
    NumericStyleName();
    assert FormatChapterNumber(n, NumericStyle) == NatToString(n);
    assert NumberingStyle(DefaultConfig) == NumericStyle;
    PlainHeading(n, DefaultConfig, NatToString(n));
  }

  /** The heading stage of the first version: only a blank first paragraph
      is marked, and it is filled with "Chapter" and the decimal number. It
      is the configured stage with every setting left at its default. */
  function LegacyHeadingStage(cleaned: Node, n: nat): (r: Processed)
    ensures r == HeadingStage(cleaned, n, DefaultConfig, false)
  {
    LegacyMarkingIsConfigured(cleaned, DefaultConfig);
    DefaultHeading(n);
    var m := AddChapterHeadings(cleaned);
    if m.added == 0 then Processed(m.doc, n)
    else
      var (filled, found) := FillPlaceholder(m.doc, "Chapter " + NatToString(n));
      if found then Processed(filled, n + 1) else Processed(m.doc, n)
  }

  /** `process_xhtml_content` of the plugin: the merge with line breaks
      turned into spaces, then the first version's heading stage. It does
      what the configured entry point does with an empty configuration and
      both steps switched on. */
  function ProcessXhtmlContent(doc: Node, n: nat): (r: Processed)
    ensures r == ProcessXhtmlContentWithConfig(doc, n, DefaultConfig, true, true)
  {
    LegacyHeadingStage(CleanTree(doc, Normalize), n)
  }
}
