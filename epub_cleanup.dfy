/**
 * The first, stand-alone version of the cleaner: the span merge copies the
 * whitespace between merged spans as it is, only a blank first paragraph
 * receives a heading, and the heading is always "Chapter" and the decimal
 * chapter number.
 */
module EpubCleanup {
  import opened Markup
  import opened SpanMerge
  import opened SpanTree
  import opened Numbering
  import opened Headings
  import opened Cleanup

  /** `process_xhtml_content`: the counter moves on exactly when the merged
      document's first paragraph is blank; a document that gets no heading
      keeps all of its text, and no two spans of one style are left side by
      side. */
  function ProcessXhtmlContent(doc: Node, n: nat): (r: Processed)
    ensures var cleaned := CleanTree(doc, Verbatim);
      r.chapterNumber == (if FirstParagraph(cleaned).Some? && IsBlank(TextOf(FirstParagraph(cleaned).value)) then n + 1 else n)
    ensures r.chapterNumber == n ==> TextOf(r.doc) == TextOf(doc) && Tidy(r.doc)
  {
    CleanTreeText(doc, Verbatim);
    CleanTreeTidy(doc, Verbatim);
    LegacyHeadingStage(CleanTree(doc, Verbatim), n)
  }

  /** In a document without placeholders, a heading that is added replaces
      the content of the blank first paragraph, which loses its placeholder
      mark; the rest of the merged document is as the merge left it. */
  lemma HeadingReplacesBlankParagraph(doc: Node, n: nat)
    requires PlaceholderCount(doc) == 0
    ensures var r := ProcessXhtmlContent(doc, n);
      var cleaned := CleanTree(doc, Verbatim);
      r.chapterNumber == n + 1 ==>
        var kids := FindBody(cleaned).value;
        var i := FirstElement(kids).value;
        r.doc == ReplaceBody(cleaned, kids[i := Elem("p", kids[i].attrs - {PlaceholderKey}, [Text("Chapter " + NatToString(n))])])
  {
    ProcessIsLegacy(doc, n);
    CleanTreeCount(doc, Verbatim);
    LegacyBlankFilled(CleanTree(doc, Verbatim), n);
  }

  lemma ProcessIsLegacy(doc: Node, n: nat)
    ensures ProcessXhtmlContent(doc, n) == LegacyHeadingStage(CleanTree(doc, Verbatim), n)
  {
  }

  /** The first version's heading stage on a document without placeholders
      fills the blank first paragraph when it moves the counter on. */
  lemma LegacyBlankFilled(cleaned: Node, n: nat)
    requires PlaceholderCount(cleaned) == 0
    ensures var r := LegacyHeadingStage(cleaned, n);
      r.chapterNumber == n + 1 ==>
        var kids := FindBody(cleaned).value;
        var i := FirstElement(kids).value;
        r.doc == ReplaceBody(cleaned, kids[i := Elem("p", kids[i].attrs - {PlaceholderKey}, [Text("Chapter " + NatToString(n))])])
  {
    if LegacyHeadingStage(cleaned, n).chapterNumber == n + 1 {
      DefaultHeading(n);
      BlankParagraphFilled(cleaned, n, DefaultConfig, "Chapter " + NatToString(n));
    }
  }
}
