# EPUB XHTML cleanup, modelled in Dafny

This project models the core of an EPUB cleanup tool: a calibre plugin and the
stand-alone script it grew out of. Both take one XHTML chapter at a time and
do two things to it.

- **Span merging.** A run of sibling `<span>` elements that carry the same
  `style` attribute, separated only by whitespace text, becomes one span. That
  span holds the contents of every member and the whitespace between them.
  The plugin turns line breaks in that whitespace into spaces. The script
  copies the whitespace as it is.
- **Chapter headings.** If the first element of `<body>` is a blank `<p>`, it
  is marked as a placeholder. With the plugin's "insert heading" option, a
  new placeholder `<p>` is also put in front of a first paragraph that does
  not already read like a chapter heading. The placeholder is then filled
  with "Chapter 5", "Chapter Five", "Chapter V" or a configured variant, and
  the running chapter counter moves on by one.

The document is a value tree (`Markup.Node`): text nodes, and elements with a
name, an attribute map and a list of children. The merge is specified on one
sibling list at a time by `SpanMerge.MergePass`. It is implemented by the
imperative `SpanMerge.ChildList.MergeConsecutiveSpans`, whose loops are proved
against that function. `SpanTree.CleanTree` applies it to every element of a
document. `Numbering` holds the three numbering styles, each with a parser
that reads the formatted number back. `Headings` holds the heading recogniser,
the configuration, placeholder marking and placeholder filling. `Cleanup` and
`EpubCleanup` are the two per-document pipelines. `SpanMergeAsWritten` models
the merge loop exactly as the plugin writes it, to exhibit the defects listed
under Findings.

## Model

| member | source | states |
|---|---|---|
| Markup.Strip | calibre-plugin/cleanup.py:322 | `str.strip()`: the text with its leading and trailing whitespace removed (StripLeft, then StripRight) |
| Markup.TextOf | calibre-plugin/cleanup.py:322 | `get_text()`: a text node's characters; for an element, the texts of its children joined in order |
| Markup.FindBody | calibre-plugin/cleanup.py:309-311 | `soup.find('body')`: the children of the first `body` element in document order (the element itself before its children, children left to right); none when the tree holds no `body` |
| Markup.StripEmptyIffBlank | calibre-plugin/cleanup.py:324-325 | a paragraph text strips to "" exactly when every character is whitespace, so "empty after strip" and "blank" are the same test |
| Markup.StripIdempotent | calibre-plugin/cleanup.py:276 | stripping an already stripped text changes nothing |
| Markup.StripKeepsUpTo | calibre-plugin/cleanup.py:276 | stripping a text that starts with non-whitespace keeps every character up to any later non-whitespace character |
| Markup.FindAfterReplace | calibre-plugin/cleanup.py:309-311 | after the children of the first `body` are replaced, the next body lookup returns the new children; a document without a body is left alone |
| Markup.ReplaceBodyText | calibre-plugin/cleanup.py:309-336 | replacing the body's children with children of the same text leaves the document's text unchanged |
| Markup.TextOfSeqConcat | calibre-plugin/cleanup.py:323 | the text of two sibling lists side by side is the first list's text followed by the second's |
| SpanMerge.NextNonBlank | calibre-plugin/cleanup.py:40-49 | the scan for the next sibling skips exactly the whitespace-only text nodes and stops at the first other node or at the end |
| SpanMerge.RunLast | calibre-plugin/cleanup.py:35-60 | the run from a styled span reaches only blank text and spans of the same style, ends on such a span when it grows, and stops where the next non-blank sibling is not a span of that style |
| SpanMerge.LineBreaksToSpaces | calibre-plugin/cleanup.py:89-93 | same length as the input; each `\n` and `\r` becomes a space and every other character is kept |
| SpanMerge.MergeRun | calibre-plugin/cleanup.py:64-112 | a merged run leaves the siblings before and after it untouched; the first span keeps its name and attributes and receives every member's contents and the separating whitespace, in order |
| SpanMerge.GatherConcat | calibre-plugin/cleanup.py:71-94 | collecting the contents of two adjacent pieces of a run is collecting each piece in turn |
| SpanMerge.MergeRunSpanCount | calibre-plugin/cleanup.py:105-112 | merging a run of k spans removes exactly k-1 spans from the sibling list |
| SpanMerge.MergePassLeavesNoRun | calibre-plugin/cleanup.py:22-121 | after a pass no two spans of one style stand side by side with only whitespace between them |
| SpanMerge.MergePassNoRunIdentity | calibre-plugin/cleanup.py:22-121 | a pass over siblings that hold no run changes nothing |
| SpanMerge.MergePassSpanCount | calibre-plugin/cleanup.py:105-121 | a pass never adds spans, and it removes at least one when the siblings hold a run |
| SpanMerge.MergePass | calibre-plugin/cleanup.py:22-121 | the scan from position i: at the end the list is returned; a node that is not a span with a style, or a styled span whose run has one member, moves the scan on by one (lines 29-31, 121); a run of two or more is merged and the same position is scanned again (lines 64-119); it ends because every merge lowers the span count. Its properties are stated by MergePassLeavesNoRun, MergePassNoRunIdentity, MergePassSpanCount and MergePassText |
| SpanMerge.MergeSpans | calibre-plugin/cleanup.py:22-121 | the merge of one sibling list: the pass from position 0; MergeSpansSpec states what it achieves |
| SpanMerge.MergeSpansSpec | calibre-plugin/cleanup.py:9-123 | the merge leaves no run; merging twice is merging once; the merge changes the siblings exactly when they hold a run (the `changes_made` flag); a change lowers the span count |
| SpanMerge.GatherText | calibre-plugin/cleanup.py:71-94 | the collected contents read as the run's text with line breaks turned into spaces, and exactly as the run's text when whitespace is copied verbatim |
| SpanMerge.MergeRunKeepsText | calibre-plugin/cleanup.py:64-112 | a merged run keeps the sibling list's text, up to line breaks becoming spaces, and exactly in verbatim mode |
| SpanMerge.LineBreakSeparatorExample | calibre-plugin/cleanup.py:89-93 | two same-style spans holding x and y with a lone line break between them form one run; with line breaks turned into spaces the merged text is `x y`, and copied verbatim (epub_cleanup.py:98-100) it is `x`, a line break, `y` |
| SpanMerge.EmptyTextEndsRun | calibre-plugin/cleanup.py:39-41 | an empty text node between two same-style spans ends the run, so that list holds no run to merge |
| SpanMerge.MergePassText | calibre-plugin/cleanup.py:22-121 | a whole pass keeps the siblings' text in the same sense |
| SpanMerge.SameUpToLineBreaksTrans | calibre-plugin/cleanup.py:89-93 | "equal once line breaks are read as spaces" is transitive, so text survives any number of merges |
| SpanMerge.RunEnd | calibre-plugin/cleanup.py:35-60 | the sibling walk returns the index of the run's last span, as RunLast defines it |
| SpanMerge.CollectRun | calibre-plugin/cleanup.py:71-94 | the copy loop collects exactly the run's contents and separators, as Gather defines them |
| SpanMerge.ChildList.MergeAt | calibre-plugin/cleanup.py:97-112 | refilling the first span and removing the other members and the whitespace before them leaves the list as MergeRun describes |
| SpanMerge.ChildList.VisitAt | calibre-plugin/cleanup.py:63-121 | given the last span of the run at `i` as the walk found it, one turn of the loop keeps the pass on course to the merge of the original list with no run left before the position, and either moves past the node with the list unchanged or merges the run, lowering the span count and setting the changed flag |
| SpanMerge.ChildList.MergeRunAt | calibre-plugin/cleanup.py:64-119 | merging a run of two or more spans in place keeps the pass on course, sets the changed flag and lowers the span count |
| SpanMerge.ChildList.MergeConsecutiveSpans | calibre-plugin/cleanup.py:9-123 | the list becomes the merge of the old list; the result flag is true exactly when the old list held a run; no run is left |
| SpanTree.CleanTree | calibre-plugin/cleanup.py:9-123 | the whole-document merge: text is left alone; an element keeps its name and attributes, its children are merged as one sibling list and each resulting child is cleaned in turn. Normalize mode is cleanup.py's merge, Verbatim mode the one at epub_cleanup.py:18-130. Its properties are stated by CleanTreeTidy, TidyClean, CleanTreeChanges, CleanTreeIdempotent and CleanTreeText |
| SpanTree.CleanShapes | calibre-plugin/cleanup.py:22 | cleaning the nested elements first does not change which siblings are spans of which style, so every level is merged as in the original tree |
| SpanTree.CleanTreeTidy | calibre-plugin/cleanup.py:9-123 | after the whole-document merge no element holds a run of same-style spans |
| SpanTree.TidyClean | calibre-plugin/cleanup.py:9-123 | a document without runs passes through the merge unchanged |
| SpanTree.CleanTreeIdempotent | calibre-plugin/cleanup.py:9-123 | running the whole-document merge twice is running it once |
| SpanTree.CleanTreeChanges | calibre-plugin/cleanup.py:19-123 | the document-level `changes_made`: the merge returns a different document exactly when some element holds a run of same-style spans |
| SpanTree.CleanTreeText | calibre-plugin/cleanup.py:9-123 | the merge keeps the document's text up to line breaks becoming spaces, and keeps it exactly in verbatim mode (epub_cleanup.py) |
| SpanTree.RunLastShift | calibre-plugin/cleanup.py:35-60 | the walk along a run only looks at later siblings, so two lists that agree from a position on (one shifted) have the same run there |
| SpanTree.InsertKeepsNoRun | calibre-plugin/cleanup.py:335-337 | an element that is not a styled span, inserted after leading text into a list without runs, leaves a list without runs |
| SpanTree.TidyReplaceBody | calibre-plugin/cleanup.py:309-337 | giving the body of a run-free document children that are run-free leaves the whole document run-free |
| Numbering.NatToString | calibre-plugin/cleanup.py:261 | `str(n)` (also line 217): a non-empty string of decimal digits that starts with 0 only when it is "0"; NatToStringRoundTrip reads it back to n |
| Numbering.NatToStringRoundTrip | calibre-plugin/cleanup.py:217 | `str(n)` reads back to n |
| Numbering.NumberToWords | calibre-plugin/cleanup.py:195-217 | 1 to 99 spell as a capitalised word; from 100 on the decimal digits are used |
| Numbering.WordsRoundTrip | calibre-plugin/cleanup.py:195-217 | every spelt number (one word, a teen, a round ten, "Tens Ones", or decimal from 100) parses back to itself |
| Numbering.WordsExamples | test_config_functionality.py:20-30 | One, Five, Ten, Fifteen, Twenty, "Twenty Five", "Ninety Nine", and "5"/"120" for decimal |
| Numbering.NumberToRomanWith | calibre-plugin/cleanup.py:236-242 | the greedy loop over a table of values builds RomanOf for that table |
| Numbering.NumberToRoman | calibre-plugin/cleanup.py:220-242 | the numeral is the greedy one over M CM D CD C XC L XL X IX V IV I, and it reads back to n under the subtractive rule |
| Numbering.RomanOf | calibre-plugin/cleanup.py:230-242 | the greedy numeral over a table of (value, numeral) pairs taken in order: each numeral repeated n // value times, then the remainder n % value over the rest of the table |
| Numbering.RomanOfValue | calibre-plugin/cleanup.py:230-242 | over any descending table of well-formed entries ending in 1, the greedy numeral's value is n |
| Numbering.Roman1994Example | test_config_functionality.py:35-48 | 1994 is written MCMXCIV |
| Numbering.RomanUnitsExamples | test_config_functionality.py:35-48 | 5, 4 and 1 are written V, IV and I |
| Numbering.RomanTensExamples | test_config_functionality.py:35-48 | 50, 10 and 9 are written L, X and IX |
| Numbering.RomanHundredsExamples | test_config_functionality.py:35-48 | 1000, 500 and 100 are written M, D and C |
| Numbering.FormatChapterNumber | calibre-plugin/cleanup.py:245-261 | a style containing "Words" gives NumberToWords(n); otherwise one containing "Roman" gives the greedy Roman numeral; otherwise the decimal form |
| Numbering.FormatChapterNumberReadsBack | calibre-plugin/cleanup.py:245-261 | a style naming "Words" gives words that parse back to n; otherwise one naming "Roman" gives a numeral worth n; otherwise the decimal form of n |
| Numbering.NumericStyleExample | test_config_functionality.py:53-59 | the numeric style writes 5 as "5" |
| Numbering.WordsStyleExample | test_config_functionality.py:53-59 | the words style writes 5 as "Five" |
| Numbering.RomanStyleExample | test_config_functionality.py:53-59 | the Roman style writes 5 as "V" |
| Numbering.NumericStyleName | calibre-plugin/config_dialog.py:112-114 | the numeric style name contains neither "Words" nor "Roman" |
| Numbering.WordsStyleName | calibre-plugin/config_dialog.py:112-114 | the words style name contains "Words" |
| Numbering.RomanStyleName | calibre-plugin/config_dialog.py:112-114 | the Roman style name contains "Roman" and not "Words" |
| Headings.IsExistingChapterHeading | calibre-plugin/cleanup.py:264-289 | true exactly when the stripped text begins, ignoring case, with the configured prefix, whitespace, then a digit, an I/V/X, or two letters |
| Headings.SkipSpaceIsTheOnlyMatch | calibre-plugin/cleanup.py:279-287 | the greedy `\s+` in the patterns loses no match: the only whitespace stretch after the prefix that a number can follow is the longest one |
| Headings.HeadingShapeRecognised | calibre-plugin/cleanup.py:264-289 | prefix, a space and anything that starts like a number is recognised |
| Headings.FirstLetterMismatch | calibre-plugin/cleanup.py:264-289 | a text whose first letter differs from the prefix's, ignoring case, is not a heading |
| Headings.DecimalHeadingExample | test_config_functionality.py:64-75 | "Chapter 1" is recognised |
| Headings.RomanHeadingExample | test_config_functionality.py:64-75 | "Chapter I" is recognised |
| Headings.WordsHeadingExample | test_config_functionality.py:64-75 | "Chapter Five" is recognised |
| Headings.NonHeadingExamples | test_config_functionality.py:64-75 | "Some other text" and "Random paragraph" are not recognised |
| Headings.FormattedStartsNumber | calibre-plugin/cleanup.py:245-283 | every number the formatter writes for a recognisable chapter number starts in a way the recogniser accepts |
| Headings.HeadingText | calibre-plugin/cleanup.py:374-386 | the heading is the initial text, a space and the formatted number, followed by a space and the trailing text only when that text is non-empty; defaults are "Chapter", numeric, "" |
| Headings.BuiltHeadingRecognised | calibre-plugin/cleanup.py:264-289 | a heading the plugin builds, with a prefix starting in non-whitespace and a recognisable number, is recognised as an existing heading |
| Headings.DefaultHeadingExample | test_config_functionality.py:140-160 | with an empty configuration chapter 5 is headed "Chapter 5" |
| Headings.RomanFollowingExample | test_config_functionality.py:191-194 | a Roman-style configuration with trailing text heads chapter 1 "<initial> I <following>" |
| Headings.WordsThreeExample | test_config_functionality.py:221-224 | a words-style configuration with empty trailing text heads chapter 3 "<initial> Three" |
| Headings.FiftyHeadingText | calibre-plugin/cleanup.py:220-261 | in the Roman style, with any initial text, chapter 50 is headed `<initial> L` |
| Headings.FiftyHeadingNotRecognised | calibre-plugin/cleanup.py:279-283 | for any initial text that starts with a non-space character, `<initial> L` matches none of the three patterns |
| Headings.LoneLetterNotRecognised | calibre-plugin/cleanup.py:279-283 | prefix and one letter other than I, V or X is not a heading |
| Headings.FirstElement | calibre-plugin/cleanup.py:313-318 | the first element child of the body, with only text before it; none when the body holds only text |
| Headings.WantsHeading | calibre-plugin/cleanup.py:321-331 | the body's first element is a `p` whose text is blank (strips to empty), or insertion is on and its stripped text is not an existing chapter heading for the configured initial text |
| Headings.Mark | calibre-plugin/cleanup.py:328 | the element with `data-chapter-placeholder` set to "true", its name, other attributes and children kept |
| Headings.AddChapterHeadingsWithConfig | calibre-plugin/cleanup.py:292-339 | a heading is wanted exactly when the first body element is a `p` that is blank, or is not a heading while insertion is on; then the body gets a marked placeholder and the document keeps its text; otherwise nothing changes; the count added is 1 or 0 accordingly |
| Headings.EditBody | calibre-plugin/cleanup.py:321-336 | the body is edited exactly when the first paragraph is blank, or insertion is on and it is not a heading; the edit places a placeholder at that position and keeps the text |
| Headings.MarkKeepsText | calibre-plugin/cleanup.py:324-327 | marking a blank first paragraph makes it the placeholder and keeps the body's text |
| Headings.InsertMarks | calibre-plugin/cleanup.py:329-336 | a new placeholder `p` inserted before the first paragraph is the first element and is marked |
| Headings.InsertKeepsText | calibre-plugin/cleanup.py:329-336 | inserting an empty paragraph keeps the body's text |
| Headings.AddChapterHeadings | epub_cleanup.py:133-168 | the legacy marking reports 1 exactly when it marked something |
| Headings.LegacyMarkingIsConfigured | epub_cleanup.py:133-168 | the legacy marking is the configured marking with insertion off, whatever the configuration |
| Headings.Filled | calibre-plugin/cleanup.py:372-388 | the placeholder with its children replaced by the single text of the heading and its `data-chapter-placeholder` attribute removed; its name and other attributes are kept |
| Headings.FillPlaceholder | calibre-plugin/cleanup.py:370-388 | the search finds a placeholder exactly when the document holds one; without one the document is unchanged; filling one lowers the placeholder count |
| Headings.FillAtMark | calibre-plugin/cleanup.py:370-388 | in a body whose first element is the only placeholder, the fill rewrites that element and reports success |
| Headings.HeadingLands | calibre-plugin/cleanup.py:364-388 | in a document without stray placeholders, a marked document is filled, and the heading text is the first body element |
| Headings.RecognisedHeadingKept | calibre-plugin/cleanup.py:321-336 | a body whose first paragraph holds only a text h that starts with a non-space character and is recognised as a heading gets no new heading |
| Headings.NoSecondHeading | calibre-plugin/cleanup.py:321-336 | a body that starts with the heading the plugin wrote gets no second heading, with or without insertion |
| Cleanup.CleanTreeCount | calibre-plugin/cleanup.py:9-123 | the span merge never creates placeholder paragraphs |
| Cleanup.MarkedCounted | calibre-plugin/cleanup.py:321-336 | a marked document holds at least one placeholder, so the search at line 370 finds one |
| Cleanup.HeadingStage | calibre-plugin/cleanup.py:363-389 | the counter moves on exactly when a heading is wanted; without one the document is unchanged |
| Cleanup.HeadingStagePlaces | calibre-plugin/cleanup.py:363-389 | a wanted heading lands as the first body element, and only the body changes |
| Cleanup.WithHeading | calibre-plugin/cleanup.py:324-388 | the body children after the heading stage: a blank first paragraph keeps its attributes but the placeholder mark and holds only the heading text; before any other first paragraph a new attribute-less `p` holding the heading is inserted |
| Cleanup.HeadingStageResult | calibre-plugin/cleanup.py:363-389 | the exact new body: a blank first paragraph holds the heading and loses its mark; otherwise a heading paragraph stands before the first element |
| Cleanup.WithHeadingTidy | calibre-plugin/cleanup.py:324-337 | the heading paragraph is no span: filling a blank first paragraph or inserting one before it leaves run-free body children run-free |
| Cleanup.HeadingStageTidy | calibre-plugin/cleanup.py:363-389 | the heading stage keeps a run-free document without placeholders run-free |
| Cleanup.ProcessXhtmlContentWithConfig | calibre-plugin/cleanup.py:342-391 | the counter moves on exactly when chapters are on and the (cleaned) document wants a heading; with no heading the text is kept up to line breaks, the document is unchanged when cleanup is off, and no span run is left when it is on |
| Cleanup.ProcessPlacesHeading | calibre-plugin/cleanup.py:342-391 | when the counter moves on, the heading is the first body element of the cleaned document and nothing outside the body changed |
| Cleanup.ProcessKeepsTidy | calibre-plugin/cleanup.py:342-391 | with cleanup on, the output holds no run of same-style spans, whether or not a heading was written |
| Cleanup.SecondRunChangesNothing | calibre-plugin/cleanup.py:342-391 | for a document without placeholders and a heading the recogniser accepts, processing the output again with the advanced counter returns the same document and counter |
| Cleanup.BlankParagraphFilled | calibre-plugin/cleanup.py:324-327 | without insertion the heading replaces the contents of the blank first paragraph, which loses its mark and keeps its other attributes |
| Cleanup.EmptyParagraphTakesHeading | test_config_functionality.py:140-160 | a body that starts with an empty `p` gets it filled with the heading and the counter moves on |
| Cleanup.HeadingInsertedInFront | test_config_functionality.py:80-134 | with insertion on, a body starting with a non-heading paragraph gets a new heading paragraph in front of it |
| Cleanup.EmptyParagraphExample | test_config_functionality.py:140-160 | chapter 5 with the default configuration: the empty paragraph reads "Chapter 5" and the counter becomes 6 |
| Cleanup.DefaultHeading | calibre-plugin/cleanup.py:374-386 | with no configuration the heading is "Chapter" and the decimal number, as in the legacy pipeline |
| Cleanup.LegacyHeadingStage | calibre-plugin/cleanup.py:181-190 | the legacy heading stage equals the configured one with the default configuration and insertion off |
| Cleanup.ProcessXhtmlContent | calibre-plugin/cleanup.py:164-192 | the plugin's older entry point equals the configured one with default configuration, cleanup on and chapters on |
| EpubCleanup.ProcessXhtmlContent | epub_cleanup.py:171-199 | the counter moves on exactly when the merged document's first paragraph is blank; with no heading the text is kept exactly and no span run is left |
| EpubCleanup.HeadingReplacesBlankParagraph | epub_cleanup.py:181-197 | the heading "Chapter n" replaces the blank first paragraph's contents and removes its mark |
| SpanMergeAsWritten.MergeRunAsWritten | calibre-plugin/cleanup.py:64-112 | the loop as written also leaves the siblings outside the run untouched |
| SpanMergeAsWritten.IdenticalSpansLoseText | calibre-plugin/cleanup.py:76-81 | two identical spans around a space read "a a", the loop as written leaves "a", the corrected merge keeps "a a" |
| SpanMergeAsWritten.SkippedChildLost | calibre-plugin/cleanup.py:78-88 | a first span holding two tags loses the second: "xy z" becomes "x z" as written and stays "xy z" when corrected |
| SpanMergeAsWritten.ContentsOfTextAsWritten | calibre-plugin/cleanup.py:83-84 | a span holding only text is copied whole even by the loop as written |

## Left out

- Parsing and serialisation (`BeautifulSoup(content, 'lxml-xml')`, `str(soup)`) are not modelled. The document is taken and returned as a tree.
- The whole-document merge is modelled top-down, one sibling list at a time (`SpanTree.CleanTree`). It does not follow the source's document-order list of spans, which is rebuilt after every merge. Both merge the same runs, because merging inside an element does not change which of its siblings are spans of which style (`SpanTree.CleanShapes`).
- The source removes the whitespace text and the later spans of a run one node at a time. `SpanMerge.ChildList.MergeAt` replaces the run's slice of the sibling list in one step.
- Run members are identified by their position. The source identifies them by structural `==` and by extracting while iterating, which are the two defects under Findings.
- The `\d` class and `re.IGNORECASE` are modelled for ASCII only. Unicode digits and the case folding of non-ASCII letters are left out.
- The chapter counter is a `nat`. Negative numbers, for which `number_to_words` would index its tables from the end, are not modelled.
- `Numbering.NumberToWords`: 0 is spelt as the empty string, as the source does. Its contract says nothing for 0, and `Headings.Recognisable` excludes it.
- The `insert_heading` setting is modelled as a `bool`. Other Python values are not.
- `Cleanup.ProcessXhtmlContentWithConfig`: when a heading is written, the text of the output is not related to the input text. Only where the heading lands and what else changes is proved (`Cleanup.ProcessPlacesHeading`, `Cleanup.HeadingStageResult`).
- The heading recogniser rejects the Roman numerals L, C, D and M standing alone (`Headings.FiftyHeadingNotRecognised`). The plugin therefore does not recognise its own headings for chapters 50, 100, 500 and 1000. `Cleanup.SecondRunChangesNothing` requires a recognisable number for this reason.
- The test at test_epub_cleanup.py:62-71 expects "I am badly formatted". Its HTML is parsed first, and the parser turns the whitespace-only text " \n" between the first two spans into "\n". On that text the plugin's merge, which turns line breaks into spaces, gives exactly "I am badly formatted" (`SpanMerge.LineBreakSeparatorExample`). The merge of epub_cleanup.py copies the separator verbatim and gives "I\nam badly formatted", so that test fails there.
- Parsing is not modelled. A parser collapses whitespace-only ASCII text to "\n" or " " and produces no empty text nodes. The model's trees may hold text that parsing never produces, such as " \n" or "". An empty text node ends a run, as the source's truthiness test does (`SpanMerge.EmptyTextEndsRun`).
- The node model has only text and elements. Comments, CDATA sections and processing instructions, which BeautifulSoup represents as `NavigableString` subclasses, are not modelled. So it is not captured that a whitespace-only comment between two spans continues a run (calibre-plugin/cleanup.py:42-46), that such a node between run members is copied into the merged span as text (lines 89-93), or that a comment inside a member becomes plain text there (lines 79, 84, 88).
- `process_epub`, `process_file`, `create_epub` and `main` in epub_cleanup.py are not part of this model. They are archive and file I/O.
- calibre-plugin/main.py, calibre-plugin/__init__.py and calibre-plugin/config_dialog.py are not part of this model. They are calibre user interface and preference storage. Only the three numbering style names are taken from config_dialog.py.

## Findings

| source | as written | input that shows it | evidently intended | confidence | as-written member | corrected member |
|---|---|---|---|---|---|---|
| calibre-plugin/cleanup.py:76-85 (also epub_cleanup.py) | run members are recognised with `==`, which compares tags by name, attributes and contents | `<span style="color:red">a</span> <span style="color:red">a</span>`: the first span equals the last, so the walk stops at once and the text "a a" becomes "a" | walk the run by position and keep every member's text | high; not executed | SpanMergeAsWritten.IdenticalSpansLoseText | SpanMerge.MergeRunKeepsText |
| calibre-plugin/cleanup.py:78-88 (also epub_cleanup.py) | tags are extracted from `current.contents` while iterating over that list, so the child after each extracted tag is skipped and then destroyed with its span | `<span style="color:red"><b>x</b><i>y</i></span> <span style="color:red">z</span>`: "xy z" becomes "x z" | copy every child of every member | high; not executed | SpanMergeAsWritten.SkippedChildLost | SpanMerge.MergeRunKeepsText |
