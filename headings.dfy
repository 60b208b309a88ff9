/**
 * Chapter headings: recognising a paragraph that already is a heading,
 * marking the first paragraph of the body as the place for a new heading,
 * and filling the marked paragraph with the heading text.
 */
module Headings {
  import opened Markup
  import opened Numbering

  // ----- `is_existing_chapter_heading` -----

  predicate IsLetter(c: char) {
    ('A' <= c <= 'Z') || ('a' <= c <= 'z')
  }

  function Lower(c: char): char {
    if 'A' <= c <= 'Z' then (c - 'A' + 'a') as char else c
  }

  /** Equal up to the case of ASCII letters, as `re.IGNORECASE` compares an
      escaped literal. */
  predicate FoldEq(a: string, b: string) {
    |a| == |b| && forall k :: 0 <= k < |a| ==> Lower(a[k]) == Lower(b[k])
  }

  /** What may follow the prefix and the spaces: a digit (`\d+`), a Roman
      numeral letter (`[IVX]+`) or two letters (`[A-Z][a-z]+`), the letters
      in either case. */
  predicate StartsNumber(u: string) {
    u != [] && (IsDigit(u[0]) || u[0] in "IVXivx" || (|u| >= 2 && IsLetter(u[0]) && IsLetter(u[1])))
  }

  /** The three patterns as one regular expression, matched at the start of
      `t`: the prefix, one or more whitespace characters, then a number. */
  predicate MatchesHeading(t: string, prefix: string) {
    |prefix| <= |t| && FoldEq(t[..|prefix|], prefix)
    && exists j :: |prefix| < j <= |t| && IsBlank(t[|prefix|..j]) && StartsNumber(t[j..])
  }

  /** The end of the run of whitespace that starts at `i`. */
  function SkipSpace(t: string, i: nat): (j: nat)
    requires i <= |t|
    ensures i <= j <= |t| && IsBlank(t[i..j])
    ensures j == |t| || !IsWhitespace(t[j])
    decreases |t| - i
  {
    if i < |t| && IsWhitespace(t[i]) then
      var j := SkipSpace(t, i + 1);
      assert t[i..j] == [t[i]] + t[i + 1..j];
      j
    else i
  }

  /** A paragraph text is taken for a chapter heading exactly when, once
      stripped, it matches one of the patterns. */
  function IsExistingChapterHeading(text: string, prefix: string): (r: bool)
    ensures r <==> MatchesHeading(Strip(text), prefix)
  {
    var t := Strip(text);
    if |prefix| <= |t| && FoldEq(t[..|prefix|], prefix) then
      var j := SkipSpace(t, |prefix|);
      SkipSpaceIsTheOnlyMatch(t, |prefix|);
      j > |prefix| && StartsNumber(t[j..])
    else false
  }

  /** The whitespace run the pattern needs can end nowhere but where the
      scan stops. */
  lemma SkipSpaceIsTheOnlyMatch(t: string, i: nat)
    requires i <= |t|
    ensures forall j :: i < j <= |t| && IsBlank(t[i..j]) && StartsNumber(t[j..]) ==> j == SkipSpace(t, i)
  {
    var s := SkipSpace(t, i);
    forall j | i < j <= |t| && IsBlank(t[i..j]) && StartsNumber(t[j..])
      ensures j == s
    {
      assert t[j..][0] == t[j];
    }
  }

  /** A text that begins with the prefix, a space and something that starts
      like a number matches. */
  lemma BeginsLikeHeading(t: string, prefix: string, w: string)
    requires prefix + " " + w <= t && StartsNumber(w)
    ensures MatchesHeading(t, prefix)
  {
    var p := |prefix|;
    assert t[..p] == prefix;
    assert t[p..p + 1] == " ";
    assert t[p + 1..][0] == w[0];
    assert |w| >= 2 ==> t[p + 1..][1] == w[1];
    assert StartsNumber(t[p + 1..]);
  }

  /** A prefix that starts with a non-whitespace character, one space and
      something that starts like a number are recognised. */
  lemma HeadingShapeRecognised(prefix: string, u: string)
    requires prefix != [] && !IsWhitespace(prefix[0]) && StartsNumber(u)
    ensures IsExistingChapterHeading(prefix + " " + u, prefix)
  {
    var s := prefix + " " + u;
    var p := |prefix|;
    var k := if |u| >= 2 && IsLetter(u[1]) then 2 else 1;
    var w := u[..k];
    assert StartsNumber(w);
    assert s[0] == prefix[0] && s[p + k] == u[k - 1];
    StripKeepsUpTo(s, p + k);
    assert s[..p + k + 1] == prefix + " " + w;
    BeginsLikeHeading(Strip(s), prefix, w);
  }

  /** A text whose first character is not the prefix's, in either case, is
      not a heading. */
  lemma FirstLetterMismatch(text: string, prefix: string)
    requires text != [] && prefix != [] && !IsWhitespace(text[0])
    requires Lower(text[0]) != Lower(prefix[0])
    ensures !IsExistingChapterHeading(text, prefix)
  {
    StripKeepsUpTo(text, 0);
    var t := Strip(text);
    if |prefix| <= |t| {
      assert t[..|prefix|][0] == t[0] == text[0];
    }
  }

  /** The recogniser on the texts its tests take for headings. */
  lemma DecimalHeadingExample()
    ensures IsExistingChapterHeading("Chapter 1", "Chapter")
  {
    assert "Chapter 1" == "Chapter" + " " + "1";
    HeadingShapeRecognised("Chapter", "1");
  }

  lemma RomanHeadingExample()
    ensures IsExistingChapterHeading("Chapter I", "Chapter")
  {
    assert "Chapter I" == "Chapter" + " " + "I";
    HeadingShapeRecognised("Chapter", "I");
  }

  lemma WordsHeadingExample()
    ensures IsExistingChapterHeading("Chapter Five", "Chapter")
  {
    assert "Chapter Five" == "Chapter" + " " + "Five";
    HeadingShapeRecognised("Chapter", "Five");
  }

  /** Paragraphs the tests do not take for headings. */
  lemma NonHeadingExamples()
    ensures !IsExistingChapterHeading("Some other text", "Chapter")
    ensures !IsExistingChapterHeading("Random paragraph", "Chapter")
  {
    var a, b, c := "Some other text", "Random paragraph", "Chapter";
    assert a[0] == 'S' && b[0] == 'R' && c[0] == 'C';
    FirstLetterMismatch(a, c);
    FirstLetterMismatch(b, c);
  }

  // ----- which built headings the recogniser takes back -----

  /** Every character is a Roman numeral symbol. */
  predicate AllSymbols(s: string) {
    forall k :: 0 <= k < |s| ==> SymbolValue(s[k]) > 0
  }

  lemma {:induction false} RepeatSymbols(m: string, count: int)
    requires AllSymbols(m)
    ensures AllSymbols(Repeat(m, count))
    decreases count
  {
    if count > 0 {
      RepeatSymbols(m, count - 1);
      assert Repeat(m, count) == m + Repeat(m, count - 1);
    }
  }

  lemma {:induction false} RomanOfSymbols(n: nat, table: seq<(Positive, string)>)
    requires forall k :: 0 <= k < |table| ==> AllSymbols(table[k].1)
    ensures AllSymbols(RomanOf(n, table))
  {
    if table != [] {
      var (value, numeral) := table[0];
      assert AllSymbols(table[0].1);
      RepeatSymbols(numeral, n / value);
      RomanOfSymbols(n % value, table[1..]);
    }
  }

  lemma NumeralsSymbols()
    ensures forall k :: 0 <= k < |Numerals| ==> AllSymbols(Numerals[k].1)
  {
    assert AllSymbols("M") && AllSymbols("CM") && AllSymbols("D") && AllSymbols("CD") && AllSymbols("C");
    assert AllSymbols("XC") && AllSymbols("L") && AllSymbols("XL") && AllSymbols("X");
    assert AllSymbols("IX") && AllSymbols("V") && AllSymbols("IV") && AllSymbols("I");
  }

  /** Word spellings begin with two letters. */
  predicate TwoLetters(w: string) {
    |w| >= 2 && IsLetter(w[0]) && IsLetter(w[1])
  }

  lemma WordTablesLetters()
    ensures forall k :: 1 <= k < 10 ==> TwoLetters(Ones[k])
    ensures forall k :: 0 <= k < 10 ==> TwoLetters(Teens[k])
    ensures forall k :: 2 <= k < 10 ==> TwoLetters(Tens[k])
  {}

  /** The numbers whose spelling the recogniser takes back: words need a
      number from one on (zero is spelt as nothing), and a Roman numeral
      needs a leading I, V or X or a second letter, which 50, 100, 500 and
      1000 (L, C, D and M) lack. */
  predicate Recognisable(n: nat, style: string) {
    if Contains(style, "Words") then n >= 1
    else if Contains(style, "Roman") then n >= 1 && n != 50 && n != 100 && n != 500 && n != 1000
    else true
  }

  lemma FormattedStartsNumber(n: nat, style: string)
    requires Recognisable(n, style)
    ensures StartsNumber(FormatChapterNumber(n, style))
  {
    var r := FormatChapterNumber(n, style);
    if Contains(style, "Words") {
      if n < 100 {
        WordTablesLetters();
        if n >= 20 {
          var t := Tens[n / 10];
          assert TwoLetters(t);
          assert r[0] == t[0] && r[1] == t[1];
        }
      } else {
        assert r[0] == r[0..1][0];
      }
    } else if Contains(style, "Roman") {
      NumeralsSymbols();
      RomanOfSymbols(n, Numerals);
      assert r == RomanOf(n, Numerals);
      NumeralsReadBack(n);
      if |r| == 1 {
        assert RomanValue(r) == SymbolValue(r[0]);
      }
    }
  }

  /** Whatever follows a number does not change how it starts. */
  lemma StartsNumberExtend(u: string, v: string)
    requires StartsNumber(u)
    ensures StartsNumber(u + v)
  {
    assert (u + v)[0] == u[0];
    if |u| >= 2 {
      assert (u + v)[1] == u[1];
    }
  }

  // ----- the heading text -----

  /** The plugin settings the heading code reads; an absent key takes the
      default `config.get` is given. */
  datatype Config = Config(
    initialText: Option<string>,
    numberingStyle: Option<string>,
    textFollowing: Option<string>,
    insertHeading: Option<bool>)

  function Get<T>(o: Option<T>, fallback: T): T {
    if o.Some? then o.value else fallback
  }

  function InitialText(cfg: Config): string {
    Get(cfg.initialText, "Chapter")
  }

  function NumberingStyle(cfg: Config): string {
    Get(cfg.numberingStyle, NumericStyle)
  }

  function TextFollowing(cfg: Config): string {
    Get(cfg.textFollowing, "")
  }

  function InsertHeading(cfg: Config): bool {
    Get(cfg.insertHeading, false)
  }

  /** Python's `sep.join(parts)`. */
  function Join(parts: seq<string>, sep: string): string {
    if parts == [] then ""
    else if |parts| == 1 then parts[0]
    else parts[0] + sep + Join(parts[1..], sep)
  }

  /** The heading: the initial text and the formatted number, then the
      following text when there is one, separated by single spaces. */
  function HeadingText(n: nat, cfg: Config): (r: string)
    ensures var num := FormatChapterNumber(n, NumberingStyle(cfg));
      r == InitialText(cfg) + " " + num + (if TextFollowing(cfg) == "" then "" else " " + TextFollowing(cfg))
  {
    var initial, num, following := InitialText(cfg), FormatChapterNumber(n, NumberingStyle(cfg)), TextFollowing(cfg);
    JoinHeading(initial, num, following);
    Join(HeadingParts(initial, num, following), " ")
  }

  /** `heading_parts`: the following text is appended only when non-empty. */
  function HeadingParts(initial: string, num: string, following: string): seq<string> {
    if following != "" then [initial, num, following] else [initial, num]
  }

  lemma JoinHeading(initial: string, num: string, following: string)
    ensures Join(HeadingParts(initial, num, following), " ")
      == initial + " " + num + (if following == "" then "" else " " + following)
  {
    var parts := HeadingParts(initial, num, following);
    if following != "" {
      assert parts[1..] == [num, following] && parts[1..][1..] == [following];
      assert Join(parts[1..], " ") == num + " " + following;
      assert initial + " " + (num + " " + following) == initial + " " + num + (" " + following);
    } else {
      assert parts[1..] == [num];
    }
  }

  /** A heading the plugin builds is taken for an existing heading on a
      later run, when the initial text starts with a non-whitespace
      character and the number is one the patterns can see. */
  lemma BuiltHeadingRecognised(n: nat, cfg: Config)
    requires InitialText(cfg) != [] && !IsWhitespace(InitialText(cfg)[0])
    requires Recognisable(n, NumberingStyle(cfg))
    ensures IsExistingChapterHeading(HeadingText(n, cfg), InitialText(cfg))
  {
    var num := FormatChapterNumber(n, NumberingStyle(cfg));
    var tail := if TextFollowing(cfg) == "" then "" else " " + TextFollowing(cfg);
    FormattedStartsNumber(n, NumberingStyle(cfg));
    StartsNumberExtend(num, tail);
    assert HeadingText(n, cfg) == InitialText(cfg) + " " + (num + tail);
    HeadingShapeRecognised(InitialText(cfg), num + tail);
  }

  /** The numbering defaults: "Chapter 5". */
  lemma DefaultHeadingExample()
    ensures HeadingText(5, Config(None, None, None, None)) == "Chapter 5"
  {
    NumericStyleExample();
    PlainHeading(5, Config(None, None, None, None), "5");
  }

  /** The prefix, one character and a single letter other than I, V and X
      do not match. */
  lemma LoneLetterNoMatch(u: string, prefix: string, c: char)
    requires |u| == |prefix| + 2 && u[|prefix| + 1] == c
    requires IsLetter(c) && c !in "IVXivx"
    ensures !MatchesHeading(u, prefix)
  {
    assert u[|prefix| + 1..] == [c];
  }

  /** A heading whose number is a single letter other than I, V and X is not
      recognised. */
  lemma LoneLetterNotRecognised(prefix: string, c: char)
    requires prefix != [] && !IsWhitespace(prefix[0])
    requires IsLetter(c) && c !in "IVXivx"
    ensures !IsExistingChapterHeading(prefix + " " + [c], prefix)
  {
    var t := prefix + " " + [c];
    assert |t| == |prefix| + 2 && t[0] == prefix[0] && t[|prefix| + 1] == c;
    StripUnchanged(t);
    LoneLetterNoMatch(t, prefix, c);
  }

  /** Without following text the heading is the initial text, a space and
      the number. */
  lemma PlainHeading(n: nat, cfg: Config, num: string)
    requires FormatChapterNumber(n, NumberingStyle(cfg)) == num && TextFollowing(cfg) == ""
    ensures HeadingText(n, cfg) == InitialText(cfg) + " " + num
  {}

  lemma FollowedHeading(n: nat, cfg: Config, num: string, following: string)
    requires FormatChapterNumber(n, NumberingStyle(cfg)) == num && TextFollowing(cfg) == following != ""
    ensures HeadingText(n, cfg) == InitialText(cfg) + " " + num + " " + following
  {}

  /** Roman numbering with following text: chapter 1 reads, for instance,
      "Chapter I - The Beginning". */
  lemma RomanFollowingExample(initial: string, following: string)
    requires following != ""
    ensures HeadingText(1, Config(Some(initial), Some(RomanStyle), Some(following), None)) == initial + " I " + following
  {
    var cfg := Config(Some(initial), Some(RomanStyle), Some(following), None);
    RomanOneExample();
    FollowedHeading(1, cfg, "I", following);
    assert initial + " " + "I" + " " + following == initial + " I " + following;
  }

  /** Words numbering: chapter 3 reads, for instance, "Chapter Three". */
  lemma WordsThreeExample(initial: string)
    ensures HeadingText(3, Config(Some(initial), Some(WordsStyle), Some(""), None)) == initial + " Three"
  {
    WordsThreeStyleExample();
    PlainHeading(3, Config(Some(initial), Some(WordsStyle), Some(""), None), "Three");
    assert initial + " " + "Three" == initial + " Three";
  }

  /** The Roman style numbers chapter fifty with the lone numeral L ... */
  lemma FiftyHeadingText(initial: string)
    ensures HeadingText(50, Config(Some(initial), Some(RomanStyle), None, None)) == initial + " L"
  {
    var cfg := Config(Some(initial), Some(RomanStyle), None, None);
    FiftyIsL();
    PlainHeading(50, cfg, "L");
    assert initial + " " + "L" == initial + " L";
  }

  lemma FiftyIsL()
    ensures FormatChapterNumber(50, RomanStyle) == "L"
  {
    RomanStyleName();
    RomanTensExamples();
  }

  /** ... which the patterns do not take for a heading. */
  lemma FiftyHeadingNotRecognised(initial: string)
    requires initial != [] && !IsWhitespace(initial[0])
    ensures !IsExistingChapterHeading(initial + " L", initial)
  {
    assert initial + " L" == initial + " " + ['L'];
    LoneLetterNotRecognised(initial, 'L');
  }

  // ----- marking the first paragraph: `add_chapter_headings_with_config` -----

  const PlaceholderKey: string := "data-chapter-placeholder"

  /** An element carrying the placeholder attribute with the value "true". */
  predicate IsPlaceholder(n: Node) {
    n.Elem? && PlaceholderKey in n.attrs && n.attrs[PlaceholderKey] == "true"
  }

  /** Position of the first element among the body's children. */
  function FirstElement(kids: seq<Node>): (r: Option<nat>)
    ensures r.Some? ==> r.value < |kids| && kids[r.value].Elem?
    ensures r.Some? ==> forall k :: 0 <= k < r.value ==> kids[k].Text?
    ensures r.None? ==> forall k :: 0 <= k < |kids| ==> kids[k].Text?
  {
    if kids == [] then None
    else if kids[0].Elem? then Some(0)
    else match FirstElement(kids[1..])
      case None => None
      case Some(k) => Some(k + 1)
  }

  /** The body's first element, when it is a paragraph. */
  function FirstParagraph(doc: Node): Option<Node> {
    match FindBody(doc)
    case None => None
    case Some(kids) =>
      match FirstElement(kids)
      case None => None
      case Some(i) => if kids[i].name == "p" then Some(kids[i]) else None
  }

  /** The element marked for the heading. */
  function Mark(n: Node): Node
    requires n.Elem?
  {
    Elem(n.name, n.attrs[PlaceholderKey := "true"], n.children)
  }

  /** The empty paragraph inserted in front of a non-empty one. */
  const NewPlaceholder: Node := Elem("p", map[PlaceholderKey := "true"], [])

  /** The body's first element is a marked paragraph. */
  predicate MarkedFirst(doc: Node) {
    FindBody(doc).Some? && FirstElement(FindBody(doc).value).Some?
    && var kids := FindBody(doc).value;
    var p := kids[FirstElement(kids).value];
    p.name == "p" && IsPlaceholder(p)
  }

  /** Whether the first paragraph calls for a heading: it is blank, or
      headings are inserted and it is not one already. */
  predicate WantsHeading(doc: Node, cfg: Config, insertAsP: bool) {
    FirstParagraph(doc).Some?
    && var text := TextOf(FirstParagraph(doc).value);
    IsBlank(text) || (insertAsP && !IsExistingChapterHeading(Strip(text), InitialText(cfg)))
  }

  /** The outcome of marking: the document, whether it changed and how many
      chapters it adds. */
  datatype Marking = Marking(doc: Node, changed: bool, added: nat)

  /** A blank first paragraph is marked; otherwise, when headings are
      inserted and the paragraph is not a heading, an empty marked paragraph
      goes in front of it. The document text never changes. */
  function AddChapterHeadingsWithConfig(doc: Node, cfg: Config, insertAsP: bool): (m: Marking)
    ensures m.changed <==> WantsHeading(doc, cfg, insertAsP)
    ensures m.added == (if m.changed then 1 else 0)
    ensures !m.changed ==> m.doc == doc
    ensures m.changed ==> MarkedFirst(m.doc)
    ensures m.changed ==> m.doc == ReplaceBody(doc, FindBody(m.doc).value)
    ensures TextOf(m.doc) == TextOf(doc)
  {
    match MarkedChildren(doc, cfg, insertAsP)
    case None => Marking(doc, false, 0)
    case Some(marked) => Marking(ReplaceBody(doc, marked), true, 1)
  }

  /** The body children after marking, when the first paragraph wants a
      heading. */
  function MarkedChildren(doc: Node, cfg: Config, insertAsP: bool): (r: Option<seq<Node>>)
    ensures r.Some? <==> WantsHeading(doc, cfg, insertAsP)
    ensures r.Some? ==> FindBody(doc).Some? && MarkedFirst(ReplaceBody(doc, r.value))
    ensures r.Some? ==> FindBody(ReplaceBody(doc, r.value)) == Some(r.value)
    ensures r.Some? ==> TextOf(ReplaceBody(doc, r.value)) == TextOf(doc)
  {
    match FindBody(doc)
    case None => None
    case Some(kids) =>
      match FirstElement(kids)
      case None => None
      case Some(i) =>
        if kids[i].name != "p" then None
        else
          match EditBody(kids, i, cfg, insertAsP)
          case None => None
          case Some(marked) =>
            MarkedBody(doc, marked, i);
            Some(marked)
  }

  /** When a heading is wanted, marking edits the body's children at the
      first element. */
  lemma MarkingEditsBody(doc: Node, cfg: Config, insertAsP: bool)
    requires WantsHeading(doc, cfg, insertAsP)
    ensures FindBody(doc).Some? && FirstElement(FindBody(doc).value).Some?
    ensures var kids := FindBody(doc).value;
      var i := FirstElement(kids).value;
      kids[i].name == "p" && EditBody(kids, i, cfg, insertAsP).Some?
      && AddChapterHeadingsWithConfig(doc, cfg, insertAsP).doc == ReplaceBody(doc, EditBody(kids, i, cfg, insertAsP).value)
  {
  }

  /** The body children with the first paragraph, at `i`, marked or with a
      marked paragraph in front of it; nothing when it needs no heading. */
  function EditBody(kids: seq<Node>, i: nat, cfg: Config, insertAsP: bool): (r: Option<seq<Node>>)
    requires i < |kids| && kids[i].Elem? && kids[i].name == "p"
    requires forall k :: 0 <= k < i ==> kids[k].Text?
    ensures r.Some? <==> (IsBlank(TextOf(kids[i]))
      || (insertAsP && !IsExistingChapterHeading(Strip(TextOf(kids[i])), InitialText(cfg))))
    ensures r.Some? ==> MarkedAt(r.value, i) && TextOfSeq(r.value) == TextOfSeq(kids)
  {
    var text := Strip(TextOf(kids[i]));
    StripEmptyIffBlank(TextOf(kids[i]));
    if text == "" then
      MarkKeepsText(kids, i);
      Some(kids[i := Mark(kids[i])])
    else if insertAsP && !IsExistingChapterHeading(text, InitialText(cfg)) then
      InsertMarks(kids, i);
      NewPlaceholderIsMarked();
      InsertKeepsText(kids, i, NewPlaceholder);
      Some(kids[..i] + [NewPlaceholder] + kids[i..])
    else None
  }

  /** A marked paragraph at `i` with only text before it. */
  predicate MarkedAt(kids: seq<Node>, i: nat) {
    i < |kids| && IsPlaceholder(kids[i]) && kids[i].name == "p"
    && forall k :: 0 <= k < i ==> kids[k].Text?
  }

  lemma MarkKeepsText(kids: seq<Node>, i: nat)
    requires i < |kids| && kids[i].Elem? && kids[i].name == "p"
    requires forall k :: 0 <= k < i ==> kids[k].Text?
    ensures MarkedAt(kids[i := Mark(kids[i])], i)
    ensures TextOfSeq(kids[i := Mark(kids[i])]) == TextOfSeq(kids)
  {
    var marked := kids[i := Mark(kids[i])];
    assert kids == kids[..i] + [kids[i]] + kids[i + 1..];
    assert marked == kids[..i] + [Mark(kids[i])] + kids[i + 1..];
    TextOfSeqConcat(kids[..i] + [kids[i]], kids[i + 1..]);
    TextOfSeqConcat(kids[..i], [kids[i]]);
    TextOfSeqConcat(kids[..i] + [Mark(kids[i])], kids[i + 1..]);
    TextOfSeqConcat(kids[..i], [Mark(kids[i])]);
  }

  lemma NewPlaceholderIsMarked()
    ensures IsPlaceholder(NewPlaceholder) && NewPlaceholder.name == "p" && TextOf(NewPlaceholder) == ""
  {}

  lemma InsertMarks(kids: seq<Node>, i: nat)
    requires i <= |kids| && forall k :: 0 <= k < i ==> kids[k].Text?
    ensures MarkedAt(kids[..i] + [NewPlaceholder] + kids[i..], i)
  {
    var r := kids[..i] + [NewPlaceholder] + kids[i..];
    NewPlaceholderIsMarked();
    assert r[i] == NewPlaceholder;
    assert forall k :: 0 <= k < i ==> r[k] == kids[k];
  }

  lemma InsertKeepsText(kids: seq<Node>, i: nat, x: Node)
    requires i <= |kids| && TextOf(x) == ""
    ensures TextOfSeq(kids[..i] + [x] + kids[i..]) == TextOfSeq(kids)
  {
    var front, back := kids[..i], kids[i..];
    SplitTwo(kids, i);
    TextOfSeqConcat(front, back);
    TextOfSeqConcat(front + [x], back);
    TextOfSeqConcat(front, [x]);
    TextOfSeqOne(x);
  }

  /** Marked body children with the mark at position `i` and only text
      before it make the body's first element the marked paragraph, and
      keep the document text. */
  lemma MarkedBody(doc: Node, marked: seq<Node>, i: nat)
    requires FindBody(doc).Some? && TextOfSeq(marked) == TextOfSeq(FindBody(doc).value)
    requires MarkedAt(marked, i)
    ensures MarkedFirst(ReplaceBody(doc, marked))
    ensures FindBody(ReplaceBody(doc, marked)) == Some(marked)
    ensures TextOf(ReplaceBody(doc, marked)) == TextOf(doc)
  {
    FindAfterReplace(doc, marked);
    ReplaceBodyText(doc, marked);
    FirstElementAt(marked, i);
  }

  lemma FirstElementAt(kids: seq<Node>, i: nat)
    requires i < |kids| && kids[i].Elem? && forall k :: 0 <= k < i ==> kids[k].Text?
    ensures FirstElement(kids) == Some(i)
  {
  }

  /** The older marker, `add_chapter_headings`: only a blank first paragraph
      is marked. */
  function AddChapterHeadings(doc: Node): (m: Marking)
    ensures m.added == (if m.changed then 1 else 0)
  {
    match FindBody(doc)
    case None => Marking(doc, false, 0)
    case Some(kids) =>
      match FirstElement(kids)
      case None => Marking(doc, false, 0)
      case Some(i) =>
        if kids[i].name == "p" && Strip(TextOf(kids[i])) == "" then
          Marking(ReplaceBody(doc, kids[i := Mark(kids[i])]), true, 1)
        else Marking(doc, false, 0)
  }

  /** The older marker is the configurable one with insertion off, whatever
      the settings. */
  lemma LegacyMarkingIsConfigured(doc: Node, cfg: Config)
    ensures AddChapterHeadings(doc) == AddChapterHeadingsWithConfig(doc, cfg, false)
  {
    match FindBody(doc)
    case None =>
    case Some(kids) =>
      match FirstElement(kids)
      case None =>
      case Some(i) =>
        StripEmptyIffBlank(TextOf(kids[i]));
  }

  // ----- filling the placeholder -----

  /** Number of placeholder elements in a tree. */
  function PlaceholderCount(n: Node): nat
    decreases Size(n)
  {
    match n
    case Text(_) => 0
    case Elem(_, _, children) => (if IsPlaceholder(n) then 1 else 0) + PlaceholderCountSeq(children)
  }

  function PlaceholderCountSeq(ns: seq<Node>): nat
    decreases SizeSeq(ns)
  {
    if ns == [] then 0 else PlaceholderCount(ns[0]) + PlaceholderCountSeq(ns[1..])
  }

  /** The placeholder emptied, given the heading as its only text, and
      stripped of the placeholder attribute. */
  function Filled(n: Node, heading: string): Node
    requires n.Elem?
  {
    Elem(n.name, n.attrs - {PlaceholderKey}, [Text(heading)])
  }

  /** The first placeholder in document order, the one
      `soup.find(attrs=...)` returns, filled with the heading; the flag says
      whether there was one. */
  function FillPlaceholder(n: Node, heading: string): (r: (Node, bool))
    ensures r.1 <==> PlaceholderCount(n) > 0
    ensures !r.1 ==> r.0 == n
    ensures r.1 ==> PlaceholderCount(r.0) < PlaceholderCount(n)
    decreases Size(n)
  {
    match n
    case Text(_) => (n, false)
    case Elem(name, attrs, children) =>
      if IsPlaceholder(n) then
        assert !IsPlaceholder(Filled(n, heading));
        assert PlaceholderCountSeq([Text(heading)]) == 0;
        (Filled(n, heading), true)
      else
        var (cs, found) := FillPlaceholderIn(children, heading);
        (Elem(name, attrs, cs), found)
  }

  function FillPlaceholderIn(ns: seq<Node>, heading: string): (r: (seq<Node>, bool))
    ensures r.1 <==> PlaceholderCountSeq(ns) > 0
    ensures !r.1 ==> r.0 == ns
    ensures r.1 ==> PlaceholderCountSeq(r.0) < PlaceholderCountSeq(ns)
    decreases SizeSeq(ns)
  {
    if ns == [] then ([], false)
    else
      var (first, found) := FillPlaceholder(ns[0], heading);
      if found then
        assert ([first] + ns[1..])[1..] == ns[1..];
        ([first] + ns[1..], true)
      else
        var (rest, foundLater) := FillPlaceholderIn(ns[1..], heading);
        assert ([ns[0]] + rest)[1..] == rest;
        ([ns[0]] + rest, foundLater)
  }

  /** Filling a tree whose only placeholders are among the new body
      children fills the body children. */
  lemma {:induction false} FillReplacedBody(n: Node, kids: seq<Node>, heading: string)
    requires PlaceholderCount(n) == 0 && FindBody(n).Some?
    ensures var (cs, found) := FillPlaceholderIn(kids, heading);
      FillPlaceholder(ReplaceBody(n, kids), heading) == (ReplaceBody(n, cs), found)
    decreases Size(n), 1
  {
    match n
    case Text(_) =>
    case Elem(name, attrs, children) =>
      if name != "body" {
        FillReplacedBodyIn(children, kids, heading);
      }
  }

  lemma {:induction false} FillReplacedBodyIn(ns: seq<Node>, kids: seq<Node>, heading: string)
    requires PlaceholderCountSeq(ns) == 0 && FindBodyIn(ns).Some?
    ensures var (cs, found) := FillPlaceholderIn(kids, heading);
      FillPlaceholderIn(ReplaceBodyIn(ns, kids), heading) == (ReplaceBodyIn(ns, cs), found)
    decreases SizeSeq(ns), 0
  {
    var r := ReplaceBodyIn(ns, kids);
    if FindBody(ns[0]).Some? {
      FillReplacedBody(ns[0], kids, heading);
      assert r[0] == ReplaceBody(ns[0], kids) && r[1..] == ns[1..];
    } else {
      FillReplacedBodyIn(ns[1..], kids, heading);
      assert r[0] == ns[0] && r[1..] == ReplaceBodyIn(ns[1..], kids);
    }
  }

  /** With only text in front of it, the marked paragraph is the one filled. */
  lemma {:induction false} FillAtMark(kids: seq<Node>, i: nat, heading: string)
    requires MarkedAt(kids, i)
    ensures FillPlaceholderIn(kids, heading) == (kids[i := Filled(kids[i], heading)], true)
    decreases i
  {
    var f := Filled(kids[i], heading);
    if i > 0 {
      assert FillPlaceholder(kids[0], heading) == (kids[0], false);
      assert MarkedAt(kids[1..], i - 1);
      FillAtMark(kids[1..], i - 1, heading);
      assert kids[i := f] == [kids[0]] + kids[1..][i - 1 := f];
    } else {
      assert FillPlaceholder(kids[0], heading) == (f, true);
      assert kids[0 := f] == [f] + kids[1..];
    }
  }

  /** The body's first element is a paragraph holding just the heading,
      without the placeholder attribute. */
  predicate HeadingFirst(doc: Node, heading: string) {
    FirstParagraph(doc).Some?
    && var p := FirstParagraph(doc).value;
    p.children == [Text(heading)] && PlaceholderKey !in p.attrs
  }

  /** In a document without placeholders, a marked document is filled at the
      marked paragraph, and the heading becomes the body's first paragraph;
      nothing outside the body's children changes. */
  lemma HeadingLands(doc: Node, cfg: Config, insertAsP: bool, heading: string)
    requires PlaceholderCount(doc) == 0
    requires AddChapterHeadingsWithConfig(doc, cfg, insertAsP).changed
    ensures var (filled, found) := FillPlaceholder(AddChapterHeadingsWithConfig(doc, cfg, insertAsP).doc, heading);
      found && HeadingFirst(filled, heading) && FindBody(filled).Some?
      && filled == ReplaceBody(doc, FindBody(filled).value)
  {
    MarkingEditsBody(doc, cfg, insertAsP);
    var i := FirstElement(FindBody(doc).value).value;
    var marked := EditBody(FindBody(doc).value, i, cfg, insertAsP).value;
    FillMarkedBody(doc, marked, i, heading);
  }

  lemma FillMarkedBody(doc: Node, marked: seq<Node>, i: nat, heading: string)
    requires PlaceholderCount(doc) == 0 && FindBody(doc).Some? && MarkedAt(marked, i)
    ensures var (filled, found) := FillPlaceholder(ReplaceBody(doc, marked), heading);
      found && HeadingFirst(filled, heading) && FindBody(filled).Some?
      && filled == ReplaceBody(doc, FindBody(filled).value)
  {
    FillReplacedBody(doc, marked, heading);
    FillAtMark(marked, i, heading);
    var kids := marked[i := Filled(marked[i], heading)];
    FindAfterReplace(doc, kids);
    FirstElementAt(kids, i);
  }

  /** A first paragraph that holds a recognised heading gets no second
      heading. */
  lemma RecognisedHeadingKept(doc: Node, h: string, cfg: Config, insertAsP: bool)
    requires HeadingFirst(doc, h) && h != [] && !IsWhitespace(h[0])
    requires IsExistingChapterHeading(h, InitialText(cfg))
    ensures !AddChapterHeadingsWithConfig(doc, cfg, insertAsP).changed
  {
    var p := FirstParagraph(doc).value;
    assert TextOf(p) == h by {
      assert TextOfSeq([Text(h)]) == h + TextOfSeq([]);
    }
    StripIdempotent(h);
  }

  /** A document whose first paragraph is a heading the plugin built gets no
      second heading, whether or not headings are inserted. */
  lemma NoSecondHeading(doc: Node, n: nat, cfg: Config, insertAsP: bool)
    requires HeadingFirst(doc, HeadingText(n, cfg))
    requires InitialText(cfg) != [] && !IsWhitespace(InitialText(cfg)[0])
    requires Recognisable(n, NumberingStyle(cfg))
    ensures !AddChapterHeadingsWithConfig(doc, cfg, insertAsP).changed
  {
    var h := HeadingText(n, cfg);
    assert h[0] == InitialText(cfg)[0];
    BuiltHeadingRecognised(n, cfg);
    RecognisedHeadingKept(doc, h, cfg, insertAsP);
  }
}
