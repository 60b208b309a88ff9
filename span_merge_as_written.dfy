/**
 * The copy loop of the span merger as calibre-plugin/cleanup.py writes it,
 * kept beside the corrected merge of module SpanMerge to exhibit two ways
 * in which it loses text:
 *  - it recognises the first span, the last span and the other members by
 *    comparing nodes with `==`, which for parsed tags compares name,
 *    attributes and contents, so a first span that looks exactly like the
 *    last one is taken for the last one and the walk stops there;
 *  - it extracts child tags from a span while iterating over that span's
 *    child list, so the child after each extracted tag is skipped, and the
 *    skipped children are dropped with the span they stayed in.
 */
module SpanMergeAsWritten {
  import opened Markup
  import opened SpanMerge

  /** `for content in current.contents: merged.append(content.extract() if
      it is a tag else str(content))`: a tag taken out of the list moves the
      rest of the list one place forward under the running index. */
  function ContentsAsWritten(cs: seq<Node>, k: nat): seq<Node>
    decreases |cs| - k
  {
    if k >= |cs| then []
    else if cs[k].Elem? then [cs[k]] + ContentsAsWritten(cs[..k] + cs[k + 1..], k + 1)
    else [cs[k]] + ContentsAsWritten(cs, k + 1)
  }

  /** The walk from the first span to the last span of a run region: a node
      equal to the last span ends the walk after its contents are copied; a
      node equal to the first span or to a member contributes its contents;
      whitespace between members is copied as a separator. */
  function CollectAsWritten(region: seq<Node>, j: nat, mode: SeparatorMode): seq<Node>
    requires region != []
    decreases |region| - j
  {
    if j >= |region| then []
    else
      var current := region[j];
      if current == region[|region| - 1] then
        (if current.Elem? then ContentsAsWritten(current.children, 0) else [])
      else if current.Elem? then ContentsAsWritten(current.children, 0) + CollectAsWritten(region, j + 1, mode)
      else Piece(current, mode) + CollectAsWritten(region, j + 1, mode)
  }

  /** The run `kids[i..r+1]` collapsed into its first span by the loop as
      written. */
  function MergeRunAsWritten(kids: seq<Node>, i: nat, r: nat, mode: SeparatorMode): (res: seq<Node>)
    requires i < r < |kids| && kids[i].Elem?
    ensures |res| == |kids| - (r - i) && res[..i] == kids[..i] && res[i + 1..] == kids[r + 1..]
  {
    kids[..i] + [kids[i].(children := CollectAsWritten(kids[i..r + 1], 0, mode))] + kids[r + 1..]
  }

  const Red: map<string, string> := map["style" := "color:red"]

  lemma TextOfThree(x: Node, y: Node, z: Node)
    ensures TextOfSeq([x, y, z]) == TextOf(x) + TextOf(y) + TextOf(z)
  {
    assert [x, y, z][1..] == [y, z];
    assert [y, z][1..] == [z];
    assert TextOfSeq([z]) == TextOf(z) + TextOfSeq([]);
  }

  lemma TextOfTwo(x: Node, y: Node)
    ensures TextOfSeq([x, y]) == TextOf(x) + TextOf(y)
  {
    assert [x, y][1..] == [y];
    assert TextOfSeq([y]) == TextOf(y) + TextOfSeq([]);
  }

  lemma TextOfOne(x: Node)
    ensures TextOfSeq([x]) == TextOf(x)
  {
    assert TextOfSeq([x]) == TextOf(x) + TextOfSeq([]);
  }

  lemma SpaceSeparator()
    ensures Piece(Text(" "), Normalize) == [Text(" ")]
  {
    var r := LineBreaksToSpaces(" ");
    assert |r| == 1 && r[0] == ' ';
    assert r == " ";
  }

  /** Two identical spans with a space between them form a run; the loop as
      written keeps only the first span's text, where the corrected merge
      keeps all of it. */
  lemma IdenticalSpansLoseText()
    ensures var a := Elem("span", Red, [Text("a")]);
      var kids := [a, Text(" "), a];
      RunLast(kids, 0, "color:red") == 2
      && TextOfSeq(kids) == "a a"
      && TextOfSeq(MergeRunAsWritten(kids, 0, 2, Normalize)) == "a"
      && TextOfSeq(MergeRun(kids, 0, 2, Normalize)) == "a a"
  {
    var a := Elem("span", Red, [Text("a")]);
    var kids := [a, Text(" "), a];
    assert IsBlank(" ");
    assert NextNonBlank(kids, 1) == 2;
    assert NextNonBlank(kids, 3) == 3;
    assert ContentsAsWritten([Text("a")], 1) == [];
    assert CollectAsWritten(kids, 0, Normalize) == [Text("a")];
    SpaceSeparator();
    assert Gather(kids[2..], Normalize) == [Text("a")];
    assert Gather(kids[1..], Normalize) == [Text(" "), Text("a")];
    assert kids[0..3] == kids;
    assert Gather(kids, Normalize) == [Text("a"), Text(" "), Text("a")];
    TextOfOne(Text("a"));
    TextOfThree(a, Text(" "), a);
    TextOfThree(Text("a"), Text(" "), Text("a"));
    var merged := MergeRun(kids, 0, 2, Normalize);
    assert merged == [a.(children := [Text("a"), Text(" "), Text("a")])];
    TextOfOne(merged[0]);
    var asWritten := MergeRunAsWritten(kids, 0, 2, Normalize);
    assert asWritten == [a.(children := [Text("a")])];
    TextOfOne(asWritten[0]);
  }

  /** The run of the next lemma, collected both ways. */
  lemma SkippedChildCollected(b: Node, i: Node, z: string)
    requires b.Elem? && i.Elem?
    ensures var kids := [Elem("span", Red, [b, i]), Text(" "), Elem("span", Red, [Text(z)])];
      RunLast(kids, 0, "color:red") == 2
      && MergeRunAsWritten(kids, 0, 2, Normalize) == [kids[0].(children := [b, Text(" "), Text(z)])]
      && MergeRun(kids, 0, 2, Normalize) == [kids[0].(children := [b, i, Text(" "), Text(z)])]
  {
    var kids := [Elem("span", Red, [b, i]), Text(" "), Elem("span", Red, [Text(z)])];
    assert IsBlank(" ");
    assert NextNonBlank(kids, 1) == 2;
    assert NextNonBlank(kids, 3) == 3;
    assert [b, i][..0] + [b, i][1..] == [i];
    assert ContentsAsWritten([i], 1) == [];
    assert ContentsAsWritten([b, i], 0) == [b];
    assert ContentsAsWritten([Text(z)], 1) == [];
    assert ContentsAsWritten([Text(z)], 0) == [Text(z)];
    assert CollectAsWritten(kids, 2, Normalize) == [Text(z)];
    SpaceSeparator();
    assert CollectAsWritten(kids, 1, Normalize) == [Text(" "), Text(z)];
    assert Gather(kids[2..], Normalize) == [Text(z)];
    assert Gather(kids[1..], Normalize) == [Text(" "), Text(z)];
    assert kids[0..3] == kids;
    assert CollectAsWritten(kids, 0, Normalize) == [b, Text(" "), Text(z)];
    assert Gather(kids, Normalize) == [b, i, Text(" "), Text(z)];
  }

  /** A first span holding two tags loses the second one: with x, y and z
      for the three texts, "xy z" becomes "x z". */
  lemma SkippedChildLost(x: string, y: string, z: string)
    ensures var first := Elem("span", Red, [Elem("b", map[], [Text(x)]), Elem("i", map[], [Text(y)])]);
      var kids := [first, Text(" "), Elem("span", Red, [Text(z)])];
      RunLast(kids, 0, "color:red") == 2
      && TextOfSeq(kids) == x + y + " " + z
      && TextOfSeq(MergeRunAsWritten(kids, 0, 2, Normalize)) == x + " " + z
      && TextOfSeq(MergeRun(kids, 0, 2, Normalize)) == x + y + " " + z
  {
    var b, i := Elem("b", map[], [Text(x)]), Elem("i", map[], [Text(y)]);
    var first := Elem("span", Red, [b, i]);
    var last := Elem("span", Red, [Text(z)]);
    var kids := [first, Text(" "), last];
    SkippedChildCollected(b, i, z);
    SkippedChildTexts(x, y, z);
    TextOfOne(first.(children := [b, i, Text(" "), Text(z)]));
    TextOfOne(first.(children := [b, Text(" "), Text(z)]));
  }

  lemma SkippedChildTexts(x: string, y: string, z: string)
    ensures var b, i := Elem("b", map[], [Text(x)]), Elem("i", map[], [Text(y)]);
      TextOfSeq([Elem("span", Red, [b, i]), Text(" "), Elem("span", Red, [Text(z)])]) == x + y + " " + z
      && TextOfSeq([b, i, Text(" "), Text(z)]) == x + y + " " + z
      && TextOfSeq([b, Text(" "), Text(z)]) == x + " " + z
  {
    var b, i := Elem("b", map[], [Text(x)]), Elem("i", map[], [Text(y)]);
    TextOfOne(Text(x));
    TextOfOne(Text(y));
    TextOfOne(Text(z));
    TextOfTwo(b, i);
    TextOfThree(Elem("span", Red, [b, i]), Text(" "), Elem("span", Red, [Text(z)]));
    TextOfThree(b, Text(" "), Text(z));
    TextOfSeqConcat([b], [i, Text(" "), Text(z)]);
    TextOfThree(i, Text(" "), Text(z));
    TextOfOne(b);
    assert [b] + [i, Text(" "), Text(z)] == [b, i, Text(" "), Text(z)];
  }

  /** A span whose children are all text is copied whole by the loop as
      written: the skipping only follows an extracted tag. */
  lemma {:induction false} ContentsOfTextAsWritten(cs: seq<Node>, k: nat)
    requires k <= |cs| && forall m :: 0 <= m < |cs| ==> cs[m].Text?
    ensures ContentsAsWritten(cs, k) == cs[k..]
    decreases |cs| - k
  {
    if k < |cs| {
      ContentsOfTextAsWritten(cs, k + 1);
      assert cs[k..] == [cs[k]] + cs[k + 1..];
    }
  }
}
