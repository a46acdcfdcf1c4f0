/**
 * Saving an itinerary as a document: a level-1 heading "Travel Itinerary",
 * then one paragraph per nonblank line of the itinerary text, stripped of
 * surrounding whitespace. Writing the file is not modelled; the document
 * is the sequence of blocks built up in memory.
 */
module Itinerary {
  import opened Text

  const Title: string := "Travel Itinerary"
  const TitleLevel: int := 1

  /** A block of the document: a heading with its level, or a paragraph. */
  datatype Block = Heading(text: string, level: int) | Paragraph(text: string)

  /** The word-processor document, which only ever grows at its end. */
  class Document {
    var blocks: seq<Block>

    /** A new, empty document. */
    constructor ()
      ensures blocks == []
    {
      blocks := [];
    }

    /** `doc.add_heading(text, level)` */
    method AddHeading(text: string, level: int)
      modifies this
      ensures blocks == old(blocks) + [Heading(text, level)]
    {
      blocks := blocks + [Heading(text, level)];
    }

    /** `doc.add_paragraph(text)` */
    method AddParagraph(text: string)
      modifies this
      ensures blocks == old(blocks) + [Paragraph(text)]
    {
      blocks := blocks + [Paragraph(text)];
    }
  }

  /** A line that strips to nothing adds no paragraph. */
  predicate IsBlank(line: string) {
    Strip(line) == []
  }

  /** Each line stripped of surrounding whitespace. */
  function StrippedLines(lines: seq<string>): (r: seq<string>)
    ensures |r| == |lines|
  {
    seq(|lines|, i requires 0 <= i < |lines| => Strip(lines[i]))
  }

  /** The nonempty texts, in order. */
  function NonEmptyTexts(texts: seq<string>): (r: seq<string>)
    ensures |r| <= |texts|
    ensures forall j :: 0 <= j < |r| ==> r[j] != []
    decreases |texts|
  {
    if texts == [] then []
    else
      var n := |texts| - 1;
      NonEmptyTexts(texts[..n]) + (if texts[n] == [] then [] else [texts[n]])
  }

  /** The positions of the nonempty texts, in increasing order. */
  function NonEmptyPositions(texts: seq<string>): seq<nat>
    decreases |texts|
  {
    if texts == [] then []
    else
      var n := |texts| - 1;
      NonEmptyPositions(texts[..n]) + (if texts[n] == [] then [] else [n])
  }

  /** The paragraph texts the lines give, in line order: each nonblank line
      stripped. */
  function Paragraphs(lines: seq<string>): (r: seq<string>)
    ensures |r| <= |lines|
    ensures forall j :: 0 <= j < |r| ==> r[j] != []
  {
    NonEmptyTexts(StrippedLines(lines))
  }

  /** The positions of the nonblank lines. */
  function NonBlankPositions(lines: seq<string>): seq<nat> {
    NonEmptyPositions(StrippedLines(lines))
  }

  /** Paragraph blocks holding the given texts. */
  function ParagraphBlocks(texts: seq<string>): (r: seq<Block>)
    ensures |r| == |texts|
  {
    seq(|texts|, k requires 0 <= k < |texts| => Paragraph(texts[k]))
  }

  /** The blocks of the saved document: the heading, then a paragraph for
      each nonblank line of the itinerary split at '\n'. */
  function DocumentBlocks(itinerary: string): (r: seq<Block>)
    ensures 1 <= |r| <= 1 + |Split(itinerary, '\n')|
    ensures r[0] == Heading(Title, TitleLevel)
    ensures forall j :: 1 <= j < |r| ==> r[j].Paragraph? && r[j].text != []
  {
    [Heading(Title, TitleLevel)] + ParagraphBlocks(Paragraphs(Split(itinerary, '\n')))
  }

  /** `save_itinerary_to_doc` without the final `doc.save(filename)`. */
  method SaveItineraryToDoc(itinerary: string) returns (doc: Document)
    ensures fresh(doc)
    ensures doc.blocks == DocumentBlocks(itinerary)
  {
    doc := new Document();
    doc.AddHeading(Title, TitleLevel);
    var lines := Split(itinerary, '\n');
    assert doc.blocks == [Heading(Title, TitleLevel)];
    AddLines(doc, lines);
    assert doc.blocks == [Heading(Title, TitleLevel)] + ParagraphBlocks(Paragraphs(lines));
  }

  /** The loop of `save_itinerary_to_doc`: a paragraph for each nonblank
      line, stripped, in line order. */
  method AddLines(doc: Document, lines: seq<string>)
    modifies doc
    ensures doc.blocks == old(doc.blocks) + ParagraphBlocks(Paragraphs(lines))
  {
    ghost var start := doc.blocks;
    var i := 0;
    while i < |lines|
      invariant 0 <= i <= |lines|
      invariant doc.blocks == start + ParagraphBlocks(NonEmptyTexts(StrippedLines(lines)[..i]))
    {
      AddLine(doc, lines, i, start);
      i := i + 1;
    }
    assert StrippedLines(lines)[..|lines|] == StrippedLines(lines);
  }

  /** One pass of the loop: line `i` stripped becomes a paragraph, unless
      it is blank. */
  method AddLine(doc: Document, lines: seq<string>, i: nat, ghost start: seq<Block>)
    requires i < |lines|
    requires doc.blocks == start + ParagraphBlocks(NonEmptyTexts(StrippedLines(lines)[..i]))
    modifies doc
    ensures doc.blocks == start + ParagraphBlocks(NonEmptyTexts(StrippedLines(lines)[..i + 1]))
  {
    var line := Strip(lines[i]);
    AddLineStep(start, StrippedLines(lines), i);
    assert line == StrippedLines(lines)[i];
    if line != [] {
      doc.AddParagraph(line);
    }
  }

  /** The document after line `i`: the one before it, with the paragraph of
      line `i` when that is nonempty. */
  lemma AddLineStep(start: seq<Block>, texts: seq<string>, i: nat)
    requires i < |texts|
    ensures start + ParagraphBlocks(NonEmptyTexts(texts[..i + 1]))
      == (start + ParagraphBlocks(NonEmptyTexts(texts[..i]))) + (if texts[i] == [] then [] else [Paragraph(texts[i])])
  {
    NonEmptyTextsStep(texts, i);
    var before := ParagraphBlocks(NonEmptyTexts(texts[..i]));
    if texts[i] != [] {
      ParagraphBlocksAppend(NonEmptyTexts(texts[..i]), texts[i]);
      assert start + (before + [Paragraph(texts[i])]) == (start + before) + [Paragraph(texts[i])];
    } else {
      assert NonEmptyTexts(texts[..i]) + [] == NonEmptyTexts(texts[..i]);
      assert (start + before) + [] == start + before;
    }
  }

  lemma NonEmptyTextsStep(texts: seq<string>, i: nat)
    requires i < |texts|
    ensures NonEmptyTexts(texts[..i + 1]) == NonEmptyTexts(texts[..i]) + (if texts[i] == [] then [] else [texts[i]])
  {
    assert texts[..i + 1][..i] == texts[..i];
  }

  lemma ParagraphBlocksAppend(texts: seq<string>, t: string)
    ensures ParagraphBlocks(texts + [t]) == ParagraphBlocks(texts) + [Paragraph(t)]
  {
  }

  /** The heading comes first and everything after it is a paragraph. */
  lemma HeadingFirst(itinerary: string)
    ensures DocumentBlocks(itinerary)[0] == Heading("Travel Itinerary", 1)
    ensures forall k :: 1 <= k < |DocumentBlocks(itinerary)| ==> DocumentBlocks(itinerary)[k].Paragraph?
  {
  }

  /** The nonempty positions increase, lie inside the texts, and are
      exactly the positions of the nonempty texts. */
  lemma {:induction false} NonEmptyPositionsSpec(texts: seq<string>)
    ensures var pos := NonEmptyPositions(texts);
      && (forall a, b :: 0 <= a < b < |pos| ==> pos[a] < pos[b])
      && (forall j :: 0 <= j < |pos| ==> pos[j] < |texts|)
      && (forall i :: 0 <= i < |texts| ==> (i in pos <==> texts[i] != []))
    decreases |texts|
  {
    if texts != [] {
      var n := |texts| - 1;
      var init := texts[..n];
      assert forall i :: 0 <= i < n ==> init[i] == texts[i];
      NonEmptyPositionsSpec(init);
    }
  }

  /** Kept text `j` is the text at the `j`-th nonempty position. */
  lemma {:induction false} NonEmptyAtPositions(texts: seq<string>)
    ensures var pos := NonEmptyPositions(texts);
      && |NonEmptyTexts(texts)| == |pos|
      && (forall j :: 0 <= j < |pos| ==> pos[j] < |texts| && NonEmptyTexts(texts)[j] == texts[pos[j]])
    decreases |texts|
  {
    if texts != [] {
      var n := |texts| - 1;
      var init := texts[..n];
      assert forall i :: 0 <= i < n ==> init[i] == texts[i];
      NonEmptyAtPositions(init);
    }
  }

  /** Each paragraph is the stripped text of one line, the paragraphs
      follow the order of the lines, and there are as many as there are
      nonblank lines. */
  lemma ParagraphsAreNonBlankLines(lines: seq<string>)
    ensures var pos := NonBlankPositions(lines);
      && |Paragraphs(lines)| == |pos|
      && (forall a, b :: 0 <= a < b < |pos| ==> pos[a] < pos[b])
      && (forall i :: 0 <= i < |lines| ==> (i in pos <==> !IsBlank(lines[i])))
      && (forall j :: 0 <= j < |pos| ==> pos[j] < |lines| && Paragraphs(lines)[j] == Strip(lines[pos[j]]))
  {
    NonBlankPositionsSpec(lines);
    ParagraphsAtPositions(lines);
  }

  lemma NonBlankPositionsSpec(lines: seq<string>)
    ensures var pos := NonBlankPositions(lines);
      && (forall a, b :: 0 <= a < b < |pos| ==> pos[a] < pos[b])
      && (forall i :: 0 <= i < |lines| ==> (i in pos <==> !IsBlank(lines[i])))
  {
    var texts := StrippedLines(lines);
    NonEmptyPositionsSpec(texts);
    assert forall i :: 0 <= i < |lines| ==> (texts[i] != [] <==> !IsBlank(lines[i]));
  }

  lemma ParagraphsAtPositions(lines: seq<string>)
    ensures var pos := NonBlankPositions(lines);
      && |Paragraphs(lines)| == |pos|
      && (forall j :: 0 <= j < |pos| ==> pos[j] < |lines| && Paragraphs(lines)[j] == Strip(lines[pos[j]]))
  {
    var texts := StrippedLines(lines);
    NonEmptyAtPositions(texts);
  }

  /** No paragraph is empty, and stripping a paragraph again changes
      nothing. */
  lemma ParagraphsStripped(lines: seq<string>)
    ensures forall j :: 0 <= j < |Paragraphs(lines)| ==>
      Paragraphs(lines)[j] != [] && Strip(Paragraphs(lines)[j]) == Paragraphs(lines)[j]
  {
    ParagraphsAreNonBlankLines(lines);
    var pos := NonBlankPositions(lines);
    forall j | 0 <= j < |Paragraphs(lines)|
      ensures Paragraphs(lines)[j] != [] && Strip(Paragraphs(lines)[j]) == Paragraphs(lines)[j]
    {
      assert pos[j] in pos;
      StripUnchanged(Strip(lines[pos[j]]));
    }
  }

  /** An itinerary whose lines are already stripped and nonblank comes back
      line for line as the document's paragraphs. */
  lemma JoinedLinesRoundTrip(lines: seq<string>)
    requires |lines| >= 1
    requires forall k, i :: 0 <= k < |lines| && 0 <= i < |lines[k]| ==> lines[k][i] != '\n'
    requires forall k :: 0 <= k < |lines| ==> lines[k] != [] && Strip(lines[k]) == lines[k]
    ensures Paragraphs(Split(Join("\n", lines), '\n')) == lines
  {
    SplitOfJoin(lines, '\n');
    assert StrippedLines(lines) == lines;
    NonEmptyTextsAllKept(lines);
  }

  /** Texts that are all nonempty are all kept. */
  lemma {:induction false} NonEmptyTextsAllKept(texts: seq<string>)
    requires forall k :: 0 <= k < |texts| ==> texts[k] != []
    ensures NonEmptyTexts(texts) == texts
    decreases |texts|
  {
    if texts != [] {
      var n := |texts| - 1;
      NonEmptyTextsAllKept(texts[..n]);
      assert texts[..n] + [texts[n]] == texts;
    }
  }
}
