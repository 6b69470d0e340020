/**
 * Cutting one section out of a markdown document (src/markdown/slicer.ts).
 *
 * A section starts at the heading whose trimmed text is the trimmed query (the first such
 * heading in document order) and runs up to, not including, the next heading whose depth is
 * the same or smaller. The cut is made on the top-level children of the parsed root by
 * their start offsets; the kept children are stringified again.
 */
module Slicer {
  import opened Nullable
  import opened Text
  import opened MarkdownTypes
  import opened HeadingExtractor

  // ---------------------------------------------------------------------------------------
  // findNextHeadingOfSameOrLowerDepth

  /** The first index at or after `from` whose heading is at most `depth` deep. */
  function NextFrom(headings: seq<HeadingNode>, from: nat, depth: int): (r: Option<nat>)
    ensures r.Some? ==> from <= r.value < |headings| && headings[r.value].depth <= depth
    ensures r.Some? ==> forall j :: from <= j < r.value ==> headings[j].depth > depth
    ensures r.None? <==> forall j :: from <= j < |headings| ==> headings[j].depth > depth
    decreases |headings| - from
  {
    if from >= |headings| then None
    else if headings[from].depth <= depth then Some(from)
    else NextFrom(headings, from + 1, depth)
  }

  /** The index of the heading that closes the section opened at `currentIndex`. */
  function NextBoundary(headings: seq<HeadingNode>, currentIndex: int, currentDepth: int): (r: Option<nat>)
    requires -1 <= currentIndex
    ensures r.Some? ==> currentIndex < r.value < |headings| && headings[r.value].depth <= currentDepth
    ensures r.Some? ==> forall j :: currentIndex < j < r.value ==> headings[j].depth > currentDepth
    ensures r.None? <==> forall j :: currentIndex < j < |headings| ==> headings[j].depth > currentDepth
  {
    NextFrom(headings, currentIndex + 1, currentDepth)
  }

  /** findNextHeadingOfSameOrLowerDepth: scan forward from the heading after `currentIndex`
      and stop at the first one at most `currentDepth` deep. */
  method FindNextHeadingOfSameOrLowerDepth(headings: seq<HeadingNode>, currentIndex: int, currentDepth: int)
    returns (r: Option<HeadingNode>)
    requires -1 <= currentIndex
    ensures r == match NextBoundary(headings, currentIndex, currentDepth)
                 case Some(k) => Some(headings[k])
                 case None => None
  {
    var i := currentIndex + 1;
    while i < |headings|
      invariant currentIndex + 1 <= i
      invariant forall j :: currentIndex < j < i && j < |headings| ==> headings[j].depth > currentDepth
    {
      if headings[i].depth <= currentDepth {
        return Some(headings[i]);
      }
      i := i + 1;
    }
    return None;
  }

  /** The section's depth scan on a document whose headings have depths 1, 2, 2, 1: the
      first heading runs to the last, the second to the third, the last to the end. */
  lemma NextBoundaryExample(h0: HeadingNode, h1: HeadingNode, h2: HeadingNode, h3: HeadingNode)
    requires h0.depth == 1 && h1.depth == 2 && h2.depth == 2 && h3.depth == 1
    ensures NextBoundary([h0, h1, h2, h3], 0, 1) == Some(3)
    ensures NextBoundary([h0, h1, h2, h3], 1, 2) == Some(2)
    ensures NextBoundary([h0, h1, h2, h3], 3, 1) == None
  {
  }

  // ---------------------------------------------------------------------------------------
  // extractNodesBetweenOffsets

  /** An end offset, or no end at all (`Infinity`). */
  datatype Bound = At(offset: int) | Infinity

  /** A child is kept when it has a start offset, at or after `start` and before `end`. */
  predicate InRange(b: Block, start: int, end: Bound) {
    b.start.Some? && start <= b.start.value && (end.Infinity? || b.start.value < end.offset)
  }

  /** The children in range, in their order. */
  function KeepBetween(children: seq<Block>, start: int, end: Bound): (r: seq<Block>)
    ensures |r| <= |children|
  {
    if children == [] then []
    else
      var rest := KeepBetween(children[1..], start, end);
      if InRange(children[0], start, end) then [children[0]] + rest else rest
  }

  /** The filter keeps exactly the children in range. */
  lemma {:induction false} KeepBetweenMembers(children: seq<Block>, start: int, end: Bound)
    ensures forall b :: b in KeepBetween(children, start, end) <==> b in children && InRange(b, start, end)
  {
    if children != [] {
      KeepBetweenMembers(children[1..], start, end);
      assert forall b :: b in children <==> b == children[0] || b in children[1..];
    }
  }

  /** Filtering works piecewise, so the kept children keep their relative order. */
  lemma {:induction false} KeepBetweenAppend(a: seq<Block>, b: seq<Block>, start: int, end: Bound)
    ensures KeepBetween(a + b, start, end) == KeepBetween(a, start, end) + KeepBetween(b, start, end)
  {
    if a == [] {
      assert a + b == b;
    } else {
      assert (a + b)[1..] == a[1..] + b;
      KeepBetweenAppend(a[1..], b, start, end);
    }
  }

  /** Filtering twice with the same offsets is filtering once. */
  lemma {:induction false} KeepBetweenIdempotent(children: seq<Block>, start: int, end: Bound)
    ensures KeepBetween(KeepBetween(children, start, end), start, end) == KeepBetween(children, start, end)
  {
    if children != [] {
      KeepBetweenIdempotent(children[1..], start, end);
    }
  }

  /** A root whose top-level children the slicer filters in place. */
  class RootNode {
    var children: seq<Block>

    constructor (children: seq<Block>)
      ensures this.children == children
    {
      this.children := children;
    }
  }

  /** extractNodesBetweenOffsets: keep the children of `tree` whose start offset lies in
      `[startOffset, endOffset)`. */
  method ExtractNodesBetweenOffsets(tree: RootNode, startOffset: int, endOffset: Bound)
    modifies tree
    ensures tree.children == KeepBetween(old(tree.children), startOffset, endOffset)
  {
    tree.children := KeepBetween(tree.children, startOffset, endOffset);
  }

  // ---------------------------------------------------------------------------------------
  // sliceMarkdownByHeading

  /** The offsets of the section headed by `query`: the matched heading's own start, and the
      start of the heading that closes it (or no end). */
  function SectionBounds(headings: seq<HeadingNode>, query: string): (r: Option<(int, Bound)>)
    ensures r.None? <==> FirstMatch(headings, query).None?
    ensures r.Some? ==> var i := FirstMatch(headings, query).value;
      r.value.0 == headings[i].start
      && (r.value.1.Infinity? <==> forall j :: i < j < |headings| ==> headings[j].depth > headings[i].depth)
      && (r.value.1.At? ==> var k := NextBoundary(headings, i, headings[i].depth);
            k.Some? && r.value.1.offset == headings[k.value].start)
  {
    match FirstMatch(headings, query)
    case None => None
    case Some(i) =>
      var end := match NextBoundary(headings, i, headings[i].depth)
        case Some(k) => At(headings[k].start)
        case None => Infinity;
      Some((headings[i].start, end))
  }

  /** The top-level children the section keeps; none when no heading matches. */
  function SectionBlocks(doc: Document, query: string): seq<Block>
  {
    match SectionBounds(doc.headings, query)
    case None => []
    case Some((start, end)) => KeepBetween(doc.blocks, start, end)
  }

  /** What sliceMarkdownByHeading answers: the stringified section, and whether that text is
      anything but white space. */
  function Slice(markdown: string, headingText: string, md: Markdown): SliceResult
  {
    var content := md.stringify(SectionBlocks(md.parse(markdown), headingText));
    SliceResult(content, !IsBlank(content))
  }

  /** sliceMarkdownByHeading: parse, find the heading, filter the root's children between its
      offset and the closing heading's offset (or clear them), and stringify. */
  method SliceMarkdownByHeading(markdown: string, headingText: string, md: Markdown) returns (result: SliceResult)
    ensures result == Slice(markdown, headingText, md)
  {
    var doc := md.parse(markdown);
    var tree := new RootNode(doc.blocks);
    var headings := doc.headings;
    var targetIndex := FirstMatch(headings, headingText);
    if targetIndex.None? {
      tree.children := [];
    } else {
      var targetHeading := headings[targetIndex.value];
      var targetDepth := targetHeading.depth;
      var nextHeading := FindNextHeadingOfSameOrLowerDepth(headings, targetIndex.value, targetDepth);
      var startOffset := targetHeading.start;
      var endOffset := if nextHeading.Some? then At(nextHeading.value.start) else Infinity;
      ExtractNodesBetweenOffsets(tree, startOffset, endOffset);
    }
    var content := md.stringify(tree.children);
    return SliceResult(content, !IsBlank(content));
  }

  // ---------------------------------------------------------------------------------------
  // Properties of a slice

  /** A block of the section starts no earlier than the matched heading and before the next
      heading of the same or a smaller depth; every heading in between is deeper. Conversely
      each top-level child in that window is kept. */
  lemma SectionWindow(doc: Document, query: string, i: nat)
    requires FirstMatch(doc.headings, query) == Some(i)
    ensures forall b :: b in SectionBlocks(doc, query) ==>
      b in doc.blocks && b.start.Some? && doc.headings[i].start <= b.start.value
    ensures forall b ::
      (b in doc.blocks && b.start.Some? && doc.headings[i].start <= b.start.value
       && (forall k :: i < k < |doc.headings| && doc.headings[k].depth <= doc.headings[i].depth ==> b.start.value < doc.headings[k].start))
      ==> b in SectionBlocks(doc, query)
    ensures forall k, b ::
      (i < k < |doc.headings| && doc.headings[k].depth <= doc.headings[i].depth
       && (forall j :: i < j < k ==> doc.headings[j].depth > doc.headings[i].depth)
       && b in SectionBlocks(doc, query))
      ==> b.start.value < doc.headings[k].start
  {
    var hs := doc.headings;
    var next := NextBoundary(hs, i, hs[i].depth);
    var bounds := SectionBounds(hs, query);
    KeepBetweenMembers(doc.blocks, bounds.value.0, bounds.value.1);
    forall k, b | i < k < |hs| && hs[k].depth <= hs[i].depth
      && (forall j :: i < j < k ==> hs[j].depth > hs[i].depth)
      && b in SectionBlocks(doc, query)
      ensures b.start.value < hs[k].start
    {
      assert next == Some(k);
    }
  }

  /** With no matching heading the content is what the stringifier makes of an empty root;
      when that is blank, nothing is reported found. */
  lemma NotFound(markdown: string, headingText: string, md: Markdown)
    requires FirstMatch(md.parse(markdown).headings, headingText).None?
    ensures Slice(markdown, headingText, md).content == md.stringify([])
    ensures IsBlank(md.stringify([])) ==> !Slice(markdown, headingText, md).foundHeading
  {
  }

  /** When an empty root stringifies to blank text, content that is reported found comes from a
      heading that matched. */
  lemma FoundMeansMatched(markdown: string, headingText: string, md: Markdown)
    requires IsBlank(md.stringify([]))
    requires Slice(markdown, headingText, md).foundHeading
    ensures FirstMatch(md.parse(markdown).headings, headingText).Some?
  {
  }

  /** Headings are collected from the whole tree but only top-level children are filtered: a
      matching heading inside a block quote that starts at offset 0 leaves the quote (and so
      the heading) out of its own section, and a section with nothing after it comes out
      empty, reported as not found. */
  lemma NestedHeadingDropped(markdown: string, md: Markdown)
    requires md.parse(markdown) == Document(
      [Block("blockquote", Some(0), "> ## Notes")],
      [HeadingNode(2, [Inline("text", "Notes")], 2)])
    requires IsBlank(md.stringify([]))
    ensures FirstMatch(md.parse(markdown).headings, "Notes") == Some(0)
    ensures SectionBlocks(md.parse(markdown), "Notes") == []
    ensures !Slice(markdown, "Notes", md).foundHeading
  {
    var h := HeadingNode(2, [Inline("text", "Notes")], 2);
    InlineTextSingle(Inline("text", "Notes"));
    assert Matches(h, "Notes") by {
      TrimTrimmed("Notes");
    }
    var doc := md.parse(markdown);
    assert !InRange(doc.blocks[0], 2, Infinity);
    assert doc.blocks[1..] == [];
  }

  /** Children without a position are never kept. */
  lemma UnpositionedDropped(doc: Document, query: string, b: Block)
    requires b.start.None?
    ensures b !in SectionBlocks(doc, query)
  {
    var bounds := SectionBounds(doc.headings, query);
    if bounds.Some? {
      KeepBetweenMembers(doc.blocks, bounds.value.0, bounds.value.1);
    }
  }

  function TextHeading(depth: int, text: string, start: int): HeadingNode {
    HeadingNode(depth, [Inline("text", text)], start)
  }

  lemma SecondSectionBounds(hs: seq<HeadingNode>)
    requires hs == [TextHeading(1, "Heading 1", 0), TextHeading(2, "Heading 2", 37), TextHeading(1, "Heading 3", 75)]
    ensures SectionBounds(hs, "Heading 2") == Some((37, At(75)))
  {
    InlineTextSingle(hs[0].children[0]);
    InlineTextSingle(hs[1].children[0]);
    assert hs[0].children == [hs[0].children[0]];
    assert hs[1].children == [hs[1].children[0]];
    TrimTrimmed(hs[0].children[0].value);
    TrimTrimmed(hs[1].children[0].value);
    assert !Matches(hs[0], "Heading 2");
    assert Matches(hs[1], "Heading 2");
    assert FirstMatch(hs, "Heading 2") == Some(1);
    assert NextBoundary(hs, 1, 2) == Some(2);
  }

  /** Filtering keeps every child when each is in range. */
  lemma {:induction false} KeepAll(children: seq<Block>, start: int, end: Bound)
    requires forall i :: 0 <= i < |children| ==> InRange(children[i], start, end)
    ensures KeepBetween(children, start, end) == children
  {
    if children != [] {
      KeepAll(children[1..], start, end);
    }
  }

  /** Filtering keeps nothing when no child is in range. */
  lemma {:induction false} KeepNone(children: seq<Block>, start: int, end: Bound)
    requires forall i :: 0 <= i < |children| ==> !InRange(children[i], start, end)
    ensures KeepBetween(children, start, end) == []
  {
    if children != [] {
      KeepNone(children[1..], start, end);
    }
  }

  /** The children kept from a slice of children. */
  lemma KeepSlice(children: seq<Block>, i: nat, j: nat, start: int, end: Bound, keep: bool)
    requires i <= j <= |children|
    requires forall m :: i <= m < j ==> InRange(children[m], start, end) == keep
    ensures KeepBetween(children[i..j], start, end) == if keep then children[i..j] else []
  {
    var c := children[i..j];
    assert forall m :: 0 <= m < |c| ==> c[m] == children[i + m];
    if keep {
      KeepAll(c, start, end);
    } else {
      KeepNone(c, start, end);
    }
  }

  /** Children out of range before `i` do not change what is kept. */
  lemma KeepDropPrefix(children: seq<Block>, i: nat, start: int, end: Bound)
    requires i <= |children|
    requires forall m :: 0 <= m < i ==> !InRange(children[m], start, end)
    ensures KeepBetween(children, start, end) == KeepBetween(children[i..], start, end)
  {
    assert children == children[0..i] + children[i..];
    KeepBetweenAppend(children[0..i], children[i..], start, end);
    KeepSlice(children, 0, i, start, end, false);
  }

  /** Children out of range from `j` on do not change what is kept. */
  lemma KeepDropSuffix(children: seq<Block>, j: nat, start: int, end: Bound)
    requires j <= |children|
    requires forall m :: j <= m < |children| ==> !InRange(children[m], start, end)
    ensures KeepBetween(children, start, end) == KeepBetween(children[..j], start, end)
  {
    assert children == children[0..j] + children[j..|children|];
    KeepBetweenAppend(children[0..j], children[j..|children|], start, end);
    KeepSlice(children, j, |children|, start, end, false);
    assert KeepBetween(children[0..j], start, end) + [] == KeepBetween(children[0..j], start, end);
  }

  /** When the children in range are exactly those at `i`..`j`, the filter keeps that slice. */
  lemma KeepContiguous(children: seq<Block>, i: nat, j: nat, start: int, end: Bound)
    requires i <= j <= |children|
    requires forall m :: 0 <= m < i ==> !InRange(children[m], start, end)
    requires forall m :: i <= m < j ==> InRange(children[m], start, end)
    requires forall m :: j <= m < |children| ==> !InRange(children[m], start, end)
    ensures KeepBetween(children, start, end) == children[i..j]
  {
    KeepDropPrefix(children, i, start, end);
    var rest := children[i..];
    assert forall m :: 0 <= m < |rest| ==> rest[m] == children[i + m];
    KeepDropSuffix(rest, j - i, start, end);
    assert rest[..j - i] == children[i..j];
    KeepSlice(children, i, j, start, end, true);
  }

  lemma SecondSectionFilter(b: seq<Block>)
    requires |b| == 6
    requires b[0].start == Some(0) && b[1].start == Some(12) && b[2].start == Some(37)
    requires b[3].start == Some(50) && b[4].start == Some(75) && b[5].start == Some(87)
    ensures KeepBetween(b, 37, At(75)) == b[2..4]
  {
    KeepContiguous(b, 2, 4, 37, At(75));
  }

  /** The document of headings 1 (depth 1), 2 (depth 2) and 3 (depth 1), each followed by a
      paragraph: the section "Heading 2" is that heading and its paragraph. */
  lemma SliceSecondSection(doc: Document)
    requires doc == Document(
      [Block("heading", Some(0), "# Heading 1"), Block("paragraph", Some(12), "Content under heading 1"),
       Block("heading", Some(37), "## Heading 2"), Block("paragraph", Some(50), "Content under heading 2"),
       Block("heading", Some(75), "# Heading 3"), Block("paragraph", Some(87), "Content under heading 3")],
      [TextHeading(1, "Heading 1", 0), TextHeading(2, "Heading 2", 37), TextHeading(1, "Heading 3", 75)])
    ensures SectionBlocks(doc, "Heading 2") == doc.blocks[2..4]
  {
    SecondSectionBounds(doc.headings);
    SecondSectionFilter(doc.blocks);
  }
}
