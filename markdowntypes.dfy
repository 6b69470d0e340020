/**
 * The parsed-document shapes of src/markdown/types.ts, seen from outside the markdown
 * library. Parsing and stringifying are the library's business: a `Markdown` value carries
 * them as functions the model knows nothing about.
 */
module MarkdownTypes {
  import opened Nullable

  /** An inline child of a heading: its node `type` and, for a text run, its `value`. */
  datatype Inline = Inline(kind: string, value: string)

  /** A heading node as the tree walk yields it: its depth (the number of `#`), its inline
      children and the start offset of its position. */
  datatype HeadingNode = HeadingNode(depth: int, children: seq<Inline>, start: int)

  /** A top-level child of the root: its node `type`, the start offset of its position when it
      has one, and the rest of its subtree, which only the stringifier looks at. */
  datatype Block = Block(kind: string, start: Option<int>, subtree: string)

  /** What parsing gives: the top-level children of the root, and every heading node of the
      tree in document order (nested ones included, as the tree walk visits them). */
  datatype Document = Document(blocks: seq<Block>, headings: seq<HeadingNode>)

  /** The markdown library: parse, and stringify a root with the given children. */
  datatype Markdown = Markdown(parse: string -> Document, stringify: seq<Block> -> string)

  datatype SliceResult = SliceResult(content: string, foundHeading: bool)
}
