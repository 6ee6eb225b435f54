/**
 * The value types the inline token layer works on: the text nodes produced
 * by tokenising markdown, and the leaf HTML nodes they are mapped to.
 * Only the fields the conversion reads or writes are modelled.
 */
module Nodes {
  import opened Results

  /**
   * The kind of an inline text node. The six named kinds are the source's
   * enumeration; `Other` stands for any value outside it (the tests pass a
   * plain string where a kind is expected).
   */
  datatype TextType = Text | Bold | Italic | Code | Link | Image | Other(name: string)
  {
    /** True for the six kinds the source's enumeration defines. */
    predicate IsKnown() { !Other? }
  }

  /** An inline token: its text, its kind and, for links and images, a URL (Python `None` otherwise). */
  datatype TextNode = TextNode(text: string, textType: TextType, url: Option<string>)

  /**
   * A childless HTML node: an optional tag (no tag renders the value as raw
   * text), an optional value (an image has none) and its attributes as
   * (name, value) pairs in insertion order. An attribute's value may be
   * `None` when it was taken from a node without a URL.
   */
  datatype LeafNode = LeafNode(tag: Option<string>, value: Option<string>, props: seq<(string, Option<string>)>)
}
