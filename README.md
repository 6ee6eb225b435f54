# Inline token layer of a markdown static site generator

This project models the inline token layer of a small Python static site
generator (`src/util.py`) in Dafny and proves properties of it:

- **`text_node_to_html_node`** maps a typed text node (plain text, bold,
  italic, code, link, image) to a leaf HTML node given by an optional tag,
  an optional value and ordered attributes. Any other kind raises an error.
- **`split_nodes_delimiter`** walks a list of text nodes. Nodes that are not
  plain text pass through unchanged. Each plain text node is split on a
  markdown delimiter (`**`, `_`, a backtick) with Python's `str.split`, and
  its parts are emitted alternately as plain text and the given style. An
  odd number of delimiters in a node raises an "unclosed delimiter" error.

Modules:

- `Results` (`results.dfy`): `Option` and `Result`, which stand in for
  Python's `None` and raised exceptions.
- `Nodes` (`nodes.dfy`): `TextType`, `TextNode` and `LeafNode`, with only the
  fields the two operations use.
- `StrSplit` (`strsplit.dfy`): Python's `str.split`, `str.join` and
  `str.count` for a non-empty separator, with the split/join round trip and
  a characterization of the split by the leftmost occurrence.
- `Util` (`util.dfy`): the two operations. `SplitNodesDelimiter` is the
  source's loop, written as a method. It is proved equal to the
  specification function `SplitNodes`, and the properties of the split are
  proved about `SplitNodes`.

Where the code and its tests disagree, the model follows the code. Bold maps
to the tag `strong` and italic to `em` (src/util.py:11-13), but
src/test_util.py:16 expects `b`. The test at src/test_node_conversion.py:18
expects `strong`, but it imports `text_node_to_html_node` from a module
`src.node_conversion` (src/test_node_conversion.py:4), not from
src/util.py.

## Model

| member | source | states |
|---|---|---|
| Util.TextNodeToHtmlNode | src/util.py:6-21 | Fails exactly for a kind outside the six known ones. Plain text has no tag; bold, italic and code get the tags `strong`, `em` and `code`; a link gets `a` with the single attribute `href`, an image `img` with the single attribute `src`, whose value in both cases is the node's URL. The other kinds carry no attributes. The value is the node's text for every kind except image, which has no value. |
| Util.ConversionRoundTrip | src/util.py:8-19 | Reading a converted leaf back gives the original node: its kind, its text and, for a link or an image, its URL. An image comes back with empty text, because the image case drops the text. |
| Util.ConversionInjective | src/util.py:8-19 | Two known nodes that produce the same leaf have the same kind. They also have the same text unless they are images, and the same URL if they are links or images. |
| Util.SplitNodesDelimiter | src/util.py:24-44 | The loop over the input, with its inner loop over the parts and the flag that flips on each part, returns exactly `SplitNodes`: the same output list, or the same error from the first failing node. |
| Util.SplitNodesPrefixFailure | src/util.py:33-34 | Once a node fails, processing stops: the whole call fails with that node's error, whatever follows it. |
| Util.ExpandNodeShape | src/util.py:26-42 | A node that is not plain text is copied as is. A plain text node fails, naming the delimiter and the text, exactly when it holds an odd number of delimiters. Otherwise k delimiters give k + 1 URL-less nodes: plain at even offsets, the given style at odd offsets, empty parts kept. The parts are exactly those of `str.split`, found left to right. No part contains the delimiter, and the parts joined with the delimiter give back the text. |
| Util.SplitNodesSingle | src/util.py:26-42 | A one-node list yields exactly that node's contribution. |
| Util.SplitNodesAppend | src/util.py:25-44 | Splitting a concatenation splits each half and concatenates the outputs, so nodes keep their relative order. An error in the left half wins. |
| Util.SplitNodesSucceedsIff | src/util.py:31-34 | The call succeeds if and only if every plain text node holds an even number of delimiters. |
| Util.SplitNodesFirstError | src/util.py:26-34 | The error carries the delimiter and the text of the first plain text node with an odd number of delimiters. |
| Util.SplitNodesLength | src/util.py:36-42 | A successful call yields one output node per node that is not plain text, plus k + 1 nodes per plain text node with k delimiters. |
| Util.SplitNodesOutputSettled | src/util.py:36-42 | Every output node is either not plain text, or plain text with no URL and no delimiter. |
| Util.SettledNodesUnchanged | src/util.py:27-29 | A list whose plain text nodes hold no delimiter and no URL comes out unchanged. A node that is not plain text is never re-split in any list; that case is the third clause of `Util.ExpandNodeShape` together with `Util.SplitNodesAppend`. |
| Util.SplitNodesIdempotent | src/util.py:24-44 | Splitting a successful output again with the same delimiter returns it unchanged. |
| StrSplit.Split | src/util.py:31 | `str.split` always yields at least one part, and the first part is a prefix of the string. |
| StrSplit.JoinSplit | src/util.py:31 | Joining the parts of a split with the delimiter gives back the original string. |
| StrSplit.SplitPiecesFree | src/util.py:31 | No part of a split contains the delimiter. |
| StrSplit.SplitLength | src/util.py:31-33 | A split has exactly one more part than the string has non-overlapping delimiter occurrences (`str.count`). An even number of parts therefore means an odd number of delimiters. |
| StrSplit.SplitFree | src/util.py:31 | A string without the delimiter splits into itself alone. |
| StrSplit.SplitSingleIff | src/util.py:31 | A split yields a single part if and only if the delimiter does not occur. |
| StrSplit.SplitAtLeftmost | src/util.py:31 | The first part ends at the leftmost occurrence of the delimiter. After it, splitting continues on the rest of the string, so occurrences do not overlap. |

## Left out

- src/main.py and the functions it calls (copying static files, generating pages): file I/O whose source is not part of this model.
- The other tokenizer and block functions (`extract_markdown_images`, `extract_markdown_links`, `split_nodes_image`, `split_nodes_link`, `text_to_textnodes`, `markdown_to_blocks`, `block_to_block_type`, `markdown_to_html_node`, `extract_title`): their implementations are not part of this model.
- HTML rendering, `props_to_html`, and the equality and printed form of `TextNode`: they live in `htmlnode.py` and `textnode.py`, which are not part of this model. `LeafNode` is modelled only by the fields the conversion sets. The attributes of a leaf built without `props` are modelled as an empty list.
- The text of the raised exceptions: errors are values (`InvalidTextType` and `UnclosedDelimiter` with the delimiter and the text), not messages.
- An empty delimiter: Python's `str.split("")` raises its own `ValueError`. Every split operation here requires a non-empty delimiter.
- The names of the text types' enum values, such as `"bold text"`: nothing here depends on them. A value outside the enumeration is modelled as `Other(name)`.
- In-place appending to the Python list: `SplitNodesDelimiter` builds its output as a sequence value. Aliasing of the list is not modelled.
