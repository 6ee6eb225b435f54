/**
 * The inline token layer of the static site generator: mapping a text node
 * to a leaf HTML node, and splitting plain text nodes on a markdown
 * delimiter such as `**`, `_` or a backtick.
 */
module Util {
  import opened Results
  import opened Nodes
  import opened StrSplit

  /** The error raised for a text node whose kind is outside the known six. */
  datatype ConversionError = InvalidTextType

  /** The error raised when a plain text node holds an odd number of delimiters. */
  datatype SplitError = UnclosedDelimiter(delimiter: string, text: string)

  // ---------------------------------------------------------------------
  // text_node_to_html_node
  // ---------------------------------------------------------------------

  /**
   * Maps a text node to the leaf HTML node that renders it: plain text has
   * no tag, the three styles get `strong`, `em` and `code`, a link is an `a`
   * carrying its URL as `href`, an image is a value-less `img` carrying its
   * URL as `src`. Any other kind is an error.
   */
  function TextNodeToHtmlNode(node: TextNode): (r: Result<LeafNode, ConversionError>)
    ensures r.Failure? <==> !node.textType.IsKnown()
    ensures r.Success? ==> (r.value.tag.None? <==> node.textType == Text)
    ensures r.Success? ==> (r.value.value == Some(node.text) <==> node.textType != Image)
    ensures r.Success? ==> (r.value.value.None? <==> node.textType == Image)
    ensures r.Success? && node.textType in {Link, Image} ==> |r.value.props| == 1 && r.value.props[0].1 == node.url
    ensures r.Success? && node.textType !in {Link, Image} ==> r.value.props == []
    ensures node.textType == Bold ==> r.Success? && r.value.tag == Some("strong")
    ensures node.textType == Italic ==> r.Success? && r.value.tag == Some("em")
    ensures node.textType == Code ==> r.Success? && r.value.tag == Some("code")
    ensures node.textType == Link ==> r.Success? && r.value.tag == Some("a") && r.value.props[0].0 == "href"
    ensures node.textType == Image ==> r.Success? && r.value.tag == Some("img") && r.value.props[0].0 == "src"
  {
    match node.textType
    case Text => Success(LeafNode(None, Some(node.text), []))
    case Bold => Success(LeafNode(Some("strong"), Some(node.text), []))
    case Italic => Success(LeafNode(Some("em"), Some(node.text), []))
    case Code => Success(LeafNode(Some("code"), Some(node.text), []))
    case Link => Success(LeafNode(Some("a"), Some(node.text), [("href", node.url)]))
    case Image => Success(LeafNode(Some("img"), None, [("src", node.url)]))
    case Other(_) => Failure(InvalidTextType)
  }

  /**
   * Reads a leaf back as the text node it renders, from its tag, value and
   * attributes; `None` for a leaf that no text node maps to.
   */
  function LeafToTextNode(leaf: LeafNode): Option<TextNode>
  {
    var bare := leaf.value.Some? && leaf.props == [];
    var oneProp := |leaf.props| == 1;
    if leaf.tag.None? then
      if bare then Some(TextNode(leaf.value.value, Text, None)) else None
    else if leaf.tag.value == "strong" && bare then Some(TextNode(leaf.value.value, Bold, None))
    else if leaf.tag.value == "em" && bare then Some(TextNode(leaf.value.value, Italic, None))
    else if leaf.tag.value == "code" && bare then Some(TextNode(leaf.value.value, Code, None))
    else if leaf.tag.value == "a" && leaf.value.Some? && oneProp && leaf.props[0].0 == "href" then
      Some(TextNode(leaf.value.value, Link, leaf.props[0].1))
    else if leaf.tag.value == "img" && leaf.value.None? && oneProp && leaf.props[0].0 == "src" then
      Some(TextNode("", Image, leaf.props[0].1))
    else None
  }

  /**
   * The conversion loses nothing but an image's text: reading the leaf back
   * gives the node's kind, its text (empty for an image) and, for a link or
   * an image, its URL. Nodes of the plain and styled kinds carry no URL.
   */
  lemma ConversionRoundTrip(node: TextNode)
    requires node.textType.IsKnown()
    requires node.textType !in {Link, Image} ==> node.url == None
    ensures TextNodeToHtmlNode(node).Success?
    ensures LeafToTextNode(TextNodeToHtmlNode(node).value)
         == Some(if node.textType == Image then TextNode("", Image, node.url) else node)
  {
  }

  /** Two known nodes that map to the same leaf have the same kind, and the same text unless they are images. */
  lemma ConversionInjective(n1: TextNode, n2: TextNode)
    requires TextNodeToHtmlNode(n1).Success? && TextNodeToHtmlNode(n2).Success?
    requires TextNodeToHtmlNode(n1) == TextNodeToHtmlNode(n2)
    ensures n1.textType == n2.textType
    ensures n1.textType != Image ==> n1.text == n2.text
    ensures n1.textType in {Link, Image} ==> n1.url == n2.url
  {
  }

  // ---------------------------------------------------------------------
  // split_nodes_delimiter
  // ---------------------------------------------------------------------

  /** The parts as text nodes, alternating plain text and `textType`, starting with plain text. */
  function Alternate(parts: seq<string>, textType: TextType): seq<TextNode>
  {
    seq(|parts|, i requires 0 <= i < |parts| =>
      TextNode(parts[i], if i % 2 == 0 then Text else textType, None))
  }

  /** The texts of a sequence of nodes. */
  function Texts(nodes: seq<TextNode>): seq<string>
  {
    seq(|nodes|, i requires 0 <= i < |nodes| => nodes[i].text)
  }

  /**
   * What one input node contributes to the output: a node that is not plain
   * text as it is; a plain text node as its delimiter-separated parts, which
   * must be odd in number.
   */
  function ExpandNode(node: TextNode, delimiter: string, textType: TextType): Result<seq<TextNode>, SplitError>
    requires |delimiter| > 0
  {
    if node.textType != Text then Success([node])
    else
      var parts := Split(node.text, delimiter);
      if |parts| % 2 == 0 then Failure(UnclosedDelimiter(delimiter, node.text))
      else Success(Alternate(parts, textType))
  }

  /**
   * The result of splitting a list of nodes, node by node from the left; the
   * first node that fails decides the error.
   */
  function SplitNodes(nodes: seq<TextNode>, delimiter: string, textType: TextType): Result<seq<TextNode>, SplitError>
    requires |delimiter| > 0
    decreases |nodes|
  {
    if nodes == [] then Success([])
    else Then(SplitNodes(nodes[..|nodes| - 1], delimiter, textType), ExpandNode(nodes[|nodes| - 1], delimiter, textType))
  }

  /** The first failure of two steps, or the concatenation of their outputs. */
  function Then(first: Result<seq<TextNode>, SplitError>, second: Result<seq<TextNode>, SplitError>): Result<seq<TextNode>, SplitError>
  {
    match first
    case Failure(e) => Failure(e)
    case Success(done) =>
      match second
      case Failure(e) => Failure(e)
      case Success(more) => Success(done + more)
  }

  /** Once a prefix of the list fails, the whole list fails with the same error. */
  lemma {:induction false} SplitNodesPrefixFailure(nodes: seq<TextNode>, i: nat, delimiter: string, textType: TextType)
    requires |delimiter| > 0 && i <= |nodes|
    requires SplitNodes(nodes[..i], delimiter, textType).Failure?
    ensures SplitNodes(nodes, delimiter, textType) == SplitNodes(nodes[..i], delimiter, textType)
    decreases |nodes| - i
  {
    if i < |nodes| {
      var next := nodes[..i + 1];
      assert next[..|next| - 1] == nodes[..i];
      SplitNodesPrefixFailure(nodes, i + 1, delimiter, textType);
    } else {
      assert nodes[..i] == nodes;
    }
  }

  /** Splitting one more node of the list combines the prefix's result with that node's contribution. */
  lemma SplitNodesStep(nodes: seq<TextNode>, i: nat, delimiter: string, textType: TextType)
    requires |delimiter| > 0 && i < |nodes|
    ensures SplitNodes(nodes[..i + 1], delimiter, textType)
         == Then(SplitNodes(nodes[..i], delimiter, textType), ExpandNode(nodes[i], delimiter, textType))
  {
    assert nodes[..i + 1][..i] == nodes[..i];
  }

  /** Alternating one more part appends its node, plain at even positions and styled at odd ones. */
  lemma AlternateStep(parts: seq<string>, j: nat, textType: TextType)
    requires j < |parts|
    ensures Alternate(parts[..j + 1], textType)
         == Alternate(parts[..j], textType) + [TextNode(parts[j], if j % 2 == 0 then Text else textType, None)]
  {
  }

  /**
   * `split_nodes_delimiter`: every node that is not plain text is copied;
   * every plain text node is replaced by its delimiter-separated parts,
   * alternately plain and `textType`; an even number of parts is an error.
   */
  method SplitNodesDelimiter(oldNodes: seq<TextNode>, delimiter: string, textType: TextType)
    returns (result: Result<seq<TextNode>, SplitError>)
    requires |delimiter| > 0
    ensures result == SplitNodes(oldNodes, delimiter, textType)
  {
    var newNodes: seq<TextNode> := [];
    for i := 0 to |oldNodes|
      invariant SplitNodes(oldNodes[..i], delimiter, textType) == Success(newNodes)
    {
      var node := oldNodes[i];
      SplitNodesStep(oldNodes, i, delimiter, textType);
      if node.textType != Text {
        newNodes := newNodes + [node];
        continue;
      }
      var parts := Split(node.text, delimiter);
      if |parts| % 2 == 0 {
        SplitNodesPrefixFailure(oldNodes, i + 1, delimiter, textType);
        return Failure(UnclosedDelimiter(delimiter, node.text));
      }
      ghost var before := newNodes;
      var isOpen := false;
      for j := 0 to |parts|
        invariant isOpen == (j % 2 == 1)
        invariant newNodes == before + Alternate(parts[..j], textType)
      {
        AlternateStep(parts, j, textType);
        if isOpen {
          newNodes := newNodes + [TextNode(parts[j], textType, None)];
        } else {
          newNodes := newNodes + [TextNode(parts[j], Text, None)];
        }
        isOpen := !isOpen;
      }
      assert parts[..|parts|] == parts;
    }
    assert oldNodes[..|oldNodes|] == oldNodes;
    return Success(newNodes);
  }

  // ---------------------------------------------------------------------
  // Properties of split_nodes_delimiter
  // ---------------------------------------------------------------------

  /** A node the split accepts: not plain text, or plain text holding an even number of delimiters. */
  predicate Balanced(node: TextNode, delimiter: string)
    requires |delimiter| > 0
  {
    node.textType == Text ==> Count(node.text, delimiter) % 2 == 0
  }

  /**
   * One node's contribution. A node that is not plain text is kept as it is.
   * A plain text node with an odd number of delimiters is the error naming
   * the delimiter and the text. Otherwise its k delimiters give k + 1 nodes
   * without URLs, plain at even offsets and `textType` at odd ones, none of
   * whose texts contains the delimiter and whose texts joined with the
   * delimiter give back the original text.
   */
  lemma ExpandNodeShape(node: TextNode, delimiter: string, textType: TextType)
    requires |delimiter| > 0
    ensures ExpandNode(node, delimiter, textType).Failure? <==> !Balanced(node, delimiter)
    ensures ExpandNode(node, delimiter, textType).Failure? ==>
      ExpandNode(node, delimiter, textType).error == UnclosedDelimiter(delimiter, node.text)
    ensures node.textType != Text ==> ExpandNode(node, delimiter, textType) == Success([node])
    ensures node.textType == Text && ExpandNode(node, delimiter, textType).Success? ==>
      var out := ExpandNode(node, delimiter, textType).value;
      && Texts(out) == Split(node.text, delimiter)
      && |out| == Count(node.text, delimiter) + 1
      && (forall i :: 0 <= i < |out| ==>
            && out[i].textType == (if i % 2 == 0 then Text else textType)
            && out[i].url == None
            && !Contains(out[i].text, delimiter))
      && Join(Texts(out), delimiter) == node.text
  {
    if node.textType == Text {
      var parts := Split(node.text, delimiter);
      SplitLength(node.text, delimiter);
      SplitPiecesFree(node.text, delimiter);
      JoinSplit(node.text, delimiter);
      assert Texts(Alternate(parts, textType)) == parts;
    }
  }

  /** Splitting a one-node list is that node's contribution. */
  lemma SplitNodesSingle(node: TextNode, delimiter: string, textType: TextType)
    requires |delimiter| > 0
    ensures SplitNodes([node], delimiter, textType) == ExpandNode(node, delimiter, textType)
  {
    assert [node][..0] == [];
    var e := ExpandNode(node, delimiter, textType);
    if e.Success? {
      assert [] + e.value == e.value;
    }
  }

  /** Combining steps is associative. */
  lemma ThenAssociative(x: Result<seq<TextNode>, SplitError>, y: Result<seq<TextNode>, SplitError>, z: Result<seq<TextNode>, SplitError>)
    ensures Then(Then(x, y), z) == Then(x, Then(y, z))
  {
    if x.Success? && y.Success? && z.Success? {
      assert (x.value + y.value) + z.value == x.value + (y.value + z.value);
    }
  }

  /**
   * Splitting a concatenation splits each half and concatenates the outputs:
   * nodes keep their relative order, and the left half's error wins.
   */
  lemma {:induction false} SplitNodesAppend(a: seq<TextNode>, b: seq<TextNode>, delimiter: string, textType: TextType)
    requires |delimiter| > 0
    ensures SplitNodes(a + b, delimiter, textType)
         == Then(SplitNodes(a, delimiter, textType), SplitNodes(b, delimiter, textType))
    decreases |b|
  {
    if b == [] {
      assert a + b == a;
      var x := SplitNodes(a, delimiter, textType);
      if x.Success? {
        assert x.value + [] == x.value;
      }
    } else {
      var c := a + b;
      var b' := b[..|b| - 1];
      assert c[..|c| - 1] == a + b';
      assert c[|c| - 1] == b[|b| - 1];
      SplitNodesAppend(a, b', delimiter, textType);
      ThenAssociative(SplitNodes(a, delimiter, textType), SplitNodes(b', delimiter, textType),
        ExpandNode(b[|b| - 1], delimiter, textType));
    }
  }

  /** The split succeeds exactly when every plain text node holds an even number of delimiters. */
  lemma {:induction false} SplitNodesSucceedsIff(nodes: seq<TextNode>, delimiter: string, textType: TextType)
    requires |delimiter| > 0
    ensures SplitNodes(nodes, delimiter, textType).Success?
        <==> forall i :: 0 <= i < |nodes| ==> Balanced(nodes[i], delimiter)
    decreases |nodes|
  {
    if nodes != [] {
      var n := |nodes| - 1;
      SplitNodesSucceedsIff(nodes[..n], delimiter, textType);
      ExpandNodeShape(nodes[n], delimiter, textType);
      if forall i :: 0 <= i < |nodes| ==> Balanced(nodes[i], delimiter) {
        assert forall i :: 0 <= i < n ==> nodes[..n][i] == nodes[i];
      } else {
        var i :| 0 <= i < |nodes| && !Balanced(nodes[i], delimiter);
        if i < n {
          assert nodes[..n][i] == nodes[i];
        }
      }
    }
  }

  /** The error names the delimiter and the text of the first unbalanced plain text node. */
  lemma SplitNodesFirstError(nodes: seq<TextNode>, i: nat, delimiter: string, textType: TextType)
    requires |delimiter| > 0 && i < |nodes|
    requires !Balanced(nodes[i], delimiter)
    requires forall j :: 0 <= j < i ==> Balanced(nodes[j], delimiter)
    ensures SplitNodes(nodes, delimiter, textType) == Failure(UnclosedDelimiter(delimiter, nodes[i].text))
  {
    assert forall j :: 0 <= j < i ==> nodes[..i][j] == nodes[j];
    SplitNodesSucceedsIff(nodes[..i], delimiter, textType);
    var next := nodes[..i + 1];
    assert next[..i] == nodes[..i];
    ExpandNodeShape(nodes[i], delimiter, textType);
    SplitNodesPrefixFailure(nodes, i + 1, delimiter, textType);
  }

  /** The number of nodes a successful split yields: k + 1 per plain text node with k delimiters, 1 per other node. */
  function OutputSize(nodes: seq<TextNode>, delimiter: string): nat
    requires |delimiter| > 0
    decreases |nodes|
  {
    if nodes == [] then 0
    else
      var last := nodes[|nodes| - 1];
      OutputSize(nodes[..|nodes| - 1], delimiter) + (if last.textType == Text then Count(last.text, delimiter) + 1 else 1)
  }

  /** A successful split yields exactly `OutputSize` nodes. */
  lemma {:induction false} SplitNodesLength(nodes: seq<TextNode>, delimiter: string, textType: TextType)
    requires |delimiter| > 0
    requires SplitNodes(nodes, delimiter, textType).Success?
    ensures |SplitNodes(nodes, delimiter, textType).value| == OutputSize(nodes, delimiter)
    decreases |nodes|
  {
    if nodes != [] {
      SplitNodesLength(nodes[..|nodes| - 1], delimiter, textType);
      ExpandNodeShape(nodes[|nodes| - 1], delimiter, textType);
    }
  }

  /** A node the split leaves as it is: not plain text, or plain text without a URL and without the delimiter. */
  predicate Settled(node: TextNode, delimiter: string)
  {
    node.textType == Text ==> node.url == None && !Contains(node.text, delimiter)
  }

  /** Every node a successful split yields is settled for the same delimiter. */
  lemma {:induction false} SplitNodesOutputSettled(nodes: seq<TextNode>, delimiter: string, textType: TextType)
    requires |delimiter| > 0
    requires SplitNodes(nodes, delimiter, textType).Success?
    ensures forall i :: 0 <= i < |SplitNodes(nodes, delimiter, textType).value| ==>
      Settled(SplitNodes(nodes, delimiter, textType).value[i], delimiter)
    decreases |nodes|
  {
    if nodes != [] {
      SplitNodesOutputSettled(nodes[..|nodes| - 1], delimiter, textType);
      ExpandNodeShape(nodes[|nodes| - 1], delimiter, textType);
    }
  }

  /**
   * A list of settled nodes passes through the split unchanged; in
   * particular a list without plain text nodes, such as nodes already made
   * bold by an earlier pass, is never re-split.
   */
  lemma {:induction false} SettledNodesUnchanged(nodes: seq<TextNode>, delimiter: string, textType: TextType)
    requires |delimiter| > 0
    requires forall i :: 0 <= i < |nodes| ==> Settled(nodes[i], delimiter)
    ensures SplitNodes(nodes, delimiter, textType) == Success(nodes)
    decreases |nodes|
  {
    if nodes != [] {
      var n := |nodes| - 1;
      var prefix := nodes[..n];
      forall i | 0 <= i < |prefix| ensures Settled(prefix[i], delimiter) {
        assert prefix[i] == nodes[i];
      }
      SettledNodesUnchanged(prefix, delimiter, textType);
      SettledNodeUnchanged(nodes[n], delimiter, textType);
      SplitNodesStep(nodes, n, delimiter, textType);
      assert nodes[..n + 1] == nodes;
      assert prefix + [nodes[n]] == nodes;
    }
  }

  /** A settled node contributes itself alone. */
  lemma SettledNodeUnchanged(node: TextNode, delimiter: string, textType: TextType)
    requires |delimiter| > 0 && Settled(node, delimiter)
    ensures ExpandNode(node, delimiter, textType) == Success([node])
  {
    if node.textType == Text {
      SplitFree(node.text, delimiter);
      assert Alternate([node.text], textType) == [node];
    }
  }

  /** Splitting the output of a successful split again with the same delimiter changes nothing. */
  lemma SplitNodesIdempotent(nodes: seq<TextNode>, delimiter: string, textType: TextType)
    requires |delimiter| > 0
    requires SplitNodes(nodes, delimiter, textType).Success?
    ensures var out := SplitNodes(nodes, delimiter, textType).value;
      SplitNodes(out, delimiter, textType) == Success(out)
  {
    SplitNodesOutputSettled(nodes, delimiter, textType);
    SettledNodesUnchanged(SplitNodes(nodes, delimiter, textType).value, delimiter, textType);
  }
}
