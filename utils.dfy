/** The inline conversion utilities: a text node to an HTML leaf, and splitting a list of text
    nodes on a delimiter. */
module Utils {
  import opened Wrappers
  import opened TextNodes
  import opened HtmlNodes
  import opened PyStrings
  import opened Sequences

  // ---------------------------------------------------------------------------
  // text_node_to_html_node

  /** The leaf a text node becomes. The source's `match` has no default arm, so a type it does
      not list (`Normal`) falls off the end and yields `None`. */
  function TextNodeToHtmlNode(n: TextNode): (r: Option<LeafNode>)
    ensures r.Some? <==> n.textType != Normal
    ensures r.Some? && n.textType != Image ==> r.value.value == n.text
    ensures r.Some? ==> (r.value.props.None? <==> n.textType !in {Link, Image})
  {
    match n.textType
    case Text => Some(LeafNode(None, n.text))
    case Bold => Some(LeafNode(Some("b"), n.text))
    case Italic => Some(LeafNode(Some("i"), n.text))
    case Code => Some(LeafNode(Some("code"), n.text))
    case Link => Some(LeafNode(Some("a"), n.text, Some([("href", n.url)])))
    case Image => Some(LeafNode(Some("img"), "", Some([("src", n.url), ("alt", Some(n.text))])))
    case Normal => None
  }

  /** Reads a leaf back as the text node it renders: the tag names the type, an `a` leaf
      carries its url in `href`, an `img` leaf carries url and text in `src` and `alt`. */
  function LeafToTextNode(leaf: LeafNode): Option<TextNode>
  {
    match (leaf.tag, leaf.props)
    case (None, None) => Some(TextNode(leaf.value, Text, None))
    case (Some(tag), None) =>
      if tag == "b" then Some(TextNode(leaf.value, Bold, None))
      else if tag == "i" then Some(TextNode(leaf.value, Italic, None))
      else if tag == "code" then Some(TextNode(leaf.value, Code, None))
      else None
    case (Some(tag), Some(ps)) =>
      if tag == "a" && |ps| == 1 && ps[0].0 == "href" then
        Some(TextNode(leaf.value, Link, ps[0].1))
      else if tag == "img" && leaf.value == "" && |ps| == 2 && ps[0].0 == "src"
              && ps[1].0 == "alt" && ps[1].1.Some? then
        Some(TextNode(ps[1].1.value, Image, ps[0].1))
      else None
    case (None, Some(_)) => None
  }

  /** The conversion keeps everything but the url of a type that has no use for one. */
  function Normalized(n: TextNode): TextNode
  {
    if n.textType in {Link, Image} then n else n.(url := None)
  }

  /** Every converted node reads back as itself, up to the url it had no use for. */
  lemma ToLeafAndBack(n: TextNode)
    requires n.textType != Normal
    ensures TextNodeToHtmlNode(n).Some?
    ensures LeafToTextNode(TextNodeToHtmlNode(n).value) == Some(Normalized(n))
  {
  }

  /** Every leaf that reads back as a text node is exactly what that node converts to. */
  lemma FromLeafAndBack(leaf: LeafNode)
    requires LeafToTextNode(leaf).Some?
    ensures TextNodeToHtmlNode(LeafToTextNode(leaf).value) == Some(leaf)
  {
    match (leaf.tag, leaf.props)
    case (None, None) =>
    case (Some(tag), None) =>
    case (Some(tag), Some(ps)) =>
      if tag == "a" {
        assert ps == [("href", ps[0].1)];
      } else {
        assert ps == [("src", ps[0].1), ("alt", ps[1].1)];
      }
  }

  // ---------------------------------------------------------------------------
  // split_nodes_delimiter

  /** The node made of fragment `i` of a split: even positions are plain text, odd ones lie
      between a pair of delimiters and take the requested type. No url is carried over. */
  function Fragment(text: string, i: nat, textType: TextType): TextNode
  {
    TextNode(text, if i % 2 == 0 then Text else textType, None)
  }

  /** The nodes made of a whole split, in fragment order. */
  function Fragments(parts: seq<string>, textType: TextType): seq<TextNode>
  {
    if |parts| == 0 then []
    else Fragments(parts[..|parts| - 1], textType) + [Fragment(parts[|parts| - 1], |parts| - 1, textType)]
  }

  /** Appending a fragment appends its node, typed by its position. */
  lemma FragmentsSnoc(parts: seq<string>, part: string, textType: TextType)
    ensures Fragments(parts + [part], textType) == Fragments(parts, textType) + [Fragment(part, |parts|, textType)]
  {
    SnocInverse(parts, part);
  }

  /** The nodes one input node contributes. */
  function SplitNode(n: TextNode, delimiter: string, textType: TextType): seq<TextNode>
    requires |delimiter| > 0
  {
    Fragments(Split(n.text, delimiter), textType)
  }

  /** What `split_nodes_delimiter` returns: each input node's fragments, in input order. */
  function SplitNodes(nodes: seq<TextNode>, delimiter: string, textType: TextType): seq<TextNode>
    requires |delimiter| > 0
  {
    if |nodes| == 0 then []
    else SplitNodes(nodes[..|nodes| - 1], delimiter, textType)
         + SplitNode(nodes[|nodes| - 1], delimiter, textType)
  }

  /** The sum over the nodes of (delimiter occurrences in the text + 1). */
  function FragmentTotal(nodes: seq<TextNode>, delimiter: string): nat
    requires |delimiter| > 0
  {
    if |nodes| == 0 then 0
    else FragmentTotal(nodes[..|nodes| - 1], delimiter) + Count(nodes[|nodes| - 1].text, delimiter) + 1
  }

  /** The texts of a list of nodes. */
  function Texts(ns: seq<TextNode>): (r: seq<string>)
    ensures |r| == |ns| && forall i :: 0 <= i < |ns| ==> r[i] == ns[i].text
  {
    seq(|ns|, i requires 0 <= i < |ns| => ns[i].text)
  }

  /** The nodes of a split are its fragments, typed by the parity of their position. */
  lemma {:induction false} FragmentsAt(parts: seq<string>, textType: TextType)
    ensures |Fragments(parts, textType)| == |parts|
    ensures forall i :: 0 <= i < |parts| ==> Fragments(parts, textType)[i] == Fragment(parts[i], i, textType)
    decreases |parts|
  {
    if |parts| > 0 {
      var init := parts[..|parts| - 1];
      FragmentsAt(init, textType);
      assert forall i :: 0 <= i < |init| ==> init[i] == parts[i];
    }
  }

  /** One node splits into (occurrences + 1) nodes; fragment `i` keeps its text, loses any url,
      and is plain text at even `i` and the requested type at odd `i`. */
  lemma SplitNodeShape(n: TextNode, delimiter: string, textType: TextType)
    requires |delimiter| > 0
    ensures |SplitNode(n, delimiter, textType)| == |Split(n.text, delimiter)| == Count(n.text, delimiter) + 1
    ensures forall i :: 0 <= i < |SplitNode(n, delimiter, textType)| ==>
      && SplitNode(n, delimiter, textType)[i].text == Split(n.text, delimiter)[i]
      && SplitNode(n, delimiter, textType)[i].url == None
      && SplitNode(n, delimiter, textType)[i].textType == (if i % 2 == 0 then Text else textType)
  {
    FragmentsAt(Split(n.text, delimiter), textType);
    SplitLength(n.text, delimiter);
  }

  /** Joining one node's fragments with the delimiter gives back its text. */
  lemma SplitNodeRoundTrip(n: TextNode, delimiter: string, textType: TextType)
    requires |delimiter| > 0
    ensures Join(Texts(SplitNode(n, delimiter, textType)), delimiter) == n.text
  {
    var parts := Split(n.text, delimiter);
    FragmentsAt(parts, textType);
    assert Texts(SplitNode(n, delimiter, textType)) == parts;
    SplitJoin(n.text, delimiter);
  }

  /** A node is left whole, as a single plain node, exactly when its text holds no delimiter. */
  lemma SplitNodeUnsplit(n: TextNode, delimiter: string, textType: TextType)
    requires |delimiter| > 0
    ensures Absent(n.text, delimiter) <==> SplitNode(n, delimiter, textType) == [TextNode(n.text, Text, None)]
  {
    SplitSingleton(n.text, delimiter);
    FragmentsAt(Split(n.text, delimiter), textType);
  }

  /** The last fragment is plain text when the delimiter count is even, and takes the requested
      type when it is odd, although no closing delimiter follows it. */
  lemma SplitNodeLastFragment(n: TextNode, delimiter: string, textType: TextType)
    requires |delimiter| > 0
    ensures |SplitNode(n, delimiter, textType)| > 0
    ensures SplitNode(n, delimiter, textType)[|SplitNode(n, delimiter, textType)| - 1].textType
         == if Count(n.text, delimiter) % 2 == 1 then textType else Text
  {
    SplitNodeShape(n, delimiter, textType);
  }

  /** Two adjacent delimiters produce an empty fragment, which is emitted with the requested type,
      whatever the type and url of the node being split. */
  lemma SplitNodeAdjacent(p: string, s: string, delimiter: string, nodeType: TextType, url: Option<string>,
                          textType: TextType)
    requires |delimiter| > 0
    requires forall j :: 0 <= j < |p| ==> !OccursAt(p + delimiter + delimiter + s, delimiter, j)
    ensures var r := SplitNode(TextNode(p + delimiter + delimiter + s, nodeType, url), delimiter, textType);
      |r| >= 3 && r[0] == TextNode(p, Text, None) && r[1] == TextNode("", textType, None)
  {
    var text := p + delimiter + delimiter + s;
    AdjacentSeparators(p, delimiter, s);
    FragmentsAt(Split(text, delimiter), textType);
  }

  /** Appending a node appends its fragments. */
  lemma SplitNodesSnoc(xs: seq<TextNode>, x: TextNode, delimiter: string, textType: TextType)
    requires |delimiter| > 0
    ensures SplitNodes(xs + [x], delimiter, textType) == SplitNodes(xs, delimiter, textType) + SplitNode(x, delimiter, textType)
  {
    assert (xs + [x])[..|xs|] == xs;
  }

  /** The inductive step of `SplitNodesAppend`: the law for `b` without its last node gives the
      law for `b`. */
  lemma SplitNodesAppendStep(a: seq<TextNode>, b: seq<TextNode>, delimiter: string, textType: TextType)
    requires |delimiter| > 0 && |b| > 0
    requires SplitNodes(a + b[..|b| - 1], delimiter, textType)
          == SplitNodes(a, delimiter, textType) + SplitNodes(b[..|b| - 1], delimiter, textType)
    ensures SplitNodes(a + b, delimiter, textType) == SplitNodes(a, delimiter, textType) + SplitNodes(b, delimiter, textType)
  {
    var b', last := b[..|b| - 1], b[|b| - 1];
    SnocParts(a, b);
    SplitNodesSnoc(a + b', last, delimiter, textType);
    SplitNodesSnoc(b', last, delimiter, textType);
    ConcatAssoc(SplitNodes(a, delimiter, textType), SplitNodes(b', delimiter, textType),
                SplitNode(last, delimiter, textType));
  }

  /** Splitting a concatenation of lists splits each list in turn: output order follows input
      order. */
  lemma {:induction false} SplitNodesAppend(a: seq<TextNode>, b: seq<TextNode>, delimiter: string, textType: TextType)
    requires |delimiter| > 0
    ensures SplitNodes(a + b, delimiter, textType) == SplitNodes(a, delimiter, textType) + SplitNodes(b, delimiter, textType)
    decreases |b|
  {
    if |b| == 0 {
      AppendEmpty(a, b);
    } else {
      SplitNodesAppend(a, b[..|b| - 1], delimiter, textType);
      SplitNodesAppendStep(a, b, delimiter, textType);
    }
  }

  /** The output holds (occurrences + 1) nodes per input node; no input gives no output. */
  lemma {:induction false} SplitNodesLength(nodes: seq<TextNode>, delimiter: string, textType: TextType)
    requires |delimiter| > 0
    ensures |SplitNodes(nodes, delimiter, textType)| == FragmentTotal(nodes, delimiter)
    ensures nodes == [] ==> SplitNodes(nodes, delimiter, textType) == []
    decreases |nodes|
  {
    if |nodes| > 0 {
      SplitNodesLength(nodes[..|nodes| - 1], delimiter, textType);
      SplitNodeShape(nodes[|nodes| - 1], delimiter, textType);
    }
  }

  /** Every output node is plain text or of the requested type and has no url, whatever type
      and url its input node had. */
  lemma {:induction false} SplitNodesRetype(nodes: seq<TextNode>, delimiter: string, textType: TextType)
    requires |delimiter| > 0
    ensures forall m :: m in SplitNodes(nodes, delimiter, textType) ==>
      m.url == None && (m.textType == Text || m.textType == textType)
    decreases |nodes|
  {
    if |nodes| > 0 {
      SplitNodesRetype(nodes[..|nodes| - 1], delimiter, textType);
      SplitNodeShape(nodes[|nodes| - 1], delimiter, textType);
    }
  }

  /** `split_nodes_delimiter`: for each node, for each fragment of its text's split, append a
      node typed by the fragment's parity. */
  method SplitNodesDelimiter(oldNodes: seq<TextNode>, delimiter: string, textType: TextType)
    returns (newNodeList: seq<TextNode>)
    requires |delimiter| > 0
    ensures newNodeList == SplitNodes(oldNodes, delimiter, textType)
  {
    newNodeList := [];
    for k := 0 to |oldNodes|
      invariant newNodeList == SplitNodes(oldNodes[..k], delimiter, textType)
    {
      var node := oldNodes[k];
      var splitNode := Split(node.text, delimiter);
      ghost var before := newNodeList;
      for i := 0 to |splitNode|
        invariant newNodeList == before + Fragments(splitNode[..i], textType)
      {
        var text := splitNode[i];
        if i % 2 == 0 {
          newNodeList := newNodeList + [TextNode(text, Text, None)];
        } else {
          newNodeList := newNodeList + [TextNode(text, textType, None)];
        }
        PrefixSnoc(splitNode, i);
        FragmentsSnoc(splitNode[..i], text, textType);
        ConcatAssoc(before, Fragments(splitNode[..i], textType), [Fragment(text, i, textType)]);
      }
      FullPrefix(splitNode);
      PrefixSnoc(oldNodes, k);
      SplitNodesSnoc(oldNodes[..k], node, delimiter, textType);
    }
    FullPrefix(oldNodes);
  }

  // ---------------------------------------------------------------------------
  // The shapes the unit tests exercise

  /** A one-node list splits as its node does. */
  lemma SplitOneNode(n: TextNode, delimiter: string, textType: TextType)
    requires |delimiter| > 0
    ensures SplitNodes([n], delimiter, textType) == SplitNode(n, delimiter, textType)
  {
    assert [n][..0] == [];
  }

  /** The nodes of a three-fragment split. */
  lemma ThreeFragments(a: string, b: string, c: string, textType: TextType)
    ensures Fragments([a, b, c], textType) == [TextNode(a, Text), TextNode(b, textType), TextNode(c, Text)]
  {
    FragmentsAt([a, b, c], textType);
  }

  /** The nodes of a five-fragment split. */
  lemma FiveFragments(a: string, b: string, c: string, e: string, f: string, textType: TextType)
    ensures Fragments([a, b, c, e, f], textType)
         == [TextNode(a, Text), TextNode(b, textType), TextNode(c, Text), TextNode(e, textType), TextNode(f, Text)]
  {
    FragmentsAt([a, b, c, e, f], textType);
  }

  /** Text with one delimited span, `a` + d + `b` + d + `c`, gives plain `a`, the span `b` with
      the requested type, and plain `c` (the code and bold tests). */
  lemma OnePairSplit(a: string, b: string, c: string, delimiter: string, textType: TextType, n: TextNode)
    requires |delimiter| > 0
    requires delimiter[0] !in a && delimiter[0] !in b && delimiter[0] !in c
    requires n.text == a + delimiter + b + delimiter + c
    ensures SplitNodes([n], delimiter, textType)
         == [TextNode(a, Text), TextNode(b, textType), TextNode(c, Text)]
  {
    SplitOnePair(a, b, c, delimiter);
    SplitOneNode(n, delimiter, textType);
    ThreeFragments(a, b, c, textType);
  }

  /** Text with two delimited spans gives five nodes, alternating plain and the requested type
      (the multiple code spans test). */
  lemma TwoPairSplit(a: string, b: string, c: string, e: string, f: string, delimiter: string,
                     textType: TextType, n: TextNode)
    requires |delimiter| > 0
    requires delimiter[0] !in a && delimiter[0] !in b && delimiter[0] !in c
    requires delimiter[0] !in e && delimiter[0] !in f
    requires n.text == a + delimiter + b + delimiter + c + delimiter + e + delimiter + f
    ensures SplitNodes([n], delimiter, textType)
         == [TextNode(a, Text), TextNode(b, textType), TextNode(c, Text), TextNode(e, textType), TextNode(f, Text)]
  {
    SplitTwoPairs(a, b, c, e, f, delimiter);
    SplitOneNode(n, delimiter, textType);
    FiveFragments(a, b, c, e, f, textType);
  }

  /** The code span test. */
  lemma CodeSplitExample()
    ensures SplitNodes([TextNode("This is a piece of text with a `code block` in it.", Text)], "`", Code)
         == [TextNode("This is a piece of text with a ", Text), TextNode("code block", Code), TextNode(" in it.", Text)]
  {
    OnePairSplit("This is a piece of text with a ", "code block", " in it.", "`", Code,
                 TextNode("This is a piece of text with a `code block` in it.", Text));
  }

  /** The bold span test. */
  lemma BoldSplitExample()
    ensures SplitNodes([TextNode("This is a piece of text with **BOLD TEXT** in it.", Text)], "**", Bold)
         == [TextNode("This is a piece of text with ", Text), TextNode("BOLD TEXT", Bold), TextNode(" in it.", Text)]
  {
    OnePairSplit("This is a piece of text with ", "BOLD TEXT", " in it.", "**", Bold,
                 TextNode("This is a piece of text with **BOLD TEXT** in it.", Text));
  }

  /** The test with two code spans. */
  lemma MultipleCodeSplitExample()
    ensures SplitNodes([TextNode("This is a piece of text with two `code` `blocks` in it.", Text)], "`", Code)
         == [TextNode("This is a piece of text with two ", Text), TextNode("code", Code), TextNode(" ", Text),
             TextNode("blocks", Code), TextNode(" in it.", Text)]
  {
    TwoPairSplit("This is a piece of text with two ", "code", " ", "blocks", " in it.", "`", Code,
                 TextNode("This is a piece of text with two `code` `blocks` in it.", Text));
  }
}
