# Inline core of a markdown-to-HTML static site generator

This project models, in Dafny, the inline half of a small markdown-to-HTML converter:

- `text_node_to_html_node` (src/utils.py) turns a text node — a piece of text with a formatting
  role (plain text, bold, italic, code, link, image) — into an HTML leaf record: tag, value and
  attributes.
- `split_nodes_delimiter` (src/utils.py) splits the text of every node of a list on a literal
  delimiter such as `` ` `` or `**`. Fragments at even positions become plain text nodes, fragments
  at odd positions take the requested type.
- `HTMLNode` (src/htmlnode.py) is the base HTML node: a tag, a value, children and attributes.
  Its `props_to_html` renders the attributes as ` key="value"` pairs in insertion order, and its
  `to_html` always raises `NotImplementedError`.

Files:

- `wrappers.dfy` — `Option` (Python's `None`) and `Result` (a raised exception).
- `text_node.dfy` — `TextType` and the `TextNode(text, textType, url := None)` record.
- `block_node.dfy` — the block-kind enumeration, declared only.
- `py_strings.dfy` — Python's `str.find`, `str.split`, `str.count` and `str.join` on strings,
  for a non-empty separator, with their laws.
- `html_node.dfy` — the attribute mapping, its rendering, the `HTMLNode` class, the `LeafNode`
  record.
- `utils.dfy` — `TextNodeToHtmlNode`, the `SplitNodesDelimiter` method with its nested loops,
  the function `SplitNodes` that specifies it, and the lemmas about both.

How the source is modelled:

- `split_nodes_delimiter` appends to a list inside two nested `for` loops. It is the method
  `Utils.SplitNodesDelimiter`, with the same loops. Its postcondition equates the result with
  the specification function `Utils.SplitNodes`, and the laws of the source are lemmas about
  that function.
- `str.split` is a builtin, not a loop of the source. It is the pure function
  `PyStrings.Split`: cut at the leftmost occurrence of the separator, then continue after that
  occurrence. Occurrences therefore never overlap, and empty fragments are kept.
- `props_to_html` builds its string with `+=` in a `for` loop over the dictionary's keys,
  looking each value up with `self.props[key]`. It is the method `HtmlNodes.HTMLNode.PropsToHtml`,
  with the same loop and lookup.
- A Python dictionary is modelled as an insertion-ordered sequence of `(key, value)` pairs
  whose keys are distinct. `HTMLNode.Valid()` states that the keys are distinct.
- An attribute value is `Option<string>`. The link and image arms of `text_node_to_html_node`
  store the node's `url` in the dictionary, and that url may be `None`. The f-string in
  `props_to_html` then prints `None`, which `HtmlNodes.PyStr` models.
- The exceptions become values or preconditions. `to_html` returns
  `Failure(NotImplementedError)`. `str.split("")` raises `ValueError`, so the delimiter must be
  non-empty: this is a precondition.
- The `match` in `text_node_to_html_node` has no default arm, so a type it does not list (the
  tests use `TextType.NORMAL`) makes the function return `None`. The model returns
  `Option<LeafNode>`.
- Two behaviours of `split_nodes_delimiter` are worth stating plainly:
  - Every node is split, including nodes that already have a type, and those nodes lose their
    type and url (src/utils.py:21-27).
  - When a text holds an odd number of delimiters, the trailing fragment takes the delimited
    type, because the type of a fragment depends only on the parity of its position
    (src/utils.py:24-27).

## Model

| member | source | states |
|---|---|---|
| `Utils.TextNodeToHtmlNode` | src/utils.py:4-17 | a leaf is produced exactly when the type is not `Normal` (no default arm); its value is the node's text except for images; it has attributes exactly for links and images |
| `Utils.ToLeafAndBack` | src/utils.py:4-17 | every supported node converts to a leaf that reads back as the same node (tag `b`/`i`/`code`/none, or `a` with `href` = url, or `img` with value "" and `src` = url, `alt` = text, in that order), except for a url that plain, bold, italic and code nodes drop |
| `Utils.FromLeafAndBack` | src/utils.py:4-17 | every leaf of those shapes is exactly the conversion of the node it reads back as, so the conversion is one-to-one on supported nodes up to the url that plain, bold, italic and code nodes drop |
| `Utils.SplitNodesDelimiter` | src/utils.py:19-29 | the nested loops return exactly `SplitNodes`: each input node's fragments, typed by parity, in input order |
| `Utils.FragmentsAt` | src/utils.py:23-27 | fragment `i` of a split becomes a node with that text, no url, and type plain text at even `i` and the requested type at odd `i` |
| `Utils.SplitNodeShape` | src/utils.py:22-27 | one node yields (non-overlapping delimiter occurrences + 1) nodes, each keeping its fragment's text, with no url, typed by the parity of its position |
| `Utils.SplitNodeRoundTrip` | src/utils.py:21-27 | joining one node's output texts with the delimiter gives back that node's text |
| `Utils.SplitNodeUnsplit` | src/utils.py:22-25 | a node yields the single plain node with its own text if and only if its text holds no delimiter |
| `Utils.SplitNodeLastFragment` | src/utils.py:23-27 | the last fragment has the requested type when the delimiter count is odd and is plain text when it is even |
| `Utils.SplitNodeAdjacent` | src/utils.py:22-27 | for a node of any type and url, when its text's first two delimiter occurrences are adjacent, the fragment before them is plain and the empty fragment between them is still emitted, with the requested type |
| `Utils.SplitNodesSnoc` | src/utils.py:21-27 | appending one node to the input appends its fragments to the output |
| `Utils.SplitNodesAppend` | src/utils.py:21-27 | splitting a concatenation of lists is the concatenation of their splits: output follows input-node order |
| `Utils.SplitNodesLength` | src/utils.py:20-29 | the output length is the sum over input nodes of (delimiter occurrences + 1); an empty list gives an empty list |
| `Utils.SplitNodesRetype` | src/utils.py:25-27 | every output node has no url and is plain text or of the requested type, whatever the type and url of its input node |
| `Utils.SplitOneNode` | src/utils.py:21-27 | a one-node list yields that node's fragments |
| `Utils.OnePairSplit` | src/test_util_funcs.py:16-36 | text `a`+d+`b`+d+`c`, where no part holds the delimiter's first character, gives plain `a`, `b` with the requested type, plain `c` |
| `Utils.TwoPairSplit` | src/test_util_funcs.py:38-49 | text with two delimited spans, where no part holds the delimiter's first character, gives five nodes alternating plain text and the requested type |
| `Utils.CodeSplitExample` | src/test_util_funcs.py:16-25 | the backtick test's input splits into the three expected nodes |
| `Utils.BoldSplitExample` | src/test_util_funcs.py:27-36 | the `**` test's input splits into the three expected nodes |
| `Utils.MultipleCodeSplitExample` | src/test_util_funcs.py:38-49 | the two-code-span test's input splits into the five expected nodes |
| `PyStrings.Split` | src/utils.py:22 | `s.split(d)` returns at least one part; its laws are the `Split` lemmas below |
| `PyStrings.Find` | src/utils.py:22 | a reported position is an occurrence of the separator |
| `PyStrings.FindLeftmost` | src/utils.py:22 | the reported occurrence is the leftmost one, and none is reported exactly when there is none |
| `PyStrings.CountSkip` | src/utils.py:22 | skipping a prefix in which no occurrence starts leaves the occurrence count unchanged |
| `PyStrings.SplitLength` | src/utils.py:22 | `len(s.split(d)) == s.count(d) + 1` |
| `PyStrings.SplitJoin` | src/utils.py:22 | `d.join(s.split(d)) == s` |
| `PyStrings.JoinSplit` | src/utils.py:22 | splitting undoes joining when no part holds the separator's first character |
| `PyStrings.SplitFragmentsAbsent` | src/utils.py:22 | no fragment of a split contains the separator |
| `PyStrings.SplitSingleton` | src/utils.py:22 | a text splits into itself alone if and only if it holds no separator |
| `PyStrings.SplitAtFirst` | src/utils.py:22 | the text before the first separator is the first fragment, and splitting resumes after it |
| `PyStrings.AdjacentSeparators` | src/utils.py:22 | when the first two separator occurrences are adjacent, the fragment before them comes first and the empty fragment between them is kept |
| `PyStrings.SplitClean` | src/utils.py:22 | a prefix without the separator's first character ends at the separator that follows it |
| `PyStrings.NoStartSplit` | src/utils.py:22 | a text without the separator's first character is not split |
| `PyStrings.SplitOnePair` | src/utils.py:22 | one pair of separators cuts three fragments when no fragment holds the separator's first character |
| `PyStrings.SplitTwoPairs` | src/utils.py:22 | two pairs of separators cut five fragments when no fragment holds the separator's first character |
| `HtmlNodes.Lookup` | src/htmlnode.py:19 | `props[key]` for a key the mapping holds is the value of the entry with that key, and no earlier entry has that key |
| `HtmlNodes.PyStr` | src/htmlnode.py:19 | the f-string prints a string value as itself and `None` as `None` |
| `HtmlNodes.RenderProps` | src/htmlnode.py:13-20 | the attribute string is empty if and only if props is `None` or an empty mapping |
| `HtmlNodes.LookupAt` | src/htmlnode.py:18-19 | with distinct keys, `props[key]` for the key at position `k` is the value at position `k` |
| `HtmlNodes.AttrStringAppend` | src/htmlnode.py:18-19 | rendering a concatenation of mappings is the concatenation of their renderings: insertion order is kept |
| `HtmlNodes.AttrStringAt` | src/htmlnode.py:18-19 | entry `k` is rendered as ` key="value"` after entries `0..k` and before the rest |
| `HtmlNodes.AttrStringLength` | src/htmlnode.py:19 | the length is the sum over entries of key length + value length + 4: nothing is escaped or dropped |
| `HtmlNodes.TwoPropsExample` | src/test_htmlnode.py:6-9 | the tests' `href`/`color` mapping renders as ` href="somelink" color="someColor"` |
| `HtmlNodes.NodeExamples` | src/test_htmlnode.py:6-18 | the three node tests: the `href`/`color` node renders ` href="somelink" color="someColor"`, a node without props renders `""`, and `to_html` on a link node fails with `NotImplementedError` |
| `HtmlNodes.HTMLNode.constructor` | src/htmlnode.py:4-8 | tag, value, children and props are stored unchanged, each defaulting to `None` |
| `HtmlNodes.HTMLNode.ToHtml` | src/htmlnode.py:10-11 | the base node always fails with `NotImplementedError` |
| `HtmlNodes.HTMLNode.PropsToHtml` | src/htmlnode.py:13-20 | the loop returns `""` for `None` props and otherwise the attribute string in insertion order; the method modifies nothing, so every field is unchanged |

## Left out

- `HTMLNode.__repr__` (src/htmlnode.py:22-23): it depends on how Python formats `None`, lists and dictionaries.
- textnode.py is not part of this model: `TextNode` and `TextType` are declared as datatypes with the fields and members the core uses. Their structural equality is Dafny's datatype equality.
- `LeafNode` is declared as a record. Its class, its `to_html` and any parent node are not part of this model.
- `BlockType` (src/blocknode.py) is declared only. No operation of the core uses it.
- Block segmentation, block classification, tree building, image and link extraction and HTML serialisation are not in the modelled source and are not modelled.
- Exceptions are not modelled as control flow. `NotImplementedError` is a `Failure` value, and the `ValueError` of `str.split("")` is excluded by a precondition.
- `HTMLNode.children` is kept as a sequence of references. No operation reads it, so no frame or aliasing reasoning is modelled for it.
- Python strings are modelled as sequences of characters. Unicode code points versus code units make no difference to `split` or to concatenation.
