/** HTML tree nodes: the base `HTMLNode` record, its attribute rendering, and the leaf record
    the inline conversion produces. */
module HtmlNodes {
  import opened Wrappers
  import opened Sequences

  /** An attribute mapping in insertion order. A value may be Python's `None`, which is what a
      link or image node without a url puts there. */
  type Props = seq<(string, Option<string>)>

  /** A Python dictionary never holds one key twice. */
  predicate DistinctKeys(ps: Props)
  {
    forall i, j :: 0 <= i < j < |ps| ==> ps[i].0 != ps[j].0
  }

  /** `props[key]` for a key the mapping holds. */
  function Lookup(ps: Props, key: string): (v: Option<string>)
    requires exists i :: 0 <= i < |ps| && ps[i].0 == key
    ensures exists i :: 0 <= i < |ps| && ps[i] == (key, v) && forall j :: 0 <= j < i ==> ps[j].0 != key
  {
    if ps[0].0 == key then ps[0].1
    else
      assert exists i :: 0 <= i < |ps[1..]| && ps[1..][i].0 == key by {
        var i :| 0 <= i < |ps| && ps[i].0 == key;
        assert ps[1..][i - 1].0 == key;
      }
      var v := Lookup(ps[1..], key);
      assert exists i :: 0 <= i < |ps| && ps[i] == (key, v) && forall j :: 0 <= j < i ==> ps[j].0 != key by {
        var i :| 0 <= i < |ps[1..]| && ps[1..][i] == (key, v) && forall j :: 0 <= j < i ==> ps[1..][j].0 != key;
        assert ps[i + 1] == (key, v);
        forall j | 0 <= j < i + 1 ensures ps[j].0 != key {
          if j > 0 {
            assert ps[j] == ps[1..][j - 1];
          }
        }
      }
      v
  }

  /** Python's `str()` of an optional string, as an f-string formats it. */
  function PyStr(v: Option<string>): (r: string)
    ensures v.Some? ==> r == v.value
    ensures v.None? ==> r == "None"
  {
    if v.Some? then v.value else "None"
  }

  /** One rendered attribute: ` key="value"`, with no escaping. */
  function Attr(key: string, v: Option<string>): string
  {
    " " + key + "=\"" + PyStr(v) + "\""
  }

  /** The attribute string of a mapping, one `Attr` per entry in insertion order. */
  function AttrString(ps: Props): string
  {
    if |ps| == 0 then ""
    else AttrString(ps[..|ps| - 1]) + Attr(ps[|ps| - 1].0, ps[|ps| - 1].1)
  }

  /** What `props_to_html` returns for the node's props: nothing for `None`, else the attribute
      string. */
  function RenderProps(props: Option<Props>): (r: string)
    ensures r == "" <==> props.None? || props == Some([])
  {
    match props
    case None => ""
    case Some(ps) =>
      assert |ps| > 0 ==> |Attr(ps[|ps| - 1].0, ps[|ps| - 1].1)| >= 4;
      AttrString(ps)
  }

  /** The summed length of the rendered entries: key, value and four fixed characters each. */
  function AttrLength(ps: Props): nat
  {
    if |ps| == 0 then 0
    else AttrLength(ps[..|ps| - 1]) + |ps[|ps| - 1].0| + |PyStr(ps[|ps| - 1].1)| + 4
  }

  /** Keys are looked up at their own position, because they are distinct. */
  lemma {:induction false} LookupAt(ps: Props, k: nat)
    requires DistinctKeys(ps) && k < |ps|
    ensures Lookup(ps, ps[k].0) == ps[k].1
    decreases k
  {
    if k > 0 {
      assert ps[0].0 != ps[k].0;
      assert ps[1..][k - 1] == ps[k];
      LookupAt(ps[1..], k - 1);
    }
  }

  /** Appending an entry appends its rendering. */
  lemma AttrStringSnoc(ps: Props, p: (string, Option<string>))
    ensures AttrString(ps + [p]) == AttrString(ps) + Attr(p.0, p.1)
  {
    SnocInverse(ps, p);
  }

  /** Rendering distributes over concatenation of mappings: entries keep insertion order. */
  lemma {:induction false} AttrStringAppend(a: Props, b: Props)
    ensures AttrString(a + b) == AttrString(a) + AttrString(b)
    decreases |b|
  {
    if |b| == 0 {
      AppendEmpty(a, b);
    } else {
      var b', last := b[..|b| - 1], b[|b| - 1];
      AttrStringAppend(a, b');
      SnocParts(a, b);
      AttrStringSnoc(a + b', last);
      AttrStringSnoc(b', last);
      ConcatAssoc(AttrString(a), AttrString(b'), Attr(last.0, last.1));
    }
  }

  /** Entry `k` is rendered after entries `0..k` and before the rest. */
  lemma AttrStringAt(ps: Props, k: nat)
    requires k < |ps|
    ensures AttrString(ps) == AttrString(ps[..k]) + Attr(ps[k].0, ps[k].1) + AttrString(ps[k + 1..])
  {
    SplitAt(ps, k);
    AttrStringAppend(ps[..k] + [ps[k]], ps[k + 1..]);
    AttrStringSnoc(ps[..k], ps[k]);
  }

  /** Nothing is escaped or dropped: the length is exactly the entries' lengths plus four each. */
  lemma {:induction false} AttrStringLength(ps: Props)
    ensures |AttrString(ps)| == AttrLength(ps)
    decreases |ps|
  {
    if |ps| > 0 {
      AttrStringLength(ps[..|ps| - 1]);
    }
  }

  /** The record a `LeafNode(tag, value, props)` call builds. */
  datatype LeafNode = LeafNode(tag: Option<string>, value: string, props: Option<Props> := None)

  /** The exceptions the base node raises. */
  datatype HtmlError = NotImplementedError

  /** The base node: a tag, a value, children and attributes, each possibly `None`. */
  class HTMLNode {
    var tag: Option<string>
    var value: Option<string>
    var children: Option<seq<HTMLNode>>
    var props: Option<Props>

    /** The props form a dictionary. */
    ghost predicate Valid()
      reads this
    {
      props.Some? ==> DistinctKeys(props.value)
    }

    /** Stores its four arguments as given; each defaults to `None`. */
    constructor (tag: Option<string> := None, value: Option<string> := None,
                 children: Option<seq<HTMLNode>> := None, props: Option<Props> := None)
      requires props.Some? ==> DistinctKeys(props.value)
      ensures Valid()
      ensures this.tag == tag && this.value == value
      ensures this.children == children && this.props == props
    {
      this.tag := tag;
      this.value := value;
      this.children := children;
      this.props := props;
    }

    /** The base node cannot render itself: it always raises. */
    method ToHtml() returns (r: Result<string, HtmlError>)
      ensures r.Failure? && r.error == NotImplementedError
    {
      r := Failure(NotImplementedError);
    }

    /** Builds the attribute string entry by entry, looking each key's value up in the mapping. */
    method PropsToHtml() returns (propStr: string)
      requires Valid()
      ensures propStr == RenderProps(props)
    {
      propStr := "";
      if props == None {
        return "";
      }
      var ps := props.value;
      for i := 0 to |ps|
        invariant propStr == AttrString(ps[..i])
      {
        var key := ps[i].0;
        LookupAt(ps, i);
        propStr := propStr + Attr(key, Lookup(ps, key));
        PrefixSnoc(ps, i);
        AttrStringSnoc(ps[..i], ps[i]);
      }
      FullPrefix(ps);
    }
  }

  /** Two entries render as the first entry's attribute followed by the second's. */
  lemma TwoEntries(first: (string, Option<string>), second: (string, Option<string>))
    ensures AttrString([first, second]) == Attr(first.0, first.1) + Attr(second.0, second.1)
  {
    EmptyLeft([first]);
    AttrStringSnoc([], first);
    PairOfSingletons(first, second);
    AttrStringSnoc([first], second);
  }

  /** The two attributes of the tests' mapping, one at a time. */
  lemma TestAttrs()
    ensures Attr("href", Some("somelink")) == " href=\"somelink\""
    ensures Attr("color", Some("someColor")) == " color=\"someColor\""
  {
  }

  /** The attribute string of the two-entry mapping the tests use. */
  lemma TwoPropsExample()
    ensures RenderProps(Some([("href", Some("somelink")), ("color", Some("someColor"))]))
         == " href=\"somelink\" color=\"someColor\""
  {
    TwoEntries(("href", Some("somelink")), ("color", Some("someColor")));
    TestAttrs();
    assert " href=\"somelink\"" + " color=\"someColor\"" == " href=\"somelink\" color=\"someColor\"";
  }

  /** The three node tests: a node with the `href`/`color` mapping renders it in order, a node
      built without props renders nothing, and `to_html` on a link node raises
      `NotImplementedError`. */
  method NodeExamples() returns (withProps: string, withoutProps: string, linkHtml: Result<string, HtmlError>)
    ensures withProps == " href=\"somelink\" color=\"someColor\""
    ensures withoutProps == ""
    ensures linkHtml == Failure(NotImplementedError)
  {
    var ps: Props := [("href", Some("somelink")), ("color", Some("someColor"))];
    var node := new HTMLNode(Some("p"), Some("Some P text"), props := Some(ps));
    withProps := node.PropsToHtml();
    TwoPropsExample();
    var plain := new HTMLNode(Some("p"), Some("some text without props"));
    withoutProps := plain.PropsToHtml();
    var link := new HTMLNode(Some("a"), Some("A Link, WOW"), props := Some([("href", Some("https://www.hellowworld.com"))]));
    linkHtml := link.ToHtml();
  }
}
