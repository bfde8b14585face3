/** `htmlnode.py`: the HTML tree the converter renders. A plain `HTMLNode`
    cannot render itself; a `LeafNode` renders its value, wrapped in its tag
    when it has one; a `ParentNode` renders its children in order inside its
    tag. The attributes render as `key="value"` pairs, each after a space. */
module HtmlNodes {
  import opened Wrappers
  import opened Strings

  /** The attributes in insertion order, as a Python dict iterates them. */
  type Props = seq<(string, string)>

  datatype HtmlNode =
    | Node(tag: Option<string>, value: Option<string>, children: seq<HtmlNode>, props: Props)
    | Leaf(tag: Option<string>, value: Option<string>, props: Props)
    | Parent(tag: Option<string>, children: seq<HtmlNode>, props: Props)

  /** The exceptions `to_html` raises. */
  datatype HtmlError =
    | NotImplemented          // `HTMLNode.to_html`
    | LeafWithoutValue        // "Leaf nodes must have a value"
    | ParentWithoutTag        // "Parent nodes must have a tag"
    | ParentWithoutChildren   // "Parent node Children lists must not be empty"

  /** One attribute, `key="value"`. */
  function Attribute(prop: (string, string)): string {
    prop.0 + "=\"" + prop.1 + "\""
  }

  function Attributes(props: Props): (r: seq<string>)
    ensures |r| == |props|
    ensures forall k :: 0 <= k < |props| ==> r[k] == Attribute(props[k])
  {
    seq(|props|, k requires 0 <= k < |props| => Attribute(props[k]))
  }

  /** `props_to_html`: a space and the attributes joined by spaces, or
      nothing when there are none. */
  function PropsToHtml(props: Props): (r: string)
    ensures r == "" <==> |props| == 0
  {
    if |props| == 0 then "" else " " + Join(Attributes(props), " ")
  }

  /** The same string built attribute by attribute: each one after its own
      space. */
  function Spaced(props: Props): string
    decreases |props|
  {
    if |props| == 0 then "" else " " + Attribute(props[0]) + Spaced(props[1..])
  }

  /** Joining with spaces after a leading space is putting a space before
      every attribute. */
  lemma {:induction false} PropsToHtmlSpaced(props: Props)
    ensures PropsToHtml(props) == Spaced(props)
    decreases |props|
  {
    if |props| > 1 {
      PropsToHtmlSpaced(props[1..]);
      SpacedStep(props);
    } else if |props| == 1 {
      assert Join(Attributes(props), " ") == Attribute(props[0]);
      assert Spaced(props[1..]) == "";
    }
  }

  /** The attributes of a non-empty dict: the first one, then the others. */
  lemma AttributesCons(props: Props)
    requires |props| > 0
    ensures Attributes(props) == [Attribute(props[0])] + Attributes(props[1..])
  {
    var r := Attributes(props);
    var t := [Attribute(props[0])] + Attributes(props[1..]);
    forall k | 0 <= k < |props|
      ensures r[k] == t[k]
    {
      if k > 0 {
        assert props[1..][k - 1] == props[k];
      }
    }
  }

  /** One more attribute in front adds it after a space. */
  lemma SpacedStep(props: Props)
    requires |props| > 1 && PropsToHtml(props[1..]) == Spaced(props[1..])
    ensures PropsToHtml(props) == Spaced(props)
  {
    var head := Attribute(props[0]);
    var rest := Attributes(props[1..]);
    var j := Join(rest, " ");
    AttributesCons(props);
    JoinCons(head, rest, " ");
    assert PropsToHtml(props) == " " + (head + " " + j);
    assert Spaced(props) == " " + head + (" " + j);
    AppendAssociative(head, " ", j);
    AppendAssociative(" ", head, " " + j);
  }

  lemma {:induction false} SpacedAppend(a: Props, b: Props)
    ensures Spaced(a + b) == Spaced(a) + Spaced(b)
    decreases |a|
  {
    if |a| == 0 {
      assert a + b == b;
    } else {
      assert (a + b)[1..] == a[1..] + b;
      SpacedAppend(a[1..], b);
    }
  }

  /** The attributes of two dicts, one after the other, render as the two
      renderings side by side. */
  lemma PropsToHtmlAppend(a: Props, b: Props)
    ensures PropsToHtml(a + b) == PropsToHtml(a) + PropsToHtml(b)
  {
    PropsToHtmlSpaced(a);
    PropsToHtmlSpaced(b);
    PropsToHtmlSpaced(a + b);
    SpacedAppend(a, b);
  }

  /** `<tag props>inner</tag>`. */
  function Tagged(tag: string, props: Props, inner: string): string {
    "<" + tag + PropsToHtml(props) + ">" + inner + "</" + tag + ">"
  }

  /** `to_html`, with the exception as a failure. */
  function ToHtml(node: HtmlNode): Result<string, HtmlError>
    decreases node
  {
    match node
    case Node(_, _, _, _) => Failure(NotImplemented)
    case Leaf(tag, value, props) =>
      if value.None? then Failure(LeafWithoutValue)
      else if tag.None? then Success(value.value)
      else Success(Tagged(tag.value, props, value.value))
    case Parent(tag, children, props) =>
      if tag.None? then Failure(ParentWithoutTag)
      else if children == [] then Failure(ParentWithoutChildren)
      else
        var inner :- ChildrenHtml(children);
        Success(Tagged(tag.value, props, inner))
  }

  /** The loop over a parent's children: each child's HTML in turn, stopping
      at the first child that raises. */
  function ChildrenHtml(children: seq<HtmlNode>): Result<string, HtmlError>
    decreases children
  {
    if |children| == 0 then Success("")
    else
      var head :- ToHtml(children[0]);
      var rest :- ChildrenHtml(children[1..]);
      Success(head + rest)
  }

  /** Which trees render: no plain `HTMLNode`, every leaf with a value, every
      parent with a tag and at least one child, all the way down. */
  predicate Renderable(node: HtmlNode)
    decreases node
  {
    match node
    case Node(_, _, _, _) => false
    case Leaf(_, value, _) => value.Some?
    case Parent(tag, children, _) =>
      tag.Some? && |children| > 0 && forall k :: 0 <= k < |children| ==> Renderable(children[k])
  }

  /** `to_html` raises exactly on the trees that are not renderable. */
  lemma {:induction false} ToHtmlSucceeds(node: HtmlNode)
    ensures ToHtml(node).Success? <==> Renderable(node)
    decreases node
  {
    match node
    case Node(_, _, _, _) =>
    case Leaf(_, _, _) =>
    case Parent(tag, children, _) =>
      if tag.Some? && children != [] {
        ChildrenHtmlSucceeds(children);
      }
  }

  lemma {:induction false} ChildrenHtmlSucceeds(children: seq<HtmlNode>)
    ensures ChildrenHtml(children).Success? <==> forall k :: 0 <= k < |children| ==> Renderable(children[k])
    decreases children
  {
    if |children| > 0 {
      ToHtmlSucceeds(children[0]);
      ChildrenHtmlSucceeds(children[1..]);
      assert forall k :: 1 <= k < |children| ==> children[k] == children[1..][k - 1];
    }
  }

  /** The children's HTML is the HTML of the first child followed by that of
      the others, and an error is the error of the first child that fails. */
  lemma {:induction false} ChildrenHtmlAppend(a: seq<HtmlNode>, b: seq<HtmlNode>)
    ensures ChildrenHtml(a + b) ==
      match ChildrenHtml(a)
      case Failure(e) => Failure(e)
      case Success(x) =>
        match ChildrenHtml(b)
        case Failure(e) => Failure(e)
        case Success(y) => Success(x + y)
    decreases |a|
  {
    if |a| == 0 {
      assert a + b == b;
      if ChildrenHtml(b).Success? {
        assert "" + ChildrenHtml(b).value == ChildrenHtml(b).value;
      }
    } else {
      assert (a + b)[0] == a[0];
      assert (a + b)[1..] == a[1..] + b;
      ChildrenHtmlAppend(a[1..], b);
      if ToHtml(a[0]).Success? && ChildrenHtml(a[1..]).Success? && ChildrenHtml(b).Success? {
        AppendAssociative(ToHtml(a[0]).value, ChildrenHtml(a[1..]).value, ChildrenHtml(b).value);
      }
    }
  }

  /** A failing loop fails with the error of its first failing child, after
      every earlier child rendered. */
  lemma {:induction false} ChildrenHtmlFirstFailure(children: seq<HtmlNode>)
    ensures ChildrenHtml(children).Failure? ==>
      exists i :: 0 <= i < |children| && ToHtml(children[i]) == Failure(ChildrenHtml(children).error) &&
        forall k :: 0 <= k < i ==> ToHtml(children[k]).Success?
    decreases |children|
  {
    if |children| > 0 && ToHtml(children[0]).Success? {
      ChildrenHtmlFirstFailure(children[1..]);
      if ChildrenHtml(children).Failure? {
        var e := ChildrenHtml(children).error;
        var i :| 0 <= i < |children| - 1 && ToHtml(children[1..][i]) == Failure(e) &&
          forall k :: 0 <= k < i ==> ToHtml(children[1..][k]).Success?;
        assert children[1..][i] == children[i + 1];
        assert forall k :: 1 <= k < i + 1 ==> children[k] == children[1..][k - 1];
      }
    }
  }

  /** A parent without a tag raises for that first, even with no children. */
  lemma ParentTagCheckedFirst(children: seq<HtmlNode>, props: Props)
    ensures ToHtml(Parent(None, children, props)) == Failure(ParentWithoutTag)
  {
  }
}
