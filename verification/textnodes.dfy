/** The inline span type the tokenizer produces: `TextType` and `TextNode`
    from the converter's `textnode` module, which is not part of this model
    beyond this data definition. */
module TextNodes {
  import opened Wrappers
  import opened Strings

  /** The kinds of inline span: plain text, the three delimiter styles, and the
      two bracket forms. */
  datatype TextType = Text | Bold | Italic | Code | Link | Image

  /** A typed span of inline text. Equality is structural: text, type and url
      must all agree, and a url that was left out is `None`, which differs from
      the empty url `Some("")`. */
  datatype TextNode = TextNode(text: string, textType: TextType, url: Option<string>)

  /** A TEXT node with no url: Python's `TextNode(s, TextType.TEXT)`. */
  function Plain(s: string): TextNode {
    TextNode(s, Text, None)
  }

  /** A TEXT node for `s` when `s` is non-empty, and nothing when it is empty
      (the converter's `if part: new_nodes.append(...)`). */
  function PlainIfNonEmpty(s: string): (r: seq<TextNode>)
    ensures |r| <= 1
    ensures |r| == 1 <==> s != ""
    ensures forall k :: 0 <= k < |r| ==> r[k] == Plain(s)
  {
    if s == "" then [] else [Plain(s)]
  }

  /** The markdown for a link, `[text](url)`. */
  function LinkMarkdown(text: string, url: string): string {
    "[" + text + "](" + url + ")"
  }

  /** `[alt](url)` read from the right. */
  lemma LinkMarkdownAssoc(alt: string, url: string)
    ensures LinkMarkdown(alt, url) == "[" + (alt + ("](" + (url + ")")))
  {
    AppendAssociative("[" + alt + "](", url, ")");
    AppendAssociative("[" + alt, "](", url + ")");
    AppendAssociative("[", alt, "](" + (url + ")"));
  }

  /** The markdown for an image, `![alt](url)`. */
  function ImageMarkdown(alt: string, url: string): string {
    "!" + LinkMarkdown(alt, url)
  }

  /** The paired delimiter that marks a span of each delimiter style. */
  function DelimiterFor(textType: TextType): Option<string> {
    match textType
    case Bold => Some("**")
    case Italic => Some("_")
    case Code => Some("`")
    case _ => None
  }

  /** The markdown a node was read from: the inverse of the tokenizer, one node
      at a time. A missing url is written as the empty url. */
  function Markdown(node: TextNode): string {
    var url := match node.url case Some(u) => u case None => "";
    match node.textType
    case Text => node.text
    case Link => LinkMarkdown(node.text, url)
    case Image => ImageMarkdown(node.text, url)
    case _ => var d := DelimiterFor(node.textType).value; d + node.text + d
  }

  /** The markdown of a list of nodes, in order. */
  function MarkdownOf(nodes: seq<TextNode>): string
    decreases |nodes|
  {
    if |nodes| == 0 then "" else Markdown(nodes[0]) + MarkdownOf(nodes[1..])
  }

  lemma {:induction false} MarkdownOfAppend(a: seq<TextNode>, b: seq<TextNode>)
    ensures MarkdownOf(a + b) == MarkdownOf(a) + MarkdownOf(b)
    decreases |a|
  {
    if |a| == 0 {
      assert a + b == b;
    } else {
      assert (a + b)[1..] == a[1..] + b;
      MarkdownOfAppend(a[1..], b);
    }
  }

  /** The markdown of an optional TEXT node is the string itself. */
  lemma PlainIfNonEmptyMarkdown(s: string)
    ensures MarkdownOf(PlainIfNonEmpty(s)) == s
  {
    if s != "" {
      assert MarkdownOf([Plain(s)]) == s + MarkdownOf([]);
    }
  }

  lemma SingleMarkdown(node: TextNode)
    ensures MarkdownOf([node]) == Markdown(node)
  {
    assert MarkdownOf([node]) == Markdown(node) + MarkdownOf([]);
  }

  /** The texts of a list of nodes, in order. */
  function Texts(nodes: seq<TextNode>): (r: seq<string>)
    ensures |r| == |nodes|
  {
    seq(|nodes|, i requires 0 <= i < |nodes| => nodes[i].text)
  }

  /** No TEXT node in `nodes` contains `x`. */
  predicate TextAvoids(nodes: seq<TextNode>, x: string) {
    forall k :: 0 <= k < |nodes| ==> nodes[k].textType == Text ==> !Contains(nodes[k].text, x)
  }

  /** Every TEXT node in `nodes` has non-empty text. */
  predicate TextNonEmpty(nodes: seq<TextNode>) {
    forall k :: 0 <= k < |nodes| ==> nodes[k].textType == Text ==> nodes[k].text != ""
  }

  lemma AvoidsSplit(a: seq<TextNode>, b: seq<TextNode>, x: string)
    ensures TextAvoids(a + b, x) <==> TextAvoids(a, x) && TextAvoids(b, x)
  {
    assert forall k :: 0 <= k < |a| ==> (a + b)[k] == a[k];
    assert forall k :: 0 <= k < |b| ==> (a + b)[|a| + k] == b[k];
  }

  lemma NonEmptySplit(a: seq<TextNode>, b: seq<TextNode>)
    ensures TextNonEmpty(a + b) <==> TextNonEmpty(a) && TextNonEmpty(b)
  {
    assert forall k :: 0 <= k < |a| ==> (a + b)[k] == a[k];
    assert forall k :: 0 <= k < |b| ==> (a + b)[|a| + k] == b[k];
  }

  lemma TextsAppend(a: seq<TextNode>, b: seq<TextNode>)
    ensures Texts(a + b) == Texts(a) + Texts(b)
  {
  }

  /** The joined text of one optional TEXT node is the string itself. */
  lemma PlainIfNonEmptyText(s: string)
    ensures Concat(Texts(PlainIfNonEmpty(s))) == s
  {
    if s != "" {
      assert Texts([Plain(s)]) == [s];
      assert Concat([s]) == s + Concat([]);
    }
  }
}
