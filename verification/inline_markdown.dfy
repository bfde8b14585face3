/** `text_to_textnodes`: the inline tokenizer. One TEXT node holding the whole
    text is split on `**` (BOLD), then `_` (ITALIC), then the backtick (CODE),
    then around images, then around links. A delimiter that does not pair up
    stops the pipeline with the splitter's error. */
module InlineMarkdown {
  import opened Wrappers
  import opened Strings
  import opened TextNodes
  import opened DelimiterSplit
  import opened MarkdownExtract
  import opened ImageLinkSplit

  /** The three delimiter passes, in the converter's order. */
  function SplitDelimiters(text: string): Result<seq<TextNode>, DelimiterError> {
    var bold :- SplitNodesDelimiter([Plain(text)], "**", Bold);
    var italic :- SplitNodesDelimiter(bold, "_", Italic);
    SplitNodesDelimiter(italic, "`", Code)
  }

  /** `text_to_textnodes`. */
  function TextToTextNodes(text: string): Result<seq<TextNode>, DelimiterError> {
    var nodes :- SplitDelimiters(text);
    Success(SplitNodesLink(SplitNodesImage(nodes)))
  }

  /** The tokens written back as markdown give the text back: each BOLD,
      ITALIC and CODE node regains its delimiters, each IMAGE and LINK node
      its bracket markup. */
  lemma TextToTextNodesRestores(text: string)
    ensures TextToTextNodes(text).Success? ==> MarkdownOf(TextToTextNodes(text).value) == text
  {
    DelimitersRestore(text);
    if SplitDelimiters(text).Success? {
      BracketsRestore(SplitDelimiters(text).value);
    }
  }

  /** The three delimiter passes keep the markdown. */
  lemma DelimitersRestore(text: string)
    ensures SplitDelimiters(text).Success? ==> MarkdownOf(SplitDelimiters(text).value) == text
  {
    var bold := SplitNodesDelimiter([Plain(text)], "**", Bold);
    if bold.Success? {
      SplitNodesDelimiterMarkdown([Plain(text)], "**", Bold);
      SingleMarkdown(Plain(text));
      var italic := SplitNodesDelimiter(bold.value, "_", Italic);
      if italic.Success? {
        SplitNodesDelimiterMarkdown(bold.value, "_", Italic);
        if SplitNodesDelimiter(italic.value, "`", Code).Success? {
          SplitNodesDelimiterMarkdown(italic.value, "`", Code);
        }
      }
    }
  }

  /** The two bracket passes keep the markdown. */
  lemma BracketsRestore(nodes: seq<TextNode>)
    ensures MarkdownOf(SplitNodesLink(SplitNodesImage(nodes))) == MarkdownOf(nodes)
  {
    SplitNodesRestores(ImagePattern, nodes);
    SplitNodesRestores(LinkPattern, SplitNodesImage(nodes));
  }

  /** An odd number of `**` stops the pipeline at the first pass, with the
      bold splitter's error. */
  lemma TextToTextNodesBoldError(text: string)
    requires Count(text, "**") % 2 == 1
    ensures TextToTextNodes(text) == Failure(ErrorFor(Count(text, "**"), "**"))
  {
    SplitNodesDelimiterSingle(Plain(text), "**", Bold);
  }

  /** Text with no `**`, `_`, backtick or `[` is returned as one TEXT node,
      even when it is empty. */
  lemma TextToTextNodesPlain(text: string)
    requires !Contains(text, "**") && !Contains(text, "_") && !Contains(text, "`")
    requires forall i :: 0 <= i < |text| ==> text[i] != '['
    ensures TextToTextNodes(text) == Success([Plain(text)])
  {
    var nodes := [Plain(text)];
    SplitNodesDelimiterSingle(Plain(text), "**", Bold);
    SplitNodesDelimiterSingle(Plain(text), "_", Italic);
    SplitNodesDelimiterSingle(Plain(text), "`", Code);
    assert SplitDelimiters(text) == Success(nodes);
    KeptByBoth(Plain(text));
  }

  /** A TEXT node without `[` survives both bracket passes. */
  lemma KeptByBoth(node: TextNode)
    requires forall i :: 0 <= i < |node.text| ==> node.text[i] != '['
    ensures SplitNodesLink(SplitNodesImage([node])) == [node]
  {
    NoBracketKept(ImagePattern, node);
    NoBracketKept(LinkPattern, node);
    assert SplitNodes(ImagePattern, [node]) == SplitNode(ImagePattern, node) + SplitNodes(ImagePattern, []);
    assert SplitNodes(LinkPattern, [node]) == SplitNode(LinkPattern, node) + SplitNodes(LinkPattern, []);
  }

  /** With no `_` and no backtick, the pipeline fails exactly when `**` does
      not pair up. */
  lemma TextToTextNodesBoldOnly(text: string)
    requires !Contains(text, "_") && !Contains(text, "`")
    ensures TextToTextNodes(text).Success? <==> Count(text, "**") % 2 == 0
  {
    SplitNodesDelimiterSingle(Plain(text), "**", Bold);
    var bold := SplitNodesDelimiter([Plain(text)], "**", Bold);
    if bold.Success? {
      assert TextAvoids([Plain(text)], "_") && TextAvoids([Plain(text)], "`");
      SplitNodesDelimiterText([Plain(text)], "**", Bold, "_");
      SplitNodesDelimiterText([Plain(text)], "**", Bold, "`");
      AvoidingBalanced(bold.value, "_");
      SplitNodesDelimiterSucceeds(bold.value, "_", Italic);
      var italic := SplitNodesDelimiter(bold.value, "_", Italic);
      SplitNodesDelimiterText(bold.value, "_", Italic, "`");
      AvoidingBalanced(italic.value, "`");
      SplitNodesDelimiterSucceeds(italic.value, "`", Code);
    }
  }

  /** Nodes whose TEXT nodes avoid the delimiter are all balanced for it. */
  lemma AvoidingBalanced(nodes: seq<TextNode>, delimiter: string)
    requires |delimiter| > 0 && TextAvoids(nodes, delimiter)
    ensures forall i :: 0 <= i < |nodes| ==> Balanced(nodes[i], delimiter)
  {
    forall i | 0 <= i < |nodes| && nodes[i].textType == Text
      ensures Count(nodes[i].text, delimiter) == 0
    {
      CountZero(nodes[i].text, delimiter);
    }
  }

  /** On success no TEXT node holds a delimiter, and when the text is
      non-empty no TEXT node is empty. */
  lemma TextToTextNodesText(text: string)
    requires TextToTextNodes(text).Success?
    ensures TextAvoids(TextToTextNodes(text).value, "**")
    ensures TextAvoids(TextToTextNodes(text).value, "_")
    ensures TextAvoids(TextToTextNodes(text).value, "`")
    ensures text != "" ==> TextNonEmpty(TextToTextNodes(text).value)
  {
    var bold := SplitNodesDelimiter([Plain(text)], "**", Bold).value;
    var italic := SplitNodesDelimiter(bold, "_", Italic).value;
    var code := SplitNodesDelimiter(italic, "`", Code).value;
    assert text != "" ==> TextNonEmpty([Plain(text)]);
    SplitNodesDelimiterText([Plain(text)], "**", Bold, "**");
    SplitNodesDelimiterText(bold, "_", Italic, "**");
    SplitNodesDelimiterText(italic, "`", Code, "**");
    SplitNodesDelimiterText(italic, "`", Code, "_");
    SplitPassesText(code, "**");
    SplitPassesText(code, "_");
    SplitPassesText(code, "`");
  }

  /** The two bracket passes keep TEXT nodes non-empty and free of `x`. */
  lemma SplitPassesText(nodes: seq<TextNode>, x: string)
    ensures TextNonEmpty(nodes) ==> TextNonEmpty(SplitNodesLink(SplitNodesImage(nodes)))
    ensures TextAvoids(nodes, x) ==> TextAvoids(SplitNodesLink(SplitNodesImage(nodes)), x)
  {
    SplitNodesText(ImagePattern, nodes, x);
    SplitNodesText(LinkPattern, SplitNodesImage(nodes), x);
  }
}
