/** The older copy of `split_nodes_delimiter` in `markdown_conversion.py`,
    written as the loops it is made of, and proved to return exactly what the
    functional model of the copy in `inline_markdown.py` returns: the same
    nodes on success and the same error otherwise. */
module MarkdownConversion {
  import opened Wrappers
  import opened Strings
  import opened TextNodes
  import D = DelimiterSplit

  /** One turn of the loop below appends the nodes of one pair of pieces. */
  lemma AppendStep(newNodes: seq<TextNode>, before: seq<TextNode>, after: seq<TextNode>, parts: seq<string>, textType: TextType, i: nat)
    requires i % 2 == 1 && i + 2 <= |parts|
    requires before == newNodes + D.PartsToNodes(parts[..i], textType)
    requires after == before + [TextNode(parts[i], textType, None)] + PlainIfNonEmpty(parts[i + 1])
    ensures after == newNodes + D.PartsToNodes(parts[..i + 2], textType)
  {
    D.PartsToNodesStep(parts, textType, i);
  }

  /** One pair of pieces: the delimited piece as the target type, then the
      piece after it as TEXT when non-empty (lines 37-41). */
  method AppendPair(out: seq<TextNode>, inside: string, after: string, textType: TextType)
    returns (r: seq<TextNode>)
    ensures r == out + [TextNode(inside, textType, None)] + PlainIfNonEmpty(after)
  {
    r := out + [TextNode(inside, textType, None)];
    if after != "" {
      r := r + [TextNode(after, Text, None)];
    }
  }

  /** The loop over the pieces of one split (lines 31-41): the first piece as
      TEXT when non-empty, then the pieces in pairs. */
  method AppendParts(newNodes: seq<TextNode>, parts: seq<string>, textType: TextType)
    returns (out: seq<TextNode>)
    requires |parts| % 2 == 1
    ensures out == newNodes + D.PartsToNodes(parts, textType)
  {
    out := newNodes;
    if parts[0] != "" {
      out := out + [TextNode(parts[0], Text, None)];
    }
    assert D.PartsToNodes(parts[..1], textType) == PlainIfNonEmpty(parts[0]) by {
      assert |parts[..1]| == 1;
    }
    ghost var pairs := |parts| / 2;
    assert |parts| == 2 * pairs + 1;
    var i := 1;
    ghost var j := 0;
    while i < |parts|
      invariant i == 2 * j + 1 && j <= pairs
      invariant out == newNodes + D.PartsToNodes(parts[..i], textType)
    {
      ghost var before := out;
      out := AppendPair(out, parts[i], parts[i + 1], textType);
      AppendStep(newNodes, before, out, parts, textType, i);
      i := i + 2;
      j := j + 1;
    }
    assert parts[..i] == parts;
  }

  /** The body of the outer loop for one TEXT node (lines 13-41). */
  method SplitTextNode(oldNode: TextNode, delimiter: string, textType: TextType)
    returns (r: Result<seq<TextNode>, D.DelimiterError>)
    requires |delimiter| > 0 && oldNode.textType == Text
    ensures r == D.SplitNodeDelimiter(oldNode, delimiter, textType)
  {
    var text := oldNode.text;
    if Count(text, delimiter) < 2 {
      if Count(text, delimiter) == 1 {
        return Failure(D.NoClosingDelimiter(delimiter));
      }
      return Success([oldNode]);
    }
    var parts := Split(text, delimiter);
    if |parts| % 2 == 0 {
      return Failure(D.MissingClosingDelimiter(delimiter));
    }
    var nodes := AppendParts([], parts, textType);
    assert nodes == D.PartsToNodes(parts, textType);
    return Success(nodes);
  }

  /** A node that splits extends the result of the nodes before it. */
  lemma StepSucceeds(oldNodes: seq<TextNode>, k: nat, delimiter: string, textType: TextType,
                     newNodes: seq<TextNode>, added: seq<TextNode>)
    requires |delimiter| > 0 && k < |oldNodes|
    requires D.SplitNodesDelimiter(oldNodes[..k], delimiter, textType) == Success(newNodes)
    requires D.SplitNodeDelimiter(oldNodes[k], delimiter, textType) == Success(added)
    ensures D.SplitNodesDelimiter(oldNodes[..k + 1], delimiter, textType) == Success(newNodes + added)
  {
    D.SplitNodesDelimiterAppend(oldNodes[..k], [oldNodes[k]], delimiter, textType);
    assert oldNodes[..k + 1] == oldNodes[..k] + [oldNodes[k]];
    D.SplitNodesDelimiterSingle(oldNodes[k], delimiter, textType);
  }

  /** A node that does not split, after nodes that did, decides the error of
      the whole list. */
  lemma StepFails(oldNodes: seq<TextNode>, k: nat, delimiter: string, textType: TextType, newNodes: seq<TextNode>)
    requires |delimiter| > 0 && k < |oldNodes|
    requires D.SplitNodesDelimiter(oldNodes[..k], delimiter, textType) == Success(newNodes)
    requires D.SplitNodeDelimiter(oldNodes[k], delimiter, textType).Failure?
    ensures D.SplitNodesDelimiter(oldNodes, delimiter, textType) == D.SplitNodeDelimiter(oldNodes[k], delimiter, textType)
  {
    D.SplitNodesDelimiterSucceeds(oldNodes[..k], delimiter, textType);
    assert forall j :: 0 <= j < k ==> oldNodes[..k][j] == oldNodes[j];
    D.FirstUnbalancedDecides(oldNodes, delimiter, textType, k);
  }

  /** `split_nodes_delimiter` from `markdown_conversion.py`. */
  method SplitNodesDelimiter(oldNodes: seq<TextNode>, delimiter: string, textType: TextType)
    returns (r: Result<seq<TextNode>, D.DelimiterError>)
    requires |delimiter| > 0
    ensures r == D.SplitNodesDelimiter(oldNodes, delimiter, textType)
  {
    var newNodes: seq<TextNode> := [];
    var k := 0;
    while k < |oldNodes|
      invariant 0 <= k <= |oldNodes|
      invariant D.SplitNodesDelimiter(oldNodes[..k], delimiter, textType) == Success(newNodes)
    {
      var oldNode := oldNodes[k];
      if oldNode.textType != Text {
        StepSucceeds(oldNodes, k, delimiter, textType, newNodes, [oldNode]);
        newNodes := newNodes + [oldNode];
      } else {
        var split := SplitTextNode(oldNode, delimiter, textType);
        if split.Failure? {
          StepFails(oldNodes, k, delimiter, textType, newNodes);
          return split;
        }
        StepSucceeds(oldNodes, k, delimiter, textType, newNodes, split.value);
        newNodes := newNodes + split.value;
      }
      k := k + 1;
    }
    assert oldNodes[..k] == oldNodes;
    return Success(newNodes);
  }
}
