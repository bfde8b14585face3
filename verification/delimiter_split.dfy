/** `split_nodes_delimiter`: splitting the TEXT nodes of a list on a paired
    delimiter such as `**`, `_` or a backtick. The same function appears twice
    in the converter, in `inline_markdown.py` and in the older
    `markdown_conversion.py`, with the same logic line for line; this module
    models both, and `MarkdownConversion` restates the older copy as a loop and
    proves it equal. */
module DelimiterSplit {
  import opened Wrappers
  import opened Strings
  import opened TextNodes

  /** The two `ValueError`s the splitter raises. */
  datatype DelimiterError =
    | NoClosingDelimiter(delimiter: string)       // the delimiter occurs exactly once
    | MissingClosingDelimiter(delimiter: string)  // it occurs an odd number of times, three or more

  /** A node the splitter accepts: not a TEXT node, or a TEXT node whose
      delimiter occurrences pair up. */
  predicate Balanced(node: TextNode, delimiter: string)
    requires |delimiter| > 0
  {
    node.textType != Text || Count(node.text, delimiter) % 2 == 0
  }

  /** The error raised for a TEXT node with `count` occurrences, `count` odd. */
  function ErrorFor(count: nat, delimiter: string): DelimiterError {
    if count == 1 then NoClosingDelimiter(delimiter) else MissingClosingDelimiter(delimiter)
  }

  /** The nodes built from the pieces of a split with an odd number of pieces:
      the first piece as TEXT when non-empty, then each pair as a node of the
      target type (even when empty) followed by the next piece as TEXT when
      non-empty. Defined pair by pair from the end, as the loop appends them. */
  function PartsToNodes(parts: seq<string>, textType: TextType): seq<TextNode>
    requires |parts| % 2 == 1
    decreases |parts|
  {
    if |parts| == 1 then PlainIfNonEmpty(parts[0])
    else
      var n := |parts|;
      PartsToNodes(parts[..n - 2], textType) + [TextNode(parts[n - 2], textType, None)] + PlainIfNonEmpty(parts[n - 1])
  }

  /** Every node is built from one piece and carries no url; the nodes that
      are not of the target type are non-empty TEXT nodes; and the nodes'
      texts, joined, are the pieces joined. */
  lemma {:induction false} PartsToNodesFacts(parts: seq<string>, textType: TextType)
    requires |parts| % 2 == 1
    ensures var nodes := PartsToNodes(parts, textType);
      && (forall k :: 0 <= k < |nodes| ==> nodes[k].url.None? && nodes[k].text in parts)
      && (forall k :: 0 <= k < |nodes| ==> nodes[k].textType != textType ==> nodes[k].textType == Text && nodes[k].text != "")
      && Concat(Texts(nodes)) == Concat(parts)
    decreases |parts|
  {
    if |parts| == 1 {
      PlainIfNonEmptyText(parts[0]);
      assert Concat(parts) == parts[0] + Concat([]);
    } else {
      var n := |parts|;
      var front := PartsToNodes(parts[..n - 2], textType);
      var pair := [TextNode(parts[n - 2], textType, None)];
      var tail := PlainIfNonEmpty(parts[n - 1]);
      PartsToNodesFacts(parts[..n - 2], textType);
      TextsOfPair(front, pair[0], parts[n - 1]);
      ConcatLastTwo(parts);
      var nodes := front + pair + tail;
      forall k | 0 <= k < |nodes|
        ensures nodes[k].url.None? && nodes[k].text in parts
      {
        if k < |front| {
          assert nodes[k] == front[k];
          assert nodes[k].text in parts[..n - 2];
        } else if k == |front| {
          assert nodes[k] == pair[0];
        } else {
          assert nodes[k] == tail[k - |front| - 1];
        }
      }
    }
  }

  /** Appending one pair's nodes appends their texts. */
  lemma TextsOfPair(front: seq<TextNode>, node: TextNode, q: string)
    ensures Concat(Texts(front + [node] + PlainIfNonEmpty(q))) == Concat(Texts(front)) + node.text + q
  {
    TextsAppend(front + [node], PlainIfNonEmpty(q));
    TextsAppend(front, [node]);
    ConcatAppend(Texts(front) + Texts([node]), Texts(PlainIfNonEmpty(q)));
    ConcatAppend(Texts(front), Texts([node]));
    assert Concat(Texts([node])) == node.text + Concat([]);
    PlainIfNonEmptyText(q);
  }

  lemma ConcatLastTwo(parts: seq<string>)
    requires |parts| >= 2
    ensures Concat(parts) == Concat(parts[..|parts| - 2]) + parts[|parts| - 2] + parts[|parts| - 1]
  {
    var n := |parts|;
    assert parts[..n] == parts;
    ConcatTake(parts, n);
    ConcatTake(parts, n - 1);
  }

  /** One more pair of pieces adds the pair's nodes at the end. */
  lemma PartsToNodesStep(parts: seq<string>, textType: TextType, i: nat)
    requires i % 2 == 1 && i + 2 <= |parts|
    ensures PartsToNodes(parts[..i + 2], textType) ==
      PartsToNodes(parts[..i], textType) + [TextNode(parts[i], textType, None)] + PlainIfNonEmpty(parts[i + 1])
  {
    assert parts[..i + 2][..i] == parts[..i];
  }

  /** The rule stated piece by piece: the first `n` pieces, where piece `i`
      becomes a node of the target type when `i` is odd, and a TEXT node when
      `i` is even and the piece is non-empty. */
  function PiecewiseNodes(parts: seq<string>, textType: TextType, n: nat): seq<TextNode>
    requires n <= |parts|
  {
    if n == 0 then []
    else
      PiecewiseNodes(parts, textType, n - 1)
      + (if (n - 1) % 2 == 1 then [TextNode(parts[n - 1], textType, None)] else PlainIfNonEmpty(parts[n - 1]))
  }

  /** The piecewise rule only looks at the first `n` pieces. */
  lemma {:induction false} PiecewisePrefix(parts: seq<string>, textType: TextType, n: nat, m: nat)
    requires n <= m <= |parts|
    ensures PiecewiseNodes(parts[..m], textType, n) == PiecewiseNodes(parts, textType, n)
    decreases n
  {
    if n > 0 {
      PiecewisePrefix(parts, textType, n - 1, m);
    }
  }

  /** The pair-by-pair construction follows the piece-by-piece rule. */
  lemma {:induction false} PartsToNodesPiecewise(parts: seq<string>, textType: TextType)
    requires |parts| % 2 == 1
    ensures PartsToNodes(parts, textType) == PiecewiseNodes(parts, textType, |parts|)
    decreases |parts|
  {
    var n := |parts|;
    if n > 1 {
      var front := parts[..n - 2];
      PartsToNodesPiecewise(front, textType);
      PiecewisePrefix(parts, textType, n - 2, n - 2);
      assert front[..n - 2] == front;
      var w := PiecewiseNodes(parts, textType, n - 2);
      assert PiecewiseNodes(parts, textType, n - 1) == w + [TextNode(parts[n - 2], textType, None)];
      assert PiecewiseNodes(parts, textType, n)
        == w + [TextNode(parts[n - 2], textType, None)] + PlainIfNonEmpty(parts[n - 1]);
    }
  }

  /** `split_nodes_delimiter` on a single node: kept when it is not TEXT or
      holds no delimiter; an error exactly when its delimiters do not pair up,
      the one the count calls for. */
  function SplitNodeDelimiter(node: TextNode, delimiter: string, textType: TextType): (r: Result<seq<TextNode>, DelimiterError>)
    requires |delimiter| > 0
    ensures node.textType != Text ==> r == Success([node])
    ensures node.textType == Text && !Contains(node.text, delimiter) ==> r == Success([node])
    ensures r.Failure? <==> !Balanced(node, delimiter)
    ensures r.Failure? ==> r.error == ErrorFor(Count(node.text, delimiter), delimiter)
  {
    if node.textType != Text then Success([node])
    else
      var text := node.text;
      var count := Count(text, delimiter);
      CountZero(text, delimiter);
      if count < 2 then
        if count == 1 then Failure(NoClosingDelimiter(delimiter)) else Success([node])
      else
        var parts := Split(text, delimiter);
        if |parts| % 2 == 0 then Failure(MissingClosingDelimiter(delimiter))
        else Success(PartsToNodes(parts, textType))
  }

  /** The nodes a successful split of a TEXT node makes: each text is one of
      the pieces between delimiters, none contains the delimiter, and the
      texts joined are the node's text with the delimiters removed. */
  lemma SplitNodeDelimiterPieces(node: TextNode, delimiter: string, textType: TextType)
    requires |delimiter| > 0 && node.textType == Text
    requires SplitNodeDelimiter(node, delimiter, textType).Success?
    ensures var out := SplitNodeDelimiter(node, delimiter, textType).value;
      && (forall k :: 0 <= k < |out| ==> out[k].text in Split(node.text, delimiter))
      && (forall k :: 0 <= k < |out| ==> !Contains(out[k].text, delimiter))
      && Concat(Texts(out)) == Remove(node.text, delimiter)
  {
    var text := node.text;
    var out := SplitNodeDelimiter(node, delimiter, textType).value;
    CountZero(text, delimiter);
    if Count(text, delimiter) < 2 {
      RemoveAbsent(text, delimiter);
      SplitAbsent(text, delimiter);
      assert out == [node];
      assert Texts([node]) == [text];
      assert Concat([text]) == text + Concat([]);
    } else {
      var parts := Split(text, delimiter);
      ConcatSplit(text, delimiter);
      SplitPartsAvoid(text, delimiter);
      PartsToNodesFacts(parts, textType);
    }
  }

  /** `split_nodes_delimiter`: each node in turn, TEXT nodes split and others
      kept, stopping at the first node that raises. */
  function SplitNodesDelimiter(oldNodes: seq<TextNode>, delimiter: string, textType: TextType): (r: Result<seq<TextNode>, DelimiterError>)
    requires |delimiter| > 0
    decreases |oldNodes|
  {
    if |oldNodes| == 0 then Success([])
    else
      var head :- SplitNodeDelimiter(oldNodes[0], delimiter, textType);
      var tail :- SplitNodesDelimiter(oldNodes[1..], delimiter, textType);
      Success(head + tail)
  }

  /** The list splitter succeeds exactly when every node is balanced, and
      returns a list without TEXT nodes unchanged. */
  lemma {:induction false} SplitNodesDelimiterSucceeds(oldNodes: seq<TextNode>, delimiter: string, textType: TextType)
    requires |delimiter| > 0
    ensures SplitNodesDelimiter(oldNodes, delimiter, textType).Success?
      <==> forall i :: 0 <= i < |oldNodes| ==> Balanced(oldNodes[i], delimiter)
    ensures (forall i :: 0 <= i < |oldNodes| ==> oldNodes[i].textType != Text)
      ==> SplitNodesDelimiter(oldNodes, delimiter, textType) == Success(oldNodes)
    decreases |oldNodes|
  {
    if |oldNodes| > 0 {
      var tail := oldNodes[1..];
      SplitNodesDelimiterSucceeds(tail, delimiter, textType);
      SplitNodesDelimiterCons(oldNodes, delimiter, textType);
      assert forall i :: 1 <= i < |oldNodes| ==> oldNodes[i] == tail[i - 1];
      assert (forall i :: 0 <= i < |oldNodes| ==> Balanced(oldNodes[i], delimiter))
        <==> Balanced(oldNodes[0], delimiter) && forall i :: 0 <= i < |tail| ==> Balanced(tail[i], delimiter);
      assert oldNodes == [oldNodes[0]] + tail;
    }
  }

  /** The results of two splits in sequence: the first error, or both lists
      of nodes one after the other. */
  function Then(x: Result<seq<TextNode>, DelimiterError>, y: Result<seq<TextNode>, DelimiterError>): Result<seq<TextNode>, DelimiterError> {
    match x
    case Failure(e) => Failure(e)
    case Success(u) =>
      match y
      case Failure(e) => Failure(e)
      case Success(v) => Success(u + v)
  }

  lemma ThenAssociative(x: Result<seq<TextNode>, DelimiterError>, y: Result<seq<TextNode>, DelimiterError>, z: Result<seq<TextNode>, DelimiterError>)
    ensures Then(Then(x, y), z) == Then(x, Then(y, z))
  {
    if x.Success? && y.Success? && z.Success? {
      assert (x.value + y.value) + z.value == x.value + (y.value + z.value);
    }
  }

  /** Splitting a one-node list is splitting the node. */
  lemma SplitNodesDelimiterSingle(node: TextNode, delimiter: string, textType: TextType)
    requires |delimiter| > 0
    ensures SplitNodesDelimiter([node], delimiter, textType) == SplitNodeDelimiter(node, delimiter, textType)
  {
    assert [node][1..] == [];
    match SplitNodeDelimiter(node, delimiter, textType)
    case Failure(e) =>
    case Success(h) =>
      assert h + [] == h;
  }

  /** The list splitter on a non-empty list: the first node, then the rest. */
  lemma SplitNodesDelimiterCons(oldNodes: seq<TextNode>, delimiter: string, textType: TextType)
    requires |delimiter| > 0 && |oldNodes| > 0
    ensures SplitNodesDelimiter(oldNodes, delimiter, textType)
      == Then(SplitNodeDelimiter(oldNodes[0], delimiter, textType), SplitNodesDelimiter(oldNodes[1..], delimiter, textType))
  {
  }

  /** The list splitter works node by node: splitting `a + b` is splitting `a`,
      then `b`, and concatenating, so every node keeps its place and the first
      error wins. */
  lemma {:induction false} SplitNodesDelimiterAppend(a: seq<TextNode>, b: seq<TextNode>, delimiter: string, textType: TextType)
    requires |delimiter| > 0
    ensures SplitNodesDelimiter(a + b, delimiter, textType)
      == Then(SplitNodesDelimiter(a, delimiter, textType), SplitNodesDelimiter(b, delimiter, textType))
    decreases |a|
  {
    var sb := SplitNodesDelimiter(b, delimiter, textType);
    if |a| == 0 {
      assert a + b == b;
      if sb.Success? {
        assert [] + sb.value == sb.value;
      }
    } else {
      var ab := a + b;
      assert ab[0] == a[0] && ab[1..] == a[1..] + b;
      var h := SplitNodeDelimiter(a[0], delimiter, textType);
      SplitNodesDelimiterCons(ab, delimiter, textType);
      SplitNodesDelimiterCons(a, delimiter, textType);
      SplitNodesDelimiterAppend(a[1..], b, delimiter, textType);
      ThenAssociative(h, SplitNodesDelimiter(a[1..], delimiter, textType), sb);
    }
  }

  /** The error reported is the one for the first unbalanced node. */
  lemma {:induction false} FirstUnbalancedDecides(oldNodes: seq<TextNode>, delimiter: string, textType: TextType, i: nat)
    requires |delimiter| > 0
    requires i < |oldNodes| && !Balanced(oldNodes[i], delimiter)
    requires forall j :: 0 <= j < i ==> Balanced(oldNodes[j], delimiter)
    ensures SplitNodesDelimiter(oldNodes, delimiter, textType) == Failure(ErrorFor(Count(oldNodes[i].text, delimiter), delimiter))
    decreases i
  {
    if i > 0 {
      FirstUnbalancedDecides(oldNodes[1..], delimiter, textType, i - 1);
    }
  }

  /** What a successful split of one node keeps and establishes for the TEXT
      nodes it produces. */
  lemma SplitNodeDelimiterText(node: TextNode, delimiter: string, textType: TextType, x: string)
    requires |delimiter| > 0
    requires SplitNodeDelimiter(node, delimiter, textType).Success?
    ensures TextAvoids(SplitNodeDelimiter(node, delimiter, textType).value, delimiter)
    ensures TextAvoids([node], x) ==> TextAvoids(SplitNodeDelimiter(node, delimiter, textType).value, x)
    ensures textType != Text && TextNonEmpty([node]) ==> TextNonEmpty(SplitNodeDelimiter(node, delimiter, textType).value)
  {
    var out := SplitNodeDelimiter(node, delimiter, textType).value;
    if node.textType == Text {
      SplitNodeDelimiterPieces(node, delimiter, textType);
      if TextAvoids([node], x) {
        assert !Contains(node.text, x) by {
          assert [node][0] == node;
        }
        SplitPartsAvoidOther(node.text, delimiter, x);
        forall k | 0 <= k < |out|
          ensures !Contains(out[k].text, x)
        {
          var parts := Split(node.text, delimiter);
          var j :| 0 <= j < |parts| && parts[j] == out[k].text;
        }
      }
      if textType != Text && TextNonEmpty([node]) && Contains(node.text, delimiter) {
        CountZero(node.text, delimiter);
        PartsToNodesNonEmpty(Split(node.text, delimiter), textType);
      }
    }
  }

  /** What a successful split keeps and establishes for the TEXT nodes: none
      contains the delimiter, a substring that no input TEXT node contained is
      still absent, and (when the target type is not TEXT) non-empty TEXT nodes
      stay non-empty. */
  lemma {:induction false} SplitNodesDelimiterText(oldNodes: seq<TextNode>, delimiter: string, textType: TextType, x: string)
    requires |delimiter| > 0
    requires SplitNodesDelimiter(oldNodes, delimiter, textType).Success?
    ensures TextAvoids(SplitNodesDelimiter(oldNodes, delimiter, textType).value, delimiter)
    ensures TextAvoids(oldNodes, x) ==> TextAvoids(SplitNodesDelimiter(oldNodes, delimiter, textType).value, x)
    ensures textType != Text && TextNonEmpty(oldNodes) ==> TextNonEmpty(SplitNodesDelimiter(oldNodes, delimiter, textType).value)
    decreases |oldNodes|
  {
    if |oldNodes| > 0 {
      var node := oldNodes[0];
      var head := SplitNodeDelimiter(node, delimiter, textType).value;
      var tail := SplitNodesDelimiter(oldNodes[1..], delimiter, textType).value;
      SplitNodesDelimiterText(oldNodes[1..], delimiter, textType, x);
      SplitNodeDelimiterText(node, delimiter, textType, x);
      assert oldNodes == [node] + oldNodes[1..];
      AvoidsSplit([node], oldNodes[1..], x);
      NonEmptySplit([node], oldNodes[1..]);
      assert SplitNodesDelimiter(oldNodes, delimiter, textType).value == head + tail;
      AvoidsSplit(head, tail, x);
      AvoidsSplit(head, tail, delimiter);
      NonEmptySplit(head, tail);
    }
  }

  /** Writing the nodes back as markdown puts the delimiter between the pieces
      again. */
  lemma {:induction false} PartsToNodesMarkdown(parts: seq<string>, delimiter: string, textType: TextType)
    requires |parts| % 2 == 1 && DelimiterFor(textType) == Some(delimiter)
    ensures MarkdownOf(PartsToNodes(parts, textType)) == Join(parts, delimiter)
    decreases |parts|
  {
    var n := |parts|;
    if n == 1 {
      PlainIfNonEmptyMarkdown(parts[0]);
    } else {
      var front := PartsToNodes(parts[..n - 2], textType);
      PartsToNodesMarkdown(parts[..n - 2], delimiter, textType);
      assert PartsToNodes(parts, textType)
        == front + [TextNode(parts[n - 2], textType, None)] + PlainIfNonEmpty(parts[n - 1]);
      MarkdownOfPair(front, parts[n - 2], parts[n - 1], delimiter, textType);
      JoinLastTwo(parts, delimiter);
    }
  }

  /** Appending one pair's nodes appends its markdown. */
  lemma MarkdownOfPair(front: seq<TextNode>, p: string, q: string, delimiter: string, textType: TextType)
    requires DelimiterFor(textType) == Some(delimiter)
    ensures MarkdownOf(front + [TextNode(p, textType, None)] + PlainIfNonEmpty(q)) == MarkdownOf(front) + delimiter + p + delimiter + q
  {
    var x := MarkdownOf(front);
    var pair := [TextNode(p, textType, None)];
    assert MarkdownOf(front + pair) == x + (delimiter + p + delimiter) by {
      MarkdownOfAppend(front, pair);
      SingleMarkdown(pair[0]);
    }
    assert MarkdownOf(front + pair + PlainIfNonEmpty(q)) == MarkdownOf(front + pair) + q by {
      MarkdownOfAppend(front + pair, PlainIfNonEmpty(q));
      PlainIfNonEmptyMarkdown(q);
    }
    AppendAssociative(x, delimiter + p, delimiter);
    AppendAssociative(x, delimiter, p);
  }

  lemma JoinLastTwo(parts: seq<string>, sep: string)
    requires |parts| >= 3
    ensures Join(parts, sep) == Join(parts[..|parts| - 2], sep) + sep + parts[|parts| - 2] + sep + parts[|parts| - 1]
  {
    var n := |parts|;
    assert parts[..n] == parts;
    JoinTake(parts, n, sep);
    JoinTake(parts, n - 1, sep);
  }

  /** A successful split of one node can be written back as the markdown the
      node stood for. */
  lemma SplitNodeDelimiterMarkdown(node: TextNode, delimiter: string, textType: TextType)
    requires DelimiterFor(textType) == Some(delimiter)
    requires SplitNodeDelimiter(node, delimiter, textType).Success?
    ensures MarkdownOf(SplitNodeDelimiter(node, delimiter, textType).value) == Markdown(node)
  {
    SingleMarkdown(node);
    if node.textType == Text && Count(node.text, delimiter) >= 2 {
      PartsToNodesMarkdown(Split(node.text, delimiter), delimiter, textType);
      JoinSplit(node.text, delimiter);
    }
  }

  /** A successful split loses no markdown: writing the output back gives the
      input's markdown, when the target type is the style the delimiter marks. */
  lemma {:induction false} SplitNodesDelimiterMarkdown(oldNodes: seq<TextNode>, delimiter: string, textType: TextType)
    requires DelimiterFor(textType) == Some(delimiter)
    requires SplitNodesDelimiter(oldNodes, delimiter, textType).Success?
    ensures MarkdownOf(SplitNodesDelimiter(oldNodes, delimiter, textType).value) == MarkdownOf(oldNodes)
    decreases |oldNodes|
  {
    if |oldNodes| > 0 {
      var head := SplitNodeDelimiter(oldNodes[0], delimiter, textType).value;
      var tail := SplitNodesDelimiter(oldNodes[1..], delimiter, textType).value;
      SplitNodeDelimiterMarkdown(oldNodes[0], delimiter, textType);
      SplitNodesDelimiterMarkdown(oldNodes[1..], delimiter, textType);
      MarkdownOfAppend(head, tail);
    }
  }

  /** With a non-TEXT target type, the pieces never produce an empty TEXT node. */
  lemma PartsToNodesNonEmpty(parts: seq<string>, textType: TextType)
    requires |parts| % 2 == 1 && textType != Text
    ensures TextNonEmpty(PartsToNodes(parts, textType))
  {
    PartsToNodesFacts(parts, textType);
  }
}
