/** `split_nodes_image` and `split_nodes_link`: each TEXT node is cut around
    the images (or links) its text holds. The loop does not use the match
    positions: for each found pair it rebuilds the markdown and splits the
    remaining text once at the first occurrence of that string, as the
    converter does. */
module ImageLinkSplit {
  import opened Wrappers
  import opened Strings
  import opened TextNodes
  import opened MarkdownExtract

  /** The node type each pattern produces. */
  function NodeType(pattern: Pattern): TextType {
    match pattern
    case ImagePattern => Image
    case LinkPattern => Link
  }

  /** The node for one found pair, carrying the url. */
  function FoundNode(pattern: Pattern, alt: string, url: string): (node: TextNode)
    ensures Markdown(node) == Markup(pattern, alt, url)
  {
    TextNode(alt, NodeType(pattern), Some(url))
  }

  /** The loop over the found pairs: the text before the first occurrence of
      the pair's markdown (when non-empty), the pair's node, then on with the
      text after it; at the end, what remains (when non-empty). */
  function SplitLoop(pattern: Pattern, remaining: string, found: seq<(string, string)>): seq<TextNode>
    decreases |found|
  {
    if |found| == 0 then PlainIfNonEmpty(remaining)
    else
      var alt := found[0].0;
      var url := found[0].1;
      var sections := SplitOnce(remaining, Markup(pattern, alt, url));
      var rest := if |sections| > 1 then sections[1] else "";
      PlainIfNonEmpty(sections[0]) + [FoundNode(pattern, alt, url)] + SplitLoop(pattern, rest, found[1..])
  }

  /** One node: kept when it is not TEXT or when nothing is found in it. */
  function SplitNode(pattern: Pattern, node: TextNode): (r: seq<TextNode>)
    ensures node.textType != Text ==> r == [node]
    ensures node.textType == Text && Extract(pattern, node.text) == [] ==> r == [node]
  {
    if node.textType != Text then [node]
    else
      var found := Extract(pattern, node.text);
      if |found| == 0 then [node] else SplitLoop(pattern, node.text, found)
  }

  /** Every node in turn. */
  function SplitNodes(pattern: Pattern, oldNodes: seq<TextNode>): (r: seq<TextNode>)
    decreases |oldNodes|
  {
    if |oldNodes| == 0 then [] else SplitNode(pattern, oldNodes[0]) + SplitNodes(pattern, oldNodes[1..])
  }

  /** A list without TEXT nodes comes back unchanged. */
  lemma {:induction false} SplitNodesKeepsNonText(pattern: Pattern, oldNodes: seq<TextNode>)
    requires forall i :: 0 <= i < |oldNodes| ==> oldNodes[i].textType != Text
    ensures SplitNodes(pattern, oldNodes) == oldNodes
    decreases |oldNodes|
  {
    if |oldNodes| > 0 {
      assert forall i :: 0 <= i < |oldNodes[1..]| ==> oldNodes[1..][i] == oldNodes[i + 1];
      SplitNodesKeepsNonText(pattern, oldNodes[1..]);
      assert oldNodes == [oldNodes[0]] + oldNodes[1..];
    }
  }

  /** `split_nodes_image`. */
  function SplitNodesImage(oldNodes: seq<TextNode>): seq<TextNode> {
    SplitNodes(ImagePattern, oldNodes)
  }

  /** `split_nodes_link`. */
  function SplitNodesLink(oldNodes: seq<TextNode>): seq<TextNode> {
    SplitNodes(LinkPattern, oldNodes)
  }

  // ---------------------------------------------------------------------------
  // Node by node
  // ---------------------------------------------------------------------------

  /** The splitter works node by node, so each node's output keeps its place. */
  lemma {:induction false} SplitNodesAppend(pattern: Pattern, a: seq<TextNode>, b: seq<TextNode>)
    ensures SplitNodes(pattern, a + b) == SplitNodes(pattern, a) + SplitNodes(pattern, b)
    decreases |a|
  {
    if |a| == 0 {
      assert a + b == b;
    } else {
      var t := a[1..];
      assert a == [a[0]] + t;
      assert a + b == [a[0]] + (t + b);
      SplitNodesCons(pattern, a[0], t);
      SplitNodesCons(pattern, a[0], t + b);
      SplitNodesAppend(pattern, t, b);
      AppendAssociative(SplitNode(pattern, a[0]), SplitNodes(pattern, t), SplitNodes(pattern, b));
    }
  }

  /** A node in front: its own output, then the rest's. */
  lemma SplitNodesCons(pattern: Pattern, node: TextNode, rest: seq<TextNode>)
    ensures SplitNodes(pattern, [node] + rest) == SplitNode(pattern, node) + SplitNodes(pattern, rest)
  {
    assert ([node] + rest)[1..] == rest;
  }

  /** A match has its `[` where the bracket part starts. */
  lemma BracketOpens(pattern: Pattern, s: string, q: nat)
    requires q <= |s|
    ensures MatchAt(pattern, s, q).Some? ==>
      var b := if pattern == ImagePattern then q + 1 else q;
      b < |s| && s[b] == '['
  {
  }

  /** A TEXT node with no `[` holds no match and is kept. */
  lemma NoBracketKept(pattern: Pattern, node: TextNode)
    requires forall i :: 0 <= i < |node.text| ==> node.text[i] != '['
    ensures SplitNode(pattern, node) == [node]
  {
    forall q | 0 <= q <= |node.text|
      ensures MatchAt(pattern, node.text, q).None?
    {
      BracketOpens(pattern, node.text, q);
    }
  }

  /** Both markups end with the closing parenthesis. */
  lemma MarkupCloses(pattern: Pattern, alt: string, url: string)
    ensures var md := Markup(pattern, alt, url);
      |md| > 0 && md[|md| - 1] == ')'
  {
    var link := LinkMarkdown(alt, url);
    assert link == "[" + alt + "](" + url + ")";
    assert link[|link| - 1] == ')';
    if pattern == ImagePattern {
      assert Markup(pattern, alt, url) == "!" + link;
    }
  }

  /** Where the pattern matches, the text holds the closing parenthesis of
      the markup. */
  lemma MatchCloses(pattern: Pattern, s: string, q: nat)
    requires q <= |s|
    ensures MatchAt(pattern, s, q).Some? ==> exists i :: 0 <= i < |s| && s[i] == ')'
  {
    MatchAtSound(pattern, s, q);
    if MatchAt(pattern, s, q).Some? {
      var m := MatchAt(pattern, s, q).value;
      var md := Markup(pattern, m.alt, m.url);
      MarkupCloses(pattern, m.alt, m.url);
      assert s[q..q + |md|][|md| - 1] == s[q + |md| - 1];
    }
  }

  /** A TEXT node with no `)` holds no match and is kept, so markup left
      unclosed, such as `[malformed link](https://example.com`, stays plain
      text. */
  lemma UnclosedKept(pattern: Pattern, node: TextNode)
    requires forall i :: 0 <= i < |node.text| ==> node.text[i] != ')'
    ensures SplitNode(pattern, node) == [node]
  {
    forall q | 0 <= q <= |node.text|
      ensures MatchAt(pattern, node.text, q).None?
    {
      MatchCloses(pattern, node.text, q);
    }
  }

  // ---------------------------------------------------------------------------
  // Round trip: writing the nodes back as markdown gives the text
  // ---------------------------------------------------------------------------

  /** The first turn of the loop, named. */
  lemma SplitLoopFirst(pattern: Pattern, remaining: string, alt: string, url: string, more: seq<(string, string)>)
    ensures var sections := SplitOnce(remaining, Markup(pattern, alt, url));
      SplitLoop(pattern, remaining, [(alt, url)] + more)
        == PlainIfNonEmpty(sections[0]) + [FoundNode(pattern, alt, url)]
          + SplitLoop(pattern, if |sections| > 1 then sections[1] else "", more)
  {
    var found := [(alt, url)] + more;
    assert found[0] == (alt, url) && found[1..] == more;
  }

  /** The scan from `p` pairs its first match with the rest of the scan. */
  lemma ScanUnfold(pattern: Pattern, s: string, p: nat)
    requires p < |s|
    ensures MatchAt(pattern, s, p).None? ==> Scan(pattern, s, p) == Scan(pattern, s, p + 1)
    ensures MatchAt(pattern, s, p).Some? ==>
      Scan(pattern, s, p) == [MatchAt(pattern, s, p).value] + Scan(pattern, s, MatchAt(pattern, s, p).value.end)
  {
  }

  /** Where the pattern matches at `p`, the scan from `p` and its groups
      start with that match. */
  lemma ScanAtMatch(pattern: Pattern, s: string, p: nat)
    requires p < |s| && MatchAt(pattern, s, p).Some?
    ensures var m := MatchAt(pattern, s, p).value;
      Scan(pattern, s, p) == [m] + Scan(pattern, s, m.end)
      && Groups(Scan(pattern, s, p)) == [(m.alt, m.url)] + Groups(Scan(pattern, s, m.end))
  {
    var m := MatchAt(pattern, s, p).value;
    var rest := Scan(pattern, s, m.end);
    assert Scan(pattern, s, p) == [m] + rest;
    assert ([m] + rest)[1..] == rest;
  }

  /** One turn of the loop: the markdown of the text before the occurrence,
      of the node, and of the rest. */
  lemma MarkdownOfTurn(before: string, node: TextNode, rest: seq<TextNode>)
    ensures MarkdownOf(PlainIfNonEmpty(before) + [node] + rest) == before + Markdown(node) + MarkdownOf(rest)
  {
    MarkdownOfAppend(PlainIfNonEmpty(before) + [node], rest);
    MarkdownOfAppend(PlainIfNonEmpty(before), [node]);
    PlainIfNonEmptyMarkdown(before);
    SingleMarkdown(node);
  }

  /** One turn of the loop, written back as markdown: the text before the
      first occurrence of the pair's markup, the markup, and the markdown of
      the rest of the loop. */
  lemma LoopTurn(pattern: Pattern, t: string, alt: string, url: string, more: seq<(string, string)>)
    requires Contains(t, Markup(pattern, alt, url))
    ensures var sections := SplitOnce(t, Markup(pattern, alt, url));
      |sections| == 2
      && MarkdownOf(SplitLoop(pattern, t, [(alt, url)] + more))
        == sections[0] + Markup(pattern, alt, url) + MarkdownOf(SplitLoop(pattern, sections[1], more))
  {
    var sections := SplitOnce(t, Markup(pattern, alt, url));
    SplitLoopFirst(pattern, t, alt, url, more);
    MarkdownOfTurn(sections[0], FoundNode(pattern, alt, url), SplitLoop(pattern, sections[1], more));
  }

  /** Splitting the text from `r` on the pairs a scan from `p >= r` finds, and
      writing the nodes back as markdown, gives the text from `r` back. This
      holds on every input: even where the link splitter cuts at an earlier
      copy of the markup inside an image, the cut is at a true occurrence. */
  lemma {:induction false} LoopRestores(pattern: Pattern, s: string, r: nat, p: nat)
    requires r <= p <= |s|
    ensures MarkdownOf(SplitLoop(pattern, s[r..], Groups(Scan(pattern, s, p)))) == s[r..]
    decreases |s| - p, 1
  {
    if p == |s| {
      LoopRestoresEnd(pattern, s, r);
    } else if MatchAt(pattern, s, p).None? {
      LoopRestoresSkip(pattern, s, r, p);
    } else {
      LoopRestoresAtMatch(pattern, s, r, p);
    }
  }

  /** `LoopRestores` at the end of the text: nothing is found. */
  lemma LoopRestoresEnd(pattern: Pattern, s: string, r: nat)
    requires r <= |s|
    ensures MarkdownOf(SplitLoop(pattern, s[r..], Groups(Scan(pattern, s, |s|)))) == s[r..]
  {
    assert Scan(pattern, s, |s|) == [];
    PlainIfNonEmptyMarkdown(s[r..]);
  }

  /** `LoopRestores` where the pattern does not match at `p`. */
  lemma {:induction false} LoopRestoresSkip(pattern: Pattern, s: string, r: nat, p: nat)
    requires r <= p < |s| && MatchAt(pattern, s, p).None?
    ensures MarkdownOf(SplitLoop(pattern, s[r..], Groups(Scan(pattern, s, p)))) == s[r..]
    decreases |s| - p, 0
  {
    ScanUnfold(pattern, s, p);
    LoopRestores(pattern, s, r, p + 1);
  }

  /** `LoopRestores` where the pattern matches at `p`. */
  lemma {:induction false} LoopRestoresAtMatch(pattern: Pattern, s: string, r: nat, p: nat)
    requires r <= p < |s| && MatchAt(pattern, s, p).Some?
    ensures MarkdownOf(SplitLoop(pattern, s[r..], Groups(Scan(pattern, s, p)))) == s[r..]
    decreases |s| - p, 0
  {
    var m := MatchAt(pattern, s, p).value;
    var more := Groups(Scan(pattern, s, m.end));
    ScanAtMatch(pattern, s, p);
    var r' := MatchCut(pattern, s, r, p);
    LoopRestores(pattern, s, r', m.end);
    LoopTurn(pattern, s[r..], m.alt, m.url, more);
  }

  /** Cutting the text from `r` at the first occurrence of the markup matched
      at `p` leaves, after the cut, the text from some `r'` no later than the
      end of the match. */
  lemma MatchCut(pattern: Pattern, s: string, r: nat, p: nat) returns (r': nat)
    requires r <= p < |s| && MatchAt(pattern, s, p).Some?
    ensures var m := MatchAt(pattern, s, p).value;
      p < m.end <= |s| && r' <= m.end
    ensures var m := MatchAt(pattern, s, p).value;
      var sections := SplitOnce(s[r..], Markup(pattern, m.alt, m.url));
      |sections| == 2 && sections[1] == s[r'..]
  {
    var m := MatchAt(pattern, s, p).value;
    var md := Markup(pattern, m.alt, m.url);
    MatchAtSound(pattern, s, p);
    SplitOnceSuffixWithin(s, md, r, p);
    var sections := SplitOnce(s[r..], md);
    r' := r + |sections[0]| + |md|;
  }

  /** Writing the output of one node back as markdown gives the node's own
      markdown. */
  lemma SplitNodeRestores(pattern: Pattern, node: TextNode)
    ensures MarkdownOf(SplitNode(pattern, node)) == Markdown(node)
  {
    SingleMarkdown(node);
    if node.textType == Text && Extract(pattern, node.text) != [] {
      LoopRestores(pattern, node.text, 0, 0);
      assert node.text[0..] == node.text;
    }
  }

  /** Neither splitter loses or adds markdown: writing the output back gives
      the input's markdown. For images this is putting `![alt](url)` back in
      place of each IMAGE node. */
  lemma {:induction false} SplitNodesRestores(pattern: Pattern, oldNodes: seq<TextNode>)
    ensures MarkdownOf(SplitNodes(pattern, oldNodes)) == MarkdownOf(oldNodes)
    decreases |oldNodes|
  {
    if |oldNodes| > 0 {
      SplitNodeRestores(pattern, oldNodes[0]);
      SplitNodesRestores(pattern, oldNodes[1..]);
      MarkdownOfAppend(SplitNode(pattern, oldNodes[0]), SplitNodes(pattern, oldNodes[1..]));
    }
  }

  // ---------------------------------------------------------------------------
  // Exact shape: cut at the match positions
  // ---------------------------------------------------------------------------

  /** Matches that start at or after `r`, each ending by `n` and before the
      next one starts. */
  predicate Chain(ms: seq<Match>, r: nat, n: nat)
    decreases |ms|
  {
    |ms| == 0 || (r <= ms[0].start <= ms[0].end <= n && Chain(ms[1..], ms[0].end, n))
  }

  /** A chain from `p` is a chain from any earlier position. */
  lemma ChainFrom(ms: seq<Match>, r: nat, p: nat, n: nat)
    requires r <= p && Chain(ms, p, n)
    ensures Chain(ms, r, n)
  {
  }

  lemma {:induction false} ScanChain(pattern: Pattern, s: string, p: nat)
    requires p <= |s|
    ensures Chain(Scan(pattern, s, p), p, |s|)
    decreases |s| - p
  {
    if p < |s| {
      ScanUnfold(pattern, s, p);
      match MatchAt(pattern, s, p)
      case None =>
        ScanChain(pattern, s, p + 1);
      case Some(m) =>
        ScanChain(pattern, s, m.end);
        assert ([m] + Scan(pattern, s, m.end))[1..] == Scan(pattern, s, m.end);
    }
  }

  /** The intended shape, from the match positions alone: the text before each
      match when non-empty, the match's node, and the text after the last match
      when non-empty. */
  function Between(pattern: Pattern, s: string, r: nat, ms: seq<Match>): seq<TextNode>
    requires r <= |s| && Chain(ms, r, |s|)
    decreases |ms|
  {
    if |ms| == 0 then PlainIfNonEmpty(s[r..])
    else
      PlainIfNonEmpty(s[r..ms[0].start]) + [FoundNode(pattern, ms[0].alt, ms[0].url)]
        + Between(pattern, s, ms[0].end, ms[1..])
  }

  /** No `!` is immediately followed by `[`. */
  predicate NoBangBracket(s: string) {
    !Contains(s, "![")
  }

  /** Where the pattern matches nowhere in `[r, p)`, the rebuilt markdown does
      not occur there either (for links, given no `![`). */
  lemma NoEarlierOccurrence(pattern: Pattern, s: string, r: nat, p: nat, alt: string, url: string, j: nat)
    requires r <= r + j < p <= |s| && AltText(alt) && UrlText(url)
    requires forall q :: r <= q < p ==> MatchAt(pattern, s, q).None?
    requires pattern == ImagePattern || NoBangBracket(s)
    ensures !OccursAt(s[r..], Markup(pattern, alt, url), j)
  {
    var md := Markup(pattern, alt, url);
    if OccursAt(s[r..], md, j) {
      var q := r + j;
      assert s[q..q + |md|] == s[r..][j..j + |md|];
      if pattern == LinkPattern && q > 0 && s[q - 1] == '!' {
        assert s[q] == md[0];
        assert s[q - 1..q + 1] == "![";
        assert OccursAt(s, "![", q - 1);
      }
      MatchAtComplete(pattern, s, q, alt, url);
    }
  }

  /** At the end of the text the scan finds nothing and the rest is kept. */
  lemma LoopExactEnd(pattern: Pattern, s: string, r: nat)
    requires r <= |s|
    ensures Chain(Scan(pattern, s, |s|), r, |s|)
    ensures SplitLoop(pattern, s[r..], Groups(Scan(pattern, s, |s|))) == Between(pattern, s, r, Scan(pattern, s, |s|))
  {
    assert Scan(pattern, s, |s|) == [];
  }

  /** Images always, and links on text with no `![`, are cut exactly at the
      match positions. */
  lemma {:induction false} LoopExact(pattern: Pattern, s: string, r: nat, p: nat)
    requires r <= p <= |s|
    requires forall q :: r <= q < p ==> MatchAt(pattern, s, q).None?
    requires pattern == ImagePattern || NoBangBracket(s)
    ensures Chain(Scan(pattern, s, p), r, |s|)
    ensures SplitLoop(pattern, s[r..], Groups(Scan(pattern, s, p))) == Between(pattern, s, r, Scan(pattern, s, p))
    decreases |s| - p, 1
  {
    if p == |s| {
      LoopExactEnd(pattern, s, r);
    } else if MatchAt(pattern, s, p).None? {
      LoopExactSkip(pattern, s, r, p);
    } else {
      ScanChain(pattern, s, p);
      ChainFrom(Scan(pattern, s, p), r, p, |s|);
      LoopExactAtMatch(pattern, s, r, p);
    }
  }

  /** `LoopExact` where the pattern does not match at `p`. */
  lemma {:induction false} LoopExactSkip(pattern: Pattern, s: string, r: nat, p: nat)
    requires r <= p < |s| && MatchAt(pattern, s, p).None?
    requires forall q :: r <= q < p ==> MatchAt(pattern, s, q).None?
    requires pattern == ImagePattern || NoBangBracket(s)
    ensures Chain(Scan(pattern, s, p), r, |s|)
    ensures SplitLoop(pattern, s[r..], Groups(Scan(pattern, s, p))) == Between(pattern, s, r, Scan(pattern, s, p))
    decreases |s| - p, 0
  {
    ScanUnfold(pattern, s, p);
    LoopExact(pattern, s, r, p + 1);
  }

  /** `LoopExact` where the pattern matches at `p`. */
  lemma {:induction false} LoopExactAtMatch(pattern: Pattern, s: string, r: nat, p: nat)
    requires r <= p < |s| && MatchAt(pattern, s, p).Some?
    requires forall q :: r <= q < p ==> MatchAt(pattern, s, q).None?
    requires pattern == ImagePattern || NoBangBracket(s)
    requires Chain(Scan(pattern, s, p), r, |s|)
    ensures SplitLoop(pattern, s[r..], Groups(Scan(pattern, s, p))) == Between(pattern, s, r, Scan(pattern, s, p))
    decreases |s| - p, 0
  {
    var m := MatchAt(pattern, s, p).value;
    var node := FoundNode(pattern, m.alt, m.url);
    var rest := Scan(pattern, s, m.end);
    ScanAtMatch(pattern, s, p);
    ExactCut(pattern, s, r, p);
    assert SplitLoop(pattern, s[r..], Groups(Scan(pattern, s, p)))
      == PlainIfNonEmpty(s[r..p]) + [node] + SplitLoop(pattern, s[m.end..], Groups(rest)) by {
      SplitLoopFirst(pattern, s[r..], m.alt, m.url, Groups(rest));
    }
    LoopExact(pattern, s, m.end, m.end);
    assert Between(pattern, s, r, Scan(pattern, s, p))
      == PlainIfNonEmpty(s[r..p]) + [node] + Between(pattern, s, m.end, rest) by {
      assert ([m] + rest)[0] == m && ([m] + rest)[1..] == rest;
    }
  }

  /** With no match in `[r, p)`, the first occurrence of the markup matched at
      `p` in the text from `r` is the match itself. */
  lemma ExactCut(pattern: Pattern, s: string, r: nat, p: nat)
    requires r <= p < |s| && MatchAt(pattern, s, p).Some?
    requires forall q :: r <= q < p ==> MatchAt(pattern, s, q).None?
    requires pattern == ImagePattern || NoBangBracket(s)
    ensures var m := MatchAt(pattern, s, p).value;
      p < m.end <= |s| && SplitOnce(s[r..], Markup(pattern, m.alt, m.url)) == [s[r..p], s[m.end..]]
  {
    var m := MatchAt(pattern, s, p).value;
    var md := Markup(pattern, m.alt, m.url);
    MatchAtSound(pattern, s, p);
    forall j | 0 <= j < p - r
      ensures !OccursAt(s[r..], md, j)
    {
      NoEarlierOccurrence(pattern, s, r, p, m.alt, m.url, j);
    }
    SplitOnceSuffixAt(s, md, r, p);
    assert s[p + |md|..] == s[m.end..];
  }

  /** `split_nodes_image` on a TEXT node with images: the text before each
      image (when non-empty), the image node, and the text after the last
      image (when non-empty), cut at the positions the pattern matched. */
  lemma ImageSplitExact(node: TextNode)
    requires node.textType == Text
    ensures Chain(Scan(ImagePattern, node.text, 0), 0, |node.text|)
    ensures Extract(ImagePattern, node.text) != [] ==>
      SplitNode(ImagePattern, node) == Between(ImagePattern, node.text, 0, Scan(ImagePattern, node.text, 0))
  {
    LoopExact(ImagePattern, node.text, 0, 0);
    assert node.text[0..] == node.text;
  }

  /** The same for `split_nodes_link` on text with no `![`. */
  lemma LinkSplitExact(node: TextNode)
    requires node.textType == Text && NoBangBracket(node.text)
    ensures Chain(Scan(LinkPattern, node.text, 0), 0, |node.text|)
    ensures Extract(LinkPattern, node.text) != [] ==>
      SplitNode(LinkPattern, node) == Between(LinkPattern, node.text, 0, Scan(LinkPattern, node.text, 0))
  {
    LoopExact(LinkPattern, node.text, 0, 0);
    assert node.text[0..] == node.text;
  }

  // ---------------------------------------------------------------------------
  // TEXT nodes: pieces of the input text, never empty
  // ---------------------------------------------------------------------------

  /** The sections of a split hold nothing the text does not. */
  lemma SectionsAvoid(t: string, md: string, x: string)
    requires |md| > 0 && !Contains(t, x)
    ensures var sections := SplitOnce(t, md);
      !Contains(sections[0], x) && (|sections| > 1 ==> !Contains(sections[1], x))
  {
    var sections := SplitOnce(t, md);
    if |sections| > 1 {
      assert sections[0] == t[..|sections[0]|];
      assert sections[1] == t[|sections[0]| + |md|..];
      if Contains(sections[0], x) {
        assert t[0..|sections[0]|] == sections[0];
        ContainsSlice(t, 0, |sections[0]|, x);
      }
      if Contains(sections[1], x) {
        assert t[|sections[0]| + |md|..|t|] == sections[1];
        ContainsSlice(t, |sections[0]| + |md|, |t|, x);
      }
    }
  }

  /** The TEXT nodes the loop makes are non-empty pieces of its text. */
  lemma {:induction false} LoopText(pattern: Pattern, t: string, found: seq<(string, string)>, x: string)
    ensures TextNonEmpty(SplitLoop(pattern, t, found))
    ensures !Contains(t, x) ==> TextAvoids(SplitLoop(pattern, t, found), x)
    decreases |found|
  {
    if |found| == 0 {
      NonEmptyPlain(t, x);
    } else {
      var alt := found[0].0;
      var url := found[0].1;
      var md := Markup(pattern, alt, url);
      var sections := SplitOnce(t, md);
      var rest := if |sections| > 1 then sections[1] else "";
      var front := PlainIfNonEmpty(sections[0]);
      var node := FoundNode(pattern, alt, url);
      var tail := SplitLoop(pattern, rest, found[1..]);
      assert SplitLoop(pattern, t, found) == front + [node] + tail by {
        assert found == [(alt, url)] + found[1..];
        SplitLoopFirst(pattern, t, alt, url, found[1..]);
      }
      LoopText(pattern, rest, found[1..], x);
      NonEmptyPlain(sections[0], x);
      NonEmptySplit(front, [node]);
      NonEmptySplit(front + [node], tail);
      AvoidsSplit(front, [node], x);
      AvoidsSplit(front + [node], tail, x);
      if !Contains(t, x) {
        SectionsAvoid(t, md, x);
        assert !Contains(rest, x) by {
          if |sections| == 1 && Contains("", x) {
            ContainsSlice(t, 0, 0, x);
          }
        }
      }
    }
  }

  lemma NonEmptyPlain(s: string, x: string)
    ensures TextNonEmpty(PlainIfNonEmpty(s))
    ensures !Contains(s, x) ==> TextAvoids(PlainIfNonEmpty(s), x)
  {
  }

  /** One node's output keeps TEXT nodes non-empty and free of `x`. */
  lemma SplitNodeText(pattern: Pattern, node: TextNode, x: string)
    ensures TextNonEmpty([node]) ==> TextNonEmpty(SplitNode(pattern, node))
    ensures TextAvoids([node], x) ==> TextAvoids(SplitNode(pattern, node), x)
  {
    if node.textType == Text && Extract(pattern, node.text) != [] {
      LoopText(pattern, node.text, Extract(pattern, node.text), x);
      assert TextAvoids([node], x) ==> !Contains(node.text, x) by {
        assert [node][0] == node;
      }
    }
  }

  /** Both splitters keep TEXT nodes non-empty and never put into a TEXT node
      a string that no input TEXT node contained. */
  lemma {:induction false} SplitNodesText(pattern: Pattern, oldNodes: seq<TextNode>, x: string)
    ensures TextNonEmpty(oldNodes) ==> TextNonEmpty(SplitNodes(pattern, oldNodes))
    ensures TextAvoids(oldNodes, x) ==> TextAvoids(SplitNodes(pattern, oldNodes), x)
    decreases |oldNodes|
  {
    if |oldNodes| > 0 {
      var node := oldNodes[0];
      var rest := oldNodes[1..];
      assert oldNodes == [node] + rest;
      SplitNodesCons(pattern, node, rest);
      SplitNodesText(pattern, rest, x);
      SplitNodeText(pattern, node, x);
      NonEmptySplit([node], rest);
      NonEmptySplit(SplitNode(pattern, node), SplitNodes(pattern, rest));
      AvoidsSplit([node], rest, x);
      AvoidsSplit(SplitNode(pattern, node), SplitNodes(pattern, rest), x);
    }
  }
}
