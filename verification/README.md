# Markdown-to-HTML converter core, modelled in Dafny

This project models the parsing core of a small static-site generator. The
generator turns Markdown into an HTML tree. The model covers three parts:

- **Inline tokenizer** (`src/inline_markdown.py`). `text_to_textnodes` splits one
  line of text into typed text nodes. It runs three delimiter passes: `**` for
  bold, `_` for italic and the backtick for code. Then it cuts out
  `![alt](url)` images and `[text](url)` links. It includes
  `split_nodes_delimiter`, `extract_markdown_images`, `extract_markdown_links`,
  `split_nodes_image` and `split_nodes_link`. The older copy of
  `split_nodes_delimiter` in `src/markdown_conversion.py` is modelled as the
  loops it is made of. It is proved to return what the functional model
  returns.
- **Block segmenter and classifier** (`src/markdown_blocks.py`).
  `markdown_to_blocks` normalizes line endings and cuts the document at blank
  lines. Text with only old Mac line endings is cut at every line instead.
  The pieces are stripped and the empty ones dropped. `block_to_block_type`
  decides the block kind rule by rule: heading, code, quote, unordered list,
  ordered list, paragraph.
- **HTML tree** (`src/htmlnode.py`). It covers `props_to_html`,
  `LeafNode.to_html` and `ParentNode.to_html`. Each exception the code raises
  becomes a `Failure`.

The Python string and regex primitives the core relies on are written out as
scanners in `strings.dfy`. These are `str.split`, `str.count`, `str.replace`,
`str.strip` and `str.split(sep, 1)`. So are the only regular expressions the
core uses:

- the two `re.findall` patterns, in `markdown_extract.dfy`;
- the `re.split(r'\n\s*\n', …)` separator, in `blank_split.dfy`;
- `re.match(r"^#{1,6} ", …)`, in `markdown_blocks.dfy`.

Each of these is given an independent statement of what it matches. It is
proved sound and complete against that statement.

Files and modules:

| file | module | models |
|---|---|---|
| `wrappers.dfy` | `Wrappers` | `Option` and `Result` |
| `strings.dfy` | `Strings` | the Python string operations; `str.isspace`; `str(n)` for `n >= 0` |
| `textnodes.dfy` | `TextNodes` | the `TextNode` record and its markdown form |
| `delimiter_split.dfy` | `DelimiterSplit` | `split_nodes_delimiter` |
| `markdown_conversion.dfy` | `MarkdownConversion` | the copy in `markdown_conversion.py`, as loops |
| `markdown_extract.dfy` | `MarkdownExtract` | the two `re.findall` patterns |
| `image_link_split.dfy` | `ImageLinkSplit` | `split_nodes_image`, `split_nodes_link` |
| `inline_markdown.dfy` | `InlineMarkdown` | `text_to_textnodes` |
| `blank_split.dfy` | `BlankSplit` | `re.split(r'\n\s*\n', …)` |
| `markdown_blocks.dfy` | `MarkdownBlocks` | `BlockType`, `markdown_to_blocks`, `block_to_block_type` |
| `htmlnode.dfy` | `HtmlNodes` | `HTMLNode`, `LeafNode`, `ParentNode` |

Behaviour worth noting:

- **Empty text.** `text_to_textnodes("")` returns one empty TEXT node.
  `InlineMarkdown.TextToTextNodesPlain` covers the empty text.
- **Unmatched delimiter.** The code raises `ValueError`. It has two messages: one for a single occurrence, and one for an odd count of
  three or more. The model keeps both as `NoClosingDelimiter` and
  `MissingClosingDelimiter`.
- **Leaf without a value.** A leaf whose value is `None` raises whether or not
  it has a tag.
- **Link cuts.** `split_nodes_link` cuts the text at the first occurrence of
  the rebuilt `[text](url)` string, not at the position the regex matched.
  Text such as `![a](u) [a](u)` that reaches the link splitter directly is
  cut inside the image markup. So the exact-position property for links is
  stated only for text without `![`. The markdown round trip holds on every
  input. `text_to_textnodes` runs the image pass first, so such text only
  reaches the link splitter when the splitter is called on its own.
- **Mixed line endings.** The old Mac test looks at the raw text, before any
  replacement. So `"a\r\nb\rc"` is not old Mac text: it becomes `"a\nb\nc"`
  and is one block. `"a\nb\rc"` is old Mac text and gives three blocks.
  `MarkdownBlocks.CrlfLikeNewline` states that CRLF behaves like LF only when
  no lone CR remains.

## Model

| member | source | states |
|---|---|---|
| DelimiterSplit.SplitNodeDelimiter | src/inline_markdown.py:7-32 | A non-TEXT node is kept. A TEXT node without the delimiter is kept. The split fails exactly when the node's delimiter count is odd. The error is the one that count selects: no closing delimiter for one occurrence, missing closing delimiter otherwise. |
| DelimiterSplit.SplitNodeDelimiterPieces | src/inline_markdown.py:20-32 | Every output text is one of the pieces between delimiters. No output text contains the delimiter. The output texts joined are the input text with its delimiters removed. |
| DelimiterSplit.PartsToNodesFacts | src/inline_markdown.py:25-32 | Every node comes from one piece and has no url. Every node not of the target type is a non-empty TEXT node. The node texts joined are the pieces joined. |
| DelimiterSplit.PartsToNodesPiecewise | src/inline_markdown.py:25-32 | The pair-by-pair loop equals the piece-by-piece rule. Odd pieces become styled nodes, even when empty. Even pieces become TEXT nodes only when non-empty. |
| DelimiterSplit.SplitNodesDelimiterSucceeds | src/inline_markdown.py:4-34 | The list splitter succeeds exactly when every node is balanced. A list with no TEXT node comes back unchanged. |
| DelimiterSplit.SplitNodesDelimiterAppend | src/inline_markdown.py:7-34 | Splitting `a + b` is splitting `a`, then `b`, and concatenating the results. The first error wins. |
| DelimiterSplit.FirstUnbalancedDecides | src/inline_markdown.py:7-23 | The error reported is the one for the first unbalanced node. |
| DelimiterSplit.SplitNodesDelimiterText | src/inline_markdown.py:20-32 | After a successful split, no TEXT node holds the delimiter. A string absent from every input TEXT node stays absent. Non-empty TEXT nodes stay non-empty. |
| DelimiterSplit.SplitNodesDelimiterMarkdown | src/inline_markdown.py:4-34 | Writing a successful split back as markdown gives the input's markdown. This is the inverse of the split. |
| MarkdownConversion.AppendParts | src/markdown_conversion.py:30-41 | The loop over the pieces appends exactly the nodes the functional rule builds. |
| MarkdownConversion.SplitTextNode | src/markdown_conversion.py:13-41 | The body for one TEXT node gives the same nodes or the same error as the functional model. |
| MarkdownConversion.SplitNodesDelimiter | src/markdown_conversion.py:3-43 | The copy returns exactly what `split_nodes_delimiter` in `inline_markdown.py` returns: the same nodes, or the same first error. |
| MarkdownExtract.MatchAtSound | src/inline_markdown.py:36-40 | A match found at `p` renders there: its markup occurs at `p`, the alt text has no square bracket, the url has no parenthesis, and a link has no `!` just before it. The match ends right after its markup. |
| MarkdownExtract.MatchAtComplete | src/inline_markdown.py:36-40 | Wherever some admissible groups render, the pattern matches there with those groups. |
| MarkdownExtract.ScanSound | src/inline_markdown.py:36-40 | Every match `findall` returns is what the pattern finds at its start, inside the text. |
| MarkdownExtract.ScanComplete | src/inline_markdown.py:36-40 | Every position where the pattern matches lies inside one of the returned matches. Nothing is skipped. |
| MarkdownExtract.Extract | src/inline_markdown.py:36-40 | Every pair found renders in the text. The result is empty exactly when the pattern matches nowhere. |
| MarkdownExtract.ExtractMarkdownImages | src/inline_markdown.py:36-37 | Every pair has a bracket-free alt text and a parenthesis-free url. Its `![alt](url)` occurs in the text. |
| MarkdownExtract.ExtractMarkdownLinks | src/inline_markdown.py:39-40 | Every pair has a bracket-free text and a parenthesis-free url. Its `[text](url)` occurs in the text at a position not right after `!`. |
| MarkdownExtract.BracketsAtComplete | src/inline_markdown.py:36-40 | The bracket part of both patterns is found wherever `[alt](url)` occurs with admissible groups. It ends right after the markup. |
| ImageLinkSplit.SplitNodesKeepsNonText | src/inline_markdown.py:42-49 | A list without TEXT nodes passes through either splitter unchanged. |
| ImageLinkSplit.NoBracketKept | src/inline_markdown.py:52-57 | A TEXT node with no `[` is kept as it is. |
| ImageLinkSplit.UnclosedKept | src/inline_markdown.py:52-57 | A TEXT node with no `)` is kept as it is, so unclosed markup such as `[malformed link](https://example.com` stays plain text. |
| ImageLinkSplit.SplitNodesAppend | src/inline_markdown.py:42-86 | The splitters work node by node, so each node's output keeps its place. |
| ImageLinkSplit.SplitNodesRestores | src/inline_markdown.py:42-123 | Writing either splitter's output back as markdown gives the input's markdown, on every input. |
| ImageLinkSplit.LoopRestores | src/inline_markdown.py:60-84 | The loop over the found pairs loses and adds nothing. Its output written back is the remaining text. |
| ImageLinkSplit.ImageSplitExact | src/inline_markdown.py:42-86 | On a TEXT node with images, the output is cut exactly at the match positions. Each gap's text comes first when non-empty, then the image node. The text after the last image comes last when non-empty. |
| ImageLinkSplit.LinkSplitExact | src/inline_markdown.py:89-123 | The same for links, on text with no `![`. |
| ImageLinkSplit.SplitNodesText | src/inline_markdown.py:42-123 | Both splitters keep TEXT nodes non-empty. They never make a TEXT node containing a string that no input TEXT node contained. |
| InlineMarkdown.TextToTextNodesRestores | src/inline_markdown.py:125-144 | On success, the tokens written back as markdown give the text back. |
| InlineMarkdown.TextToTextNodesBoldError | src/inline_markdown.py:125-130 | An odd number of `**` fails at the first pass, with the bold splitter's error. |
| InlineMarkdown.TextToTextNodesPlain | src/inline_markdown.py:125-144 | Text with no `**`, `_`, backtick or `[` is one TEXT node, even when empty. |
| InlineMarkdown.TextToTextNodesBoldOnly | src/inline_markdown.py:125-144 | With no `_` and no backtick, tokenizing succeeds exactly when the `**` pair up. |
| InlineMarkdown.TextToTextNodesText | src/inline_markdown.py:125-144 | On success, no TEXT token holds `**`, `_` or a backtick. For non-empty text, no TEXT token is empty. |
| Strings.JoinSplit | src/inline_markdown.py:20 | `str.split` loses nothing: joining the pieces with the separator gives the string back. |
| Strings.SplitPartsAvoid | src/inline_markdown.py:20 | No piece of `str.split` contains the separator. |
| Strings.Find | src/inline_markdown.py:67 | The occurrence `str.split(d, 1)` cuts at is the first one. There is none exactly when `d` does not occur. |
| Strings.SplitOnce | src/inline_markdown.py:67 | `str.split(d, 1)` gives one section, the whole text, when `d` is absent. Otherwise it gives two sections around the first occurrence. |
| Strings.Strip | src/markdown_blocks.py:25 | `str.strip` returns a slice of the text with only whitespace cut off both ends. Neither end of the result is whitespace. The result is empty exactly when the text is all whitespace. |
| Strings.StripIdempotent | src/markdown_blocks.py:25 | Stripping twice is stripping once. |
| Strings.DecimalRoundTrip | src/markdown_blocks.py:70 | The digits `f"{i+1}"` writes read back as the number. |
| BlankSplit.SeparatorAtSound | src/markdown_blocks.py:21 | What `\n\s*\n` matches is newline, whitespace, newline. The match is greedy: no later newline is reachable through whitespace alone. |
| BlankSplit.SeparatorAtComplete | src/markdown_blocks.py:21 | Wherever a blank gap starts, the pattern matches and reaches at least as far as the gap. |
| BlankSplit.PiecesRejoin | src/markdown_blocks.py:21 | `re.split` loses nothing. The pieces with the separators put back between them give the text back, and there is one more piece than separators. |
| BlankSplit.SeparatorsBlank | src/markdown_blocks.py:21 | Every separator is a blank gap. |
| BlankSplit.PiecesHaveNoBlankLine | src/markdown_blocks.py:21 | No piece contains a blank gap. |
| BlankSplit.NoBlankLineOnePiece | src/markdown_blocks.py:21 | Text without a blank gap is one piece. |
| MarkdownBlocks.NormalizeNoReturn | src/markdown_blocks.py:15 | No carriage return survives normalizing. |
| MarkdownBlocks.NormalizeUnchanged | src/markdown_blocks.py:15 | Text without a carriage return is left as it is. |
| MarkdownBlocks.CleanMembers | src/markdown_blocks.py:23-29 | A string is a block exactly when it is the non-empty strip of some raw piece. |
| MarkdownBlocks.CleanAppend | src/markdown_blocks.py:23-29 | The filter keeps relative order: cleaning a concatenation cleans each part. |
| MarkdownBlocks.MarkdownToBlocksShape | src/markdown_blocks.py:12-29 | Every block is non-empty, already stripped, and free of carriage returns. |
| MarkdownBlocks.BlankMarkdown | src/markdown_blocks.py:12-29 | Empty or all-whitespace text has no blocks. |
| MarkdownBlocks.OldMacLines | src/markdown_blocks.py:13-29 | For old Mac text, a string is a block exactly when it is a stripped non-blank line. No block contains a newline. |
| MarkdownBlocks.CrlfLikeNewline | src/markdown_blocks.py:13-21 | Text whose only CRs are in CRLF pairs gives the same blocks as the text with each CRLF replaced by LF. |
| MarkdownBlocks.DefaultNoBlankLine | src/markdown_blocks.py:19-29 | Otherwise no block contains a blank line. |
| MarkdownBlocks.DefaultOneBlock | src/markdown_blocks.py:19-29 | Otherwise, text with no blank line and some non-whitespace is one block, single newlines included. |
| MarkdownBlocks.LeadingHashes | src/markdown_blocks.py:33-35 | The greedy `#` count of at most six decides the heading regex, even though the regex backtracks. |
| MarkdownBlocks.EveryLineStarts | src/markdown_blocks.py:42-61 | The early-exit loop answers exactly whether every line starts with the prefix. |
| MarkdownBlocks.LinesNumbered | src/markdown_blocks.py:63-76 | The early-exit loop answers exactly whether there are lines and line `i` starts with `f"{i+1}. "`. |
| MarkdownBlocks.BlockToBlockType | src/markdown_blocks.py:31-78 | The classifier agrees with the rule list, first rule wins: heading, code, quote, unordered list, ordered list, paragraph. |
| MarkdownBlocks.ClassifiedStart | src/markdown_blocks.py:41-76 | A quote starts with `>`. An unordered list starts with `- `. An ordered list starts with `1. `. |
| MarkdownBlocks.ZeroNotOrdered | src/markdown_blocks.py:63-76 | A block starting `0. ` is never an ordered list. |
| MarkdownBlocks.SevenHashesNoHeading | src/markdown_blocks.py:33 | Seven or more leading `#` are never a heading. |
| HtmlNodes.PropsToHtml | src/htmlnode.py:11-17 | The attribute string is empty exactly when there are no attributes. |
| HtmlNodes.PropsToHtmlSpaced | src/htmlnode.py:11-17 | A leading space plus the pairs joined by spaces equals a space before every `key="value"` pair. |
| HtmlNodes.PropsToHtmlAppend | src/htmlnode.py:11-17 | Two attribute lists one after the other render as their two renderings side by side. |
| HtmlNodes.ToHtmlSucceeds | src/htmlnode.py:8-48 | Rendering fails exactly on trees that are not renderable. A tree is renderable when it has no bare `HTMLNode`, every leaf has a value, and every parent has a tag and at least one child, at every depth. |
| HtmlNodes.ChildrenHtmlSucceeds | src/htmlnode.py:44-47 | The children loop succeeds exactly when every child is renderable. |
| HtmlNodes.ChildrenHtmlAppend | src/htmlnode.py:44-48 | The children's HTML is the first children's HTML followed by the rest's. The first error wins. |
| HtmlNodes.ChildrenHtmlFirstFailure | src/htmlnode.py:44-47 | A failing loop fails with the error of the first failing child, and every earlier child rendered. |
| HtmlNodes.ParentTagCheckedFirst | src/htmlnode.py:39-43 | A parent without a tag fails for that, even with no children. |

## Left out

- `textnode.py` is not part of this model. `TextNode` is modelled as a record of text, type and optional url, compared structurally.
- Exception messages: each `ValueError` is a constructor. The delimiter errors carry the delimiter; the message text is not modelled.
- `HTMLNode.__repr__` and the other `__repr__`/`__eq__` methods are left out. They only format text for debugging.
- Attribute values: `props` is a sequence of string pairs in dict insertion order. The model does not require distinct keys, which a dict has. Values are strings, so `str()` of other Python values is not modelled.
- Children of a `ParentNode` are the three node classes. Arbitrary Python objects with a `to_html` method are not modelled.
- Regular expressions: only the four patterns the core uses are modelled, as scanners. There is no general regex engine.
- Unicode: strings are sequences of code points. `\s` and `str.isspace` use the Python whitespace set, with no normalization or case folding.
- `markdown_to_html_node` and the page generator that call the core are not part of this model.
- ImageLinkSplit.LinkSplitExact: the exact-position shape is proved only for text without `![`, because the code as written cuts elsewhere on such text. See the note on link cuts above.
- MarkdownExtract.ExtractMarkdownImages and MarkdownExtract.ExtractMarkdownLinks: their own contracts state soundness only. Completeness and order are stated on `Extract`, `ScanComplete` and `ImageLinkSplit.ScanChain`.
