/** `markdown_blocks.py`: cutting a document into blocks, and telling which
    kind of block each one is. */
module MarkdownBlocks {
  import opened Wrappers
  import opened Strings
  import opened BlankSplit

  /** The six kinds of block. */
  datatype BlockType = Paragraph | Heading | Code | Quote | UnorderedList | OrderedList

  predicate NotReturn(c: char) {
    c != '\r'
  }

  predicate NotNewline(c: char) {
    c != '\n'
  }

  // ---------------------------------------------------------------------------
  // markdown_to_blocks
  // ---------------------------------------------------------------------------

  /** Carriage returns with no CRLF pair: the old Mac line ending. */
  predicate IsOldMac(markdown: string) {
    Contains(markdown, "\r") && !Contains(markdown, "\r\n")
  }

  /** CRLF, then any lone CR, replaced by LF. */
  function Normalize(markdown: string): string {
    Replace(Replace(markdown, "\r\n", "\n"), "\r", "\n")
  }

  /** The cut before cleaning: lines for old Mac text, otherwise the pieces
      between blank lines. */
  function RawBlocks(markdown: string): seq<string> {
    var normalized := Normalize(markdown);
    if IsOldMac(markdown) then Split(normalized, "\n") else SplitBlankLines(normalized)
  }

  /** What the filter keeps of one piece: the piece stripped, unless that
      leaves nothing. */
  function Kept(piece: string): seq<string> {
    var cleaned := Strip(piece);
    if cleaned != "" then [cleaned] else []
  }

  /** Each piece stripped, the empty ones dropped, in order. */
  function Clean(raw: seq<string>): seq<string>
    decreases |raw|
  {
    if |raw| == 0 then [] else Kept(raw[0]) + Clean(raw[1..])
  }

  /** `markdown_to_blocks`. */
  function MarkdownToBlocks(markdown: string): seq<string> {
    Clean(RawBlocks(markdown))
  }

  /** A single character is absent exactly when no position holds it. */
  lemma CharAbsent(s: string, c: char)
    ensures !Contains(s, [c]) <==> forall i :: 0 <= i < |s| ==> s[i] != c
  {
    if exists i :: 0 <= i < |s| && s[i] == c {
      var i :| 0 <= i < |s| && s[i] == c;
      assert s[i..i + 1] == [c];
      assert OccursAt(s, [c], i);
    }
    if Contains(s, [c]) {
      var i :| 0 <= i <= |s| && OccursAt(s, [c], i);
      assert s[i] == s[i..i + 1][0];
    }
  }

  /** Replacing every `target` by `replacement` keeps a property of the
      characters that `replacement` has. */
  lemma ReplaceChars(s: string, target: string, replacement: string, P: char -> bool)
    requires |target| > 0 && AllChars(s, P) && AllChars(replacement, P)
    ensures AllChars(Replace(s, target, replacement), P)
  {
    SplitPartsChars(s, target, P);
    JoinChars(Split(s, target), replacement, P);
  }

  /** No CR survives normalizing. */
  lemma NormalizeNoReturn(markdown: string)
    ensures AllChars(Normalize(markdown), NotReturn)
  {
    var t := Replace(markdown, "\r\n", "\n");
    var parts := Split(t, "\r");
    SplitPartsAvoid(t, "\r");
    forall k | 0 <= k < |parts|
      ensures AllChars(parts[k], NotReturn)
    {
      CharAbsent(parts[k], '\r');
    }
    JoinChars(parts, "\n", NotReturn);
  }

  /** Text without CR is left as it is. */
  lemma NormalizeUnchanged(markdown: string)
    requires AllChars(markdown, NotReturn)
    ensures Normalize(markdown) == markdown
  {
    CharAbsent(markdown, '\r');
    forall i | 0 <= i <= |markdown|
      ensures !OccursAt(markdown, "\r\n", i)
    {
      if i + 2 <= |markdown| {
        assert markdown[i..i + 2][0] == markdown[i];
      }
    }
    ReplaceAbsent(markdown, "\r\n", "\n");
    ReplaceAbsent(markdown, "\r", "\n");
  }

  /** Normalizing whitespace gives whitespace. */
  lemma NormalizeSpace(markdown: string)
    requires AllSpace(markdown)
    ensures AllSpace(Normalize(markdown))
  {
    assert AllSpace("\n");
    ReplaceChars(markdown, "\r\n", "\n", IsSpace);
    ReplaceChars(Replace(markdown, "\r\n", "\n"), "\r", "\n", IsSpace);
  }

  /** The filter keeps order: cleaning a concatenation cleans each part. */
  lemma {:induction false} CleanAppend(a: seq<string>, b: seq<string>)
    ensures Clean(a + b) == Clean(a) + Clean(b)
    decreases |a|
  {
    if |a| == 0 {
      assert a + b == b;
    } else {
      var t := a[1..];
      assert a == [a[0]] + t;
      assert a + b == [a[0]] + (t + b);
      CleanCons(a[0], t);
      CleanCons(a[0], t + b);
      CleanAppend(t, b);
      AppendAssociative(Kept(a[0]), Clean(t), Clean(b));
    }
  }

  /** A piece in front: what is kept of it, then the rest cleaned. */
  lemma CleanCons(piece: string, rest: seq<string>)
    ensures Clean([piece] + rest) == Kept(piece) + Clean(rest)
  {
    assert ([piece] + rest)[1..] == rest;
  }

  /** What the filter keeps: exactly the non-empty stripped pieces. */
  lemma {:induction false} CleanMembers(raw: seq<string>)
    ensures forall b :: b in Clean(raw) <==> exists k :: 0 <= k < |raw| && b == Strip(raw[k]) && b != ""
    decreases |raw|
  {
    if |raw| > 0 {
      CleanMembers(raw[1..]);
      assert forall k :: 1 <= k < |raw| ==> raw[k] == raw[1..][k - 1];
      assert forall k :: 0 <= k < |raw| - 1 ==> raw[1..][k] == raw[k + 1];
    }
  }

  /** Every block is non-empty and already stripped. */
  lemma {:induction false} CleanStripped(raw: seq<string>)
    ensures forall k :: 0 <= k < |Clean(raw)| ==> Clean(raw)[k] != "" && Strip(Clean(raw)[k]) == Clean(raw)[k]
    decreases |raw|
  {
    if |raw| > 0 {
      CleanStripped(raw[1..]);
      StripIdempotent(raw[0]);
    }
  }

  /** The blocks keep any property of the characters of the pieces. */
  lemma {:induction false} CleanChars(raw: seq<string>, P: char -> bool)
    requires forall k :: 0 <= k < |raw| ==> AllChars(raw[k], P)
    ensures forall k :: 0 <= k < |Clean(raw)| ==> AllChars(Clean(raw)[k], P)
    decreases |raw|
  {
    if |raw| > 0 {
      CleanChars(raw[1..], P);
      StripChars(raw[0], P);
    }
  }

  /** Pieces that are all whitespace leave no block. */
  lemma {:induction false} CleanBlank(raw: seq<string>)
    requires forall k :: 0 <= k < |raw| ==> AllSpace(raw[k])
    ensures Clean(raw) == []
    decreases |raw|
  {
    if |raw| > 0 {
      CleanBlank(raw[1..]);
    }
  }

  /** The pieces of the cut keep any property of the characters of the
      normalized text. */
  lemma RawBlocksChars(markdown: string, P: char -> bool)
    requires AllChars(Normalize(markdown), P)
    ensures forall k :: 0 <= k < |RawBlocks(markdown)| ==> AllChars(RawBlocks(markdown)[k], P)
  {
    if IsOldMac(markdown) {
      SplitPartsChars(Normalize(markdown), "\n", P);
    } else {
      PiecesChars(Normalize(markdown), 0, 0, P);
    }
  }

  /** Every block is non-empty, stripped, and free of CR. */
  lemma MarkdownToBlocksShape(markdown: string)
    ensures forall k :: 0 <= k < |MarkdownToBlocks(markdown)| ==>
      var block := MarkdownToBlocks(markdown)[k];
      block != "" && Strip(block) == block && AllChars(block, NotReturn)
  {
    CleanStripped(RawBlocks(markdown));
    NormalizeNoReturn(markdown);
    RawBlocksChars(markdown, NotReturn);
    CleanChars(RawBlocks(markdown), NotReturn);
  }

  /** Empty and whitespace-only text has no blocks. */
  lemma BlankMarkdown(markdown: string)
    requires AllSpace(markdown)
    ensures MarkdownToBlocks(markdown) == []
  {
    NormalizeSpace(markdown);
    RawBlocksChars(markdown, IsSpace);
    CleanBlank(RawBlocks(markdown));
  }

  /** Old Mac text is cut at every line break. */
  lemma OldMacBlocks(markdown: string)
    requires IsOldMac(markdown)
    ensures MarkdownToBlocks(markdown) == Clean(Split(Normalize(markdown), "\n"))
  {
  }

  /** A CRLF line ending behaves like LF: once the CRLF pairs are replaced,
      text with no other CR cuts into the same blocks. */
  lemma CrlfLikeNewline(markdown: string)
    requires !Contains(Replace(markdown, "\r\n", "\n"), "\r")
    ensures MarkdownToBlocks(markdown) == MarkdownToBlocks(Replace(markdown, "\r\n", "\n"))
  {
    var t := Replace(markdown, "\r\n", "\n");
    if !Contains(markdown, "\r\n") {
      ReplaceAbsent(markdown, "\r\n", "\n");
    }
    assert !IsOldMac(markdown);
    ReplaceAbsent(t, "\r", "\n");
    assert Normalize(markdown) == t;
    CharAbsent(t, '\r');
    NormalizeUnchanged(t);
    assert !IsOldMac(t);
  }

  /** Old Mac text: the blocks are the non-blank lines, stripped, and no
      block spans two lines. */
  lemma OldMacLines(markdown: string)
    requires IsOldMac(markdown)
    ensures var lines := Split(Normalize(markdown), "\n");
      forall b :: b in MarkdownToBlocks(markdown) <==> exists k :: 0 <= k < |lines| && b == Strip(lines[k]) && b != ""
    ensures forall k :: 0 <= k < |MarkdownToBlocks(markdown)| ==> AllChars(MarkdownToBlocks(markdown)[k], NotNewline)
  {
    var lines := Split(Normalize(markdown), "\n");
    OldMacBlocks(markdown);
    CleanMembers(lines);
    LinesHaveNoNewline(Normalize(markdown));
    CleanChars(lines, NotNewline);
  }

  /** The pieces of `str.split('\n')` hold no newline. */
  lemma LinesHaveNoNewline(s: string)
    ensures forall k :: 0 <= k < |Split(s, "\n")| ==> AllChars(Split(s, "\n")[k], NotNewline)
  {
    var lines := Split(s, "\n");
    SplitPartsAvoid(s, "\n");
    forall k | 0 <= k < |lines|
      ensures AllChars(lines[k], NotNewline)
    {
      CharAbsent(lines[k], '\n');
    }
  }

  /** Otherwise no block holds a blank line: every blank line separates. */
  lemma DefaultNoBlankLine(markdown: string)
    requires !IsOldMac(markdown)
    ensures forall k :: 0 <= k < |MarkdownToBlocks(markdown)| ==> !HasBlankLine(MarkdownToBlocks(markdown)[k])
  {
    var raw := RawBlocks(markdown);
    PiecesHaveNoBlankLine(Normalize(markdown), 0, 0);
    StrippedNoBlankLine(raw);
  }

  /** Stripping pieces with no blank line leaves blocks with none. */
  lemma {:induction false} StrippedNoBlankLine(raw: seq<string>)
    requires forall k :: 0 <= k < |raw| ==> !HasBlankLine(raw[k])
    ensures forall k :: 0 <= k < |Clean(raw)| ==> !HasBlankLine(Clean(raw)[k])
    decreases |raw|
  {
    if |raw| > 0 {
      StrippedNoBlankLine(raw[1..]);
      StripNoBlankLine(raw[0]);
    }
  }

  /** Stripping a piece with no blank line leaves none. */
  lemma StripNoBlankLine(s: string)
    requires !HasBlankLine(s)
    ensures !HasBlankLine(Strip(s))
  {
    var i, j :| 0 <= i <= j <= |s| && Strip(s) == s[i..j] && AllSpace(s[..i]) && AllSpace(s[j..]);
    SliceNoBlankLine(s, i, j);
  }

  /** Otherwise, text with no blank line and something besides whitespace is
      one block: single newlines stay inside it. */
  lemma DefaultOneBlock(markdown: string)
    requires !IsOldMac(markdown)
    requires !HasBlankLine(Normalize(markdown)) && !AllSpace(Normalize(markdown))
    ensures MarkdownToBlocks(markdown) == [Strip(Normalize(markdown))]
  {
    var s := Normalize(markdown);
    NoBlankLineOnePiece(s, 0, 0);
    assert s[0..] == s;
    assert Clean([s]) == [Strip(s)] + Clean([]);
  }

  // ---------------------------------------------------------------------------
  // block_to_block_type
  // ---------------------------------------------------------------------------

  /** The first `n` characters are `#`. */
  predicate Hashes(block: string, n: nat) {
    n <= |block| && forall k :: 0 <= k < n ==> block[k] == '#'
  }

  /** `re.match(r"^#{1,6} ", block)`: one to six `#`, then a space. */
  predicate HeadingPrefix(block: string) {
    exists n :: 1 <= n <= 6 && n < |block| && Hashes(block, n) && block[n] == ' '
  }

  /** Python's `s.endswith(suffix)`. */
  predicate EndsWith(s: string, suffix: string) {
    |suffix| <= |s| && s[|s| - |suffix|..] == suffix
  }

  /** Every line starts with `prefix`. */
  predicate AllStart(lines: seq<string>, prefix: string) {
    forall k :: 0 <= k < |lines| ==> prefix <= lines[k]
  }

  /** Line `k`, counting from zero, starts with `"{k+1}. "`. */
  predicate Numbered(lines: seq<string>) {
    forall k :: 0 <= k < |lines| ==> Decimal(k + 1) + ". " <= lines[k]
  }

  /** The classification, rule by rule, first match wins. */
  function Classify(block: string): BlockType {
    if HeadingPrefix(block) then Heading
    else if "```" <= block && EndsWith(block, "```") then Code
    else
      var lines := Split(block, "\n");
      if AllStart(lines, ">") && |lines| > 0 then Quote
      else if AllStart(lines, "- ") && |lines| > 0 then UnorderedList
      else if |lines| > 0 && Numbered(lines) then OrderedList
      else Paragraph
  }

  /** The greedy `#{1,6}`: the leading `#`, at most six of them. The
      regex backtracks, but a shorter run of `#` is followed by `#`, never by
      a space, so the greedy count decides the match. */
  method LeadingHashes(block: string) returns (n: nat)
    ensures n <= 6 && Hashes(block, n)
    ensures HeadingPrefix(block) <==> 1 <= n && n < |block| && block[n] == ' '
  {
    n := 0;
    while n < |block| && n < 6 && block[n] == '#'
      invariant n <= 6 && Hashes(block, n)
    {
      n := n + 1;
    }
  }

  /** One of the `for line in lines` loops: does every line start with
      `prefix`? */
  method EveryLineStarts(lines: seq<string>, prefix: string) returns (b: bool)
    ensures b <==> AllStart(lines, prefix)
  {
    b := true;
    var k := 0;
    while k < |lines|
      invariant 0 <= k <= |lines|
      invariant forall j :: 0 <= j < k ==> prefix <= lines[j]
    {
      if !(prefix <= lines[k]) {
        b := false;
        break;
      }
      k := k + 1;
    }
  }

  /** The numbered-lines loop, with `f"{i+1}. "` as the expected prefix. */
  method LinesNumbered(lines: seq<string>) returns (b: bool)
    ensures b <==> |lines| > 0 && Numbered(lines)
  {
    b := true;
    if |lines| == 0 {
      b := false;
    } else {
      var i := 0;
      while i < |lines|
        invariant 0 <= i <= |lines|
        invariant forall j :: 0 <= j < i ==> Decimal(j + 1) + ". " <= lines[j]
      {
        var expected := Decimal(i + 1) + ". ";
        if !(expected <= lines[i]) {
          b := false;
          break;
        }
        i := i + 1;
      }
    }
  }

  /** `block_to_block_type`, rule by rule as the converter runs them. */
  method BlockToBlockType(block: string) returns (t: BlockType)
    ensures t == Classify(block)
  {
    var n := LeadingHashes(block);
    if 1 <= n && n < |block| && block[n] == ' ' {
      return Heading;
    }
    if "```" <= block && EndsWith(block, "```") {
      return Code;
    }
    var lines := Split(block, "\n");
    var isQuote := EveryLineStarts(lines, ">");
    if isQuote && |lines| > 0 {
      return Quote;
    }
    var isUnorderedList := EveryLineStarts(lines, "- ");
    if isUnorderedList && |lines| > 0 {
      return UnorderedList;
    }
    var isOrderedList := LinesNumbered(lines);
    if isOrderedList {
      return OrderedList;
    }
    return Paragraph;
  }

  /** Seven or more `#` never make a heading. */
  lemma SevenHashesNoHeading(block: string)
    requires Hashes(block, 7)
    ensures !HeadingPrefix(block)
  {
  }

  /** The first line of a block is a prefix of it. */
  lemma FirstLinePrefix(block: string)
    ensures Split(block, "\n")[0] <= block
  {
    SplitHeadPrefix(block, "\n");
  }

  /** Quotes start with `>`, unordered lists with `- `, and ordered lists
      with `1. `: numbering starts at one. */
  lemma ClassifiedStart(block: string)
    ensures Classify(block) == Quote ==> ">" <= block
    ensures Classify(block) == UnorderedList ==> "- " <= block
    ensures Classify(block) == OrderedList ==> "1. " <= block
  {
    var lines := Split(block, "\n");
    FirstLinePrefix(block);
    if Classify(block) == Quote {
      PrefixTransitive(">", lines[0], block);
    } else if Classify(block) == UnorderedList {
      PrefixTransitive("- ", lines[0], block);
    } else if Classify(block) == OrderedList {
      assert Decimal(0 + 1) + ". " == "1. ";
      PrefixTransitive("1. ", lines[0], block);
    }
  }

  /** A block whose first line starts with `0. ` is not an ordered list. */
  lemma ZeroNotOrdered(block: string)
    requires "0. " <= block
    ensures Classify(block) != OrderedList
  {
    ClassifiedStart(block);
    assert block[0] == '0';
    assert !("1. " <= block);
  }
}
