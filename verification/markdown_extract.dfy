/** `extract_markdown_images` and `extract_markdown_links`: Python's
    `re.findall` with the two bracket patterns of `inline_markdown.py`, written
    out as a scanner. The image pattern is `!`, `[`, a run with no square
    bracket, `]`, `(`, a run with no parenthesis, `)`; the link pattern is the
    same without the `!` and with a negative lookbehind that rejects a `[`
    preceded by `!`. */
module MarkdownExtract {
  import opened Wrappers
  import opened Strings
  import opened TextNodes

  /** Which of the two patterns is being scanned for. */
  datatype Pattern = ImagePattern | LinkPattern

  /** One match: the two captured groups and the span `[start, end)` of the
      scanned text that the whole pattern covers. */
  datatype Match = Match(alt: string, url: string, start: nat, end: nat)

  predicate IsBracket(c: char) {
    c == '[' || c == ']'
  }

  predicate IsParen(c: char) {
    c == '(' || c == ')'
  }

  /** What the pattern's first group may hold: no square bracket. */
  predicate AltText(alt: string) {
    forall k :: 0 <= k < |alt| ==> !IsBracket(alt[k])
  }

  /** What the pattern's second group may hold: no parenthesis. */
  predicate UrlText(url: string) {
    forall k :: 0 <= k < |url| ==> !IsParen(url[k])
  }

  /** The markdown a match of the pattern covers. */
  function Markup(pattern: Pattern, alt: string, url: string): string {
    match pattern
    case ImagePattern => ImageMarkdown(alt, url)
    case LinkPattern => LinkMarkdown(alt, url)
  }

  /** The regular language of the pattern, stated directly: the pattern
      matches at `p` with groups `alt` and `url` exactly when the markup for
      them occurs at `p`, the groups avoid the excluded characters, and, for
      the link pattern, the lookbehind holds: no `!` just before `p`. */
  predicate Renders(pattern: Pattern, s: string, p: nat, alt: string, url: string)
    requires p <= |s|
  {
    AltText(alt) && UrlText(url) &&
    match pattern
    case ImagePattern => OccursAt(s, ImageMarkdown(alt, url), p)
    case LinkPattern => OccursAt(s, LinkMarkdown(alt, url), p) && (p == 0 || s[p - 1] != '!')
  }

  /** The characters of `[alt](url)`, position by position. */
  lemma LinkMarkdownShape(alt: string, url: string)
    ensures |LinkMarkdown(alt, url)| == |alt| + |url| + 4
    ensures var md := LinkMarkdown(alt, url);
      md[0] == '[' && md[|alt| + 1] == ']' && md[|alt| + 2] == '(' && md[|md| - 1] == ')'
    ensures forall k :: 0 <= k < |alt| ==> LinkMarkdown(alt, url)[1 + k] == alt[k]
    ensures forall k :: 0 <= k < |url| ==> LinkMarkdown(alt, url)[|alt| + 3 + k] == url[k]
  {
  }

  /** A span of `s` with the four punctuation characters in place is the
      markup for the runs between them. */
  lemma SpanIsLinkMarkdown(s: string, p: nat, a: nat, u: nat)
    requires p < a && a + 1 < u < |s|
    requires s[p] == '[' && s[a] == ']' && s[a + 1] == '(' && s[u] == ')'
    ensures s[p..u + 1] == LinkMarkdown(s[p + 1..a], s[a + 2..u])
  {
    var alt := s[p + 1..a];
    var url := s[a + 2..u];
    assert s[p..u + 1] == "[" + s[p + 1..u + 1] by {
      SliceConcat(s, p, p + 1, u + 1);
      assert s[p..p + 1] == "[";
    }
    assert s[p + 1..u + 1] == alt + s[a..u + 1] by {
      SliceConcat(s, p + 1, a, u + 1);
    }
    assert s[a..u + 1] == "](" + s[a + 2..u + 1] by {
      SliceConcat(s, a, a + 2, u + 1);
      assert s[a..a + 2] == "](";
    }
    assert s[a + 2..u + 1] == url + ")" by {
      SliceConcat(s, a + 2, u, u + 1);
      assert s[u..u + 1] == ")";
    }
    LinkMarkdownAssoc(alt, url);
  }

  /** The bracket part `[alt](url)` starting at `p`. */
  function BracketsAt(s: string, p: nat): (r: Option<Match>)
    requires p <= |s|
    ensures r.Some? ==> r.value.start == p < r.value.end <= |s|
  {
    if p < |s| && s[p] == '[' then
      var a := RunEnd(s, p + 1, IsBracket);
      if a + 1 < |s| && s[a] == ']' && s[a + 1] == '(' then
        var u := RunEnd(s, a + 2, IsParen);
        if u < |s| && s[u] == ')' then Some(Match(s[p + 1..a], s[a + 2..u], p, u + 1))
        else None
      else None
    else None
  }

  /** What the bracket part finds is bracket markup with admissible groups. */
  lemma BracketsAtSound(s: string, p: nat)
    requires p <= |s|
    ensures var r := BracketsAt(s, p);
      r.Some? ==>
        (r.value.end == p + |LinkMarkdown(r.value.alt, r.value.url)| && AltText(r.value.alt) && UrlText(r.value.url)
         && OccursAt(s, LinkMarkdown(r.value.alt, r.value.url), p))
  {
    if BracketsAt(s, p).Some? {
      var a := RunEnd(s, p + 1, IsBracket);
      var u := RunEnd(s, a + 2, IsParen);
      assert BracketsAt(s, p) == Some(Match(s[p + 1..a], s[a + 2..u], p, u + 1));
      assert AltText(s[p + 1..a]) by {
        RunSlice(s, p + 1, IsBracket);
      }
      assert UrlText(s[a + 2..u]) by {
        RunSlice(s, a + 2, IsParen);
      }
      SpanIsLinkMarkdown(s, p, a, u);
      LinkMarkdownShape(s[p + 1..a], s[a + 2..u]);
    }
  }

  /** An occurrence of `!` followed by `md` is a `!` followed by an
      occurrence of `md`. */
  lemma BangOccurs(s: string, md: string, p: nat)
    requires p <= |s|
    ensures OccursAt(s, "!" + md, p) <==> p < |s| && s[p] == '!' && OccursAt(s, md, p + 1)
  {
    if p + 1 + |md| <= |s| {
      assert s[p..p + 1 + |md|] == [s[p]] + s[p + 1..p + 1 + |md|];
    }
  }

  /** The pattern tried at position `p` of `s`. */
  function MatchAt(pattern: Pattern, s: string, p: nat): (r: Option<Match>)
    requires p <= |s|
    ensures r.Some? ==> r.value.start == p < r.value.end <= |s|
  {
    match pattern
    case ImagePattern =>
      if p < |s| && s[p] == '!' then
        match BracketsAt(s, p + 1)
        case Some(m) => Some(m.(start := p))
        case None => None
      else None
    case LinkPattern =>
      if p == 0 || s[p - 1] != '!' then BracketsAt(s, p) else None
  }

  /** What the pattern finds renders there: with `MatchAtComplete`, the
      pattern matches at `p` exactly when some groups render there. */
  lemma MatchAtSound(pattern: Pattern, s: string, p: nat)
    requires p <= |s|
    ensures var r := MatchAt(pattern, s, p);
      r.Some? ==>
        (Renders(pattern, s, p, r.value.alt, r.value.url) && OccursAt(s, Markup(pattern, r.value.alt, r.value.url), p)
         && r.value.end == p + |Markup(pattern, r.value.alt, r.value.url)|)
  {
    match pattern
    case ImagePattern =>
      if p < |s| && s[p] == '!' {
        BracketsAtSound(s, p + 1);
        match BracketsAt(s, p + 1)
        case Some(m) =>
          BangOccurs(s, LinkMarkdown(m.alt, m.url), p);
        case None =>
      }
    case LinkPattern =>
      BracketsAtSound(s, p);
  }

  /** Where `[alt](url)` occurs, the characters of `s` are those of the
      markup. */
  lemma LinkMarkdownAt(s: string, b: nat, alt: string, url: string)
    requires OccursAt(s, LinkMarkdown(alt, url), b)
    ensures |LinkMarkdown(alt, url)| == |alt| + |url| + 4 && b + |alt| + |url| + 4 <= |s|
    ensures s[b] == '[' && s[b + 1 + |alt|] == ']' && s[b + 2 + |alt|] == '(' && s[b + 3 + |alt| + |url|] == ')'
    ensures forall k :: 0 <= k < |alt| ==> s[b + 1 + k] == alt[k]
    ensures forall k :: 0 <= k < |url| ==> s[b + 3 + |alt| + k] == url[k]
  {
    var md := LinkMarkdown(alt, url);
    LinkMarkdownShape(alt, url);
    assert forall i :: 0 <= i < |md| ==> s[b + i] == md[i] by {
      forall i | 0 <= i < |md|
        ensures s[b + i] == md[i]
      {
        assert s[b + i] == s[b..b + |md|][i];
      }
    }
    assert s[b + 0] == md[0] && s[b + (|alt| + 1)] == md[|alt| + 1];
    assert s[b + (|alt| + 2)] == md[|alt| + 2] && s[b + (|md| - 1)] == md[|md| - 1];
    forall k | 0 <= k < |alt|
      ensures s[b + 1 + k] == alt[k]
    {
      assert s[b + (1 + k)] == md[1 + k];
    }
    forall k | 0 <= k < |url|
      ensures s[b + 3 + |alt| + k] == url[k]
    {
      assert s[b + (|alt| + 3 + k)] == md[|alt| + 3 + k];
    }
  }

  /** `BracketsAt` once both runs are known. */
  lemma BracketsAtRuns(s: string, b: nat, a: nat, u: nat, alt: string, url: string)
    requires b < |s| && s[b] == '[' && RunEnd(s, b + 1, IsBracket) == a
    requires a + 1 < |s| && s[a] == ']' && s[a + 1] == '('
    requires RunEnd(s, a + 2, IsParen) == u && u < |s| && s[u] == ')'
    requires s[b + 1..a] == alt && s[a + 2..u] == url
    ensures BracketsAt(s, b) == Some(Match(alt, url, b, u + 1))
  {
  }

  /** The bracket part is found wherever its markup occurs. */
  lemma BracketsAtComplete(s: string, b: nat, alt: string, url: string)
    requires AltText(alt) && UrlText(url) && OccursAt(s, LinkMarkdown(alt, url), b)
    ensures BracketsAt(s, b) == Some(Match(alt, url, b, b + |LinkMarkdown(alt, url)|))
  {
    LinkMarkdownAt(s, b, alt, url);
    BracketsAtChars(s, b, alt, url);
  }

  /** The bracket part is found where the characters of `[alt](url)` stand. */
  lemma BracketsAtChars(s: string, b: nat, alt: string, url: string)
    requires AltText(alt) && UrlText(url) && b + |alt| + |url| + 4 <= |s|
    requires s[b] == '[' && s[b + 1 + |alt|] == ']' && s[b + 2 + |alt|] == '(' && s[b + 3 + |alt| + |url|] == ')'
    requires forall k :: 0 <= k < |alt| ==> s[b + 1 + k] == alt[k]
    requires forall k :: 0 <= k < |url| ==> s[b + 3 + |alt| + k] == url[k]
    ensures BracketsAt(s, b) == Some(Match(alt, url, b, b + |alt| + |url| + 4))
  {
    var a := b + 1 + |alt|;
    var u := a + 2 + |url|;
    RunOver(s, b + 1, alt, IsBracket);
    assert forall k :: 0 <= k < |url| ==> s[a + 2 + k] == url[k] by {
      forall k | 0 <= k < |url|
        ensures s[a + 2 + k] == url[k]
      {
        assert s[b + 3 + |alt| + k] == url[k];
      }
    }
    RunOver(s, a + 2, url, IsParen);
    assert s[b + 1..a] == alt && s[a + 2..u] == url;
    BracketsAtRuns(s, b, a, u, alt, url);
  }

  /** The image pattern is found at a `!` followed by the link markup. */
  lemma ImageMatchAtComplete(pattern: Pattern, s: string, p: nat, alt: string, url: string)
    requires pattern == ImagePattern && p < |s| && s[p] == '!'
    requires AltText(alt) && UrlText(url) && OccursAt(s, LinkMarkdown(alt, url), p + 1)
    ensures MatchAt(pattern, s, p) == Some(Match(alt, url, p, p + 1 + |LinkMarkdown(alt, url)|))
  {
    BracketsAtComplete(s, p + 1, alt, url);
  }

  /** The link pattern is found wherever the link markup renders. */
  lemma LinkMatchAtComplete(pattern: Pattern, s: string, p: nat, alt: string, url: string)
    requires pattern == LinkPattern && p <= |s| && Renders(pattern, s, p, alt, url)
    ensures MatchAt(pattern, s, p) == Some(Match(alt, url, p, p + |Markup(pattern, alt, url)|))
  {
    BracketsAtComplete(s, p, alt, url);
  }

  /** Every occurrence of the rendered form is found by the pattern, with the
      same groups: with `MatchAtSound`, the pattern matches at `p` exactly when
      some groups render there. */
  lemma MatchAtComplete(pattern: Pattern, s: string, p: nat, alt: string, url: string)
    requires p <= |s| && Renders(pattern, s, p, alt, url)
    ensures MatchAt(pattern, s, p) == Some(Match(alt, url, p, p + |Markup(pattern, alt, url)|))
  {
    if pattern == ImagePattern {
      BangOccurs(s, LinkMarkdown(alt, url), p);
      ImageMatchAtComplete(pattern, s, p, alt, url);
    } else {
      LinkMatchAtComplete(pattern, s, p, alt, url);
    }
  }

  /** Position `q` lies inside one of the matches. */
  predicate Covered(ms: seq<Match>, q: nat) {
    exists k :: 0 <= k < |ms| && ms[k].start <= q < ms[k].end
  }

  /** `re.findall` from position `p`: try the pattern at each position in
      turn; after a match, resume at its end. */
  function Scan(pattern: Pattern, s: string, p: nat): (ms: seq<Match>)
    requires p <= |s|
    decreases |s| - p
  {
    if p == |s| then []
    else
      match MatchAt(pattern, s, p)
      case None => Scan(pattern, s, p + 1)
      case Some(m) => [m] + Scan(pattern, s, m.end)
  }

  /** The matches are genuine: each is what the pattern finds at its start,
      at or after `p`. With `ScanComplete` and their order
      (`ImageLinkSplit.ScanChain`) these determine the list. */
  lemma {:induction false} ScanSound(pattern: Pattern, s: string, p: nat)
    requires p <= |s|
    ensures forall k :: 0 <= k < |Scan(pattern, s, p)| ==>
      p <= Scan(pattern, s, p)[k].start < Scan(pattern, s, p)[k].end <= |s|
      && MatchAt(pattern, s, Scan(pattern, s, p)[k].start) == Some(Scan(pattern, s, p)[k])
    decreases |s| - p
  {
    if p < |s| {
      match MatchAt(pattern, s, p)
      case None =>
        ScanSound(pattern, s, p + 1);
        assert Scan(pattern, s, p) == Scan(pattern, s, p + 1);
      case Some(m) =>
        var rest := Scan(pattern, s, m.end);
        ScanSound(pattern, s, m.end);
        var ms := [m] + rest;
        assert Scan(pattern, s, p) == ms;
        forall k | 1 <= k < |ms|
          ensures ms[k] == rest[k - 1]
        {
        }
    }
  }

  /** Nothing is skipped: every position from `p` on where the pattern
      matches lies inside one of the matches. */
  lemma {:induction false} ScanComplete(pattern: Pattern, s: string, p: nat)
    requires p <= |s|
    ensures forall q {:trigger Covered(Scan(pattern, s, p), q)} ::
      p <= q <= |s| && MatchAt(pattern, s, q).Some? ==> Covered(Scan(pattern, s, p), q)
    decreases |s| - p, 1
  {
    if p < |s| {
      if MatchAt(pattern, s, p).None? {
        var ms := Scan(pattern, s, p + 1);
        assert Scan(pattern, s, p) == ms;
        ScanComplete(pattern, s, p + 1);
        forall q | p <= q <= |s| && MatchAt(pattern, s, q).Some?
          ensures Covered(ms, q)
        {
          assert p + 1 <= q;
        }
      } else {
        ScanCompleteAtMatch(pattern, s, p);
      }
    }
  }

  /** `ScanComplete` where the pattern matches at `p`. */
  lemma {:induction false} ScanCompleteAtMatch(pattern: Pattern, s: string, p: nat)
    requires p < |s| && MatchAt(pattern, s, p).Some?
    ensures forall q {:trigger Covered(Scan(pattern, s, p), q)} ::
      p <= q <= |s| && MatchAt(pattern, s, q).Some? ==> Covered(Scan(pattern, s, p), q)
    decreases |s| - p, 0
  {
    var m := MatchAt(pattern, s, p).value;
    var rest := Scan(pattern, s, m.end);
    assert Scan(pattern, s, p) == [m] + rest;
    ScanComplete(pattern, s, m.end);
    forall q | p <= q <= |s| && MatchAt(pattern, s, q).Some?
      ensures Covered([m] + rest, q)
    {
      CoveredCons(m, rest, q);
    }
  }

  /** A position inside the first match, or covered by the rest, is covered. */
  lemma CoveredCons(m: Match, rest: seq<Match>, q: nat)
    requires m.start <= q < m.end || Covered(rest, q)
    ensures Covered([m] + rest, q)
  {
    var ms := [m] + rest;
    if m.start <= q < m.end {
      assert ms[0].start <= q < ms[0].end;
    } else {
      var k :| 0 <= k < |rest| && rest[k].start <= q < rest[k].end;
      assert ms[k + 1] == rest[k];
    }
  }

  /** The found groups, as the pairs `re.findall` returns. */
  function Groups(ms: seq<Match>): (r: seq<(string, string)>)
    ensures |r| == |ms|
    ensures forall k :: 0 <= k < |ms| ==> r[k] == (ms[k].alt, ms[k].url)
    decreases |ms|
  {
    if |ms| == 0 then [] else [(ms[0].alt, ms[0].url)] + Groups(ms[1..])
  }

  /** The groups render somewhere in the text. */
  predicate Found(pattern: Pattern, text: string, group: (string, string)) {
    exists q :: 0 <= q <= |text| && Renders(pattern, text, q, group.0, group.1)
  }

  /** The pattern's findall over the whole text: every pair found renders in
      the text, and nothing is found exactly when the pattern matches nowhere. */
  function Extract(pattern: Pattern, text: string): (r: seq<(string, string)>)
    ensures forall k :: 0 <= k < |r| ==> Found(pattern, text, r[k])
    ensures r == [] <==> forall q :: 0 <= q <= |text| ==> MatchAt(pattern, text, q).None?
  {
    var ms := Scan(pattern, text, 0);
    var r := Groups(ms);
    ScanSound(pattern, text, 0);
    ScanComplete(pattern, text, 0);
    assert forall k :: 0 <= k < |r| ==> Found(pattern, text, r[k]) by {
      forall k | 0 <= k < |r|
        ensures Found(pattern, text, r[k])
      {
        MatchAtSound(pattern, text, ms[k].start);
        assert Renders(pattern, text, ms[k].start, r[k].0, r[k].1);
      }
    }
    if r == [] then
      assert forall q :: 0 <= q <= |text| ==> MatchAt(pattern, text, q).None? by {
        forall q | 0 <= q <= |text|
          ensures MatchAt(pattern, text, q).None?
        {
          assert !Covered(ms, q);
        }
      }
      r
    else
      assert MatchAt(pattern, text, ms[0].start).Some?;
      r
  }

  /** `extract_markdown_images`: each pair is an alt text without square
      brackets and a url without parentheses whose image markdown occurs in
      the text. */
  function ExtractMarkdownImages(text: string): (r: seq<(string, string)>)
    ensures forall k :: 0 <= k < |r| ==> AltText(r[k].0) && UrlText(r[k].1) && Contains(text, ImageMarkdown(r[k].0, r[k].1))
  {
    var r := Extract(ImagePattern, text);
    assert forall k :: 0 <= k < |r| ==> AltText(r[k].0) && UrlText(r[k].1) && Contains(text, ImageMarkdown(r[k].0, r[k].1)) by {
      forall k | 0 <= k < |r|
        ensures AltText(r[k].0) && UrlText(r[k].1) && Contains(text, ImageMarkdown(r[k].0, r[k].1))
      {
        assert Found(ImagePattern, text, r[k]);
        var q :| 0 <= q <= |text| && Renders(ImagePattern, text, q, r[k].0, r[k].1);
      }
    }
    r
  }

  /** The link markdown occurs in the text somewhere not right after a `!`. */
  predicate LinkOccurs(text: string, alt: string, url: string) {
    exists q :: 0 <= q <= |text| && OccursAt(text, LinkMarkdown(alt, url), q) && (q == 0 || text[q - 1] != '!')
  }

  /** `extract_markdown_links`: each pair is a text without square brackets
      and a url without parentheses whose link markdown occurs in the text
      somewhere not right after a `!`. */
  function ExtractMarkdownLinks(text: string): (r: seq<(string, string)>)
    ensures forall k :: 0 <= k < |r| ==> AltText(r[k].0) && UrlText(r[k].1) && LinkOccurs(text, r[k].0, r[k].1)
  {
    var r := Extract(LinkPattern, text);
    assert forall k :: 0 <= k < |r| ==> AltText(r[k].0) && UrlText(r[k].1) && LinkOccurs(text, r[k].0, r[k].1) by {
      forall k | 0 <= k < |r|
        ensures AltText(r[k].0) && UrlText(r[k].1) && LinkOccurs(text, r[k].0, r[k].1)
      {
        assert Found(LinkPattern, text, r[k]);
        var q :| 0 <= q <= |text| && Renders(LinkPattern, text, q, r[k].0, r[k].1);
      }
    }
    r
  }
}
