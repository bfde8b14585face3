/** `re.split(r'\n\s*\n', s)`, the block separator of `markdown_to_blocks`,
    written out as a scanner. A separator is a newline, the longest run of
    whitespace the greedy `\s*` can take that still leaves a newline after
    it, and that newline; `\s` is the same class as `str.isspace()`. The
    scanner tries each position in turn and resumes after each separator. */
module BlankSplit {
  import opened Wrappers
  import opened Strings

  predicate NotSpace(c: char) {
    !IsSpace(c)
  }

  /** A newline, whitespace, and a newline: what the pattern matches. */
  predicate BlankGap(g: string) {
    |g| >= 2 && g[0] == '\n' && g[|g| - 1] == '\n' && AllSpace(g)
  }

  /** Some separator lies inside `p`. */
  predicate HasBlankLine(p: string) {
    exists a, b :: 0 <= a <= b <= |p| && BlankGap(p[a..b])
  }

  /** The last newline in `s[lo..hi]`. */
  function LastNewline(s: string, lo: nat, hi: nat): (r: Option<nat>)
    requires lo <= hi <= |s|
    ensures r.Some? ==> lo <= r.value < hi && s[r.value] == '\n'
    decreases hi - lo
  {
    if hi == lo then None
    else if s[hi - 1] == '\n' then Some(hi - 1)
    else LastNewline(s, lo, hi - 1)
  }

  /** Nothing in `s[lo..hi]` after what `LastNewline` finds is a newline. */
  lemma {:induction false} LastNewlineLast(s: string, lo: nat, hi: nat, k: nat)
    requires lo <= k < hi <= |s| && s[k] == '\n'
    ensures LastNewline(s, lo, hi).Some? && k <= LastNewline(s, lo, hi).value
    decreases hi - lo
  {
    if s[hi - 1] != '\n' {
      LastNewlineLast(s, lo, hi - 1, k);
    }
  }

  /** The pattern tried at `i`: the end of the separator that starts there. */
  function SeparatorAt(s: string, i: nat): (r: Option<nat>)
    requires i <= |s|
    ensures r.Some? ==> i + 2 <= r.value <= |s|
  {
    if i < |s| && s[i] == '\n' then
      match LastNewline(s, i + 1, RunEnd(s, i + 1, NotSpace))
      case Some(k) => Some(k + 1)
      case None => None
    else None
  }

  /** A run of whitespace between `i` and `j` lies inside the greedy run. */
  lemma RunReaches(s: string, i: nat, j: nat)
    requires i <= j <= |s|
    requires forall k :: i <= k < j ==> IsSpace(s[k])
    ensures j <= RunEnd(s, i, NotSpace)
  {
    RunEndSound(s, i, NotSpace);
  }

  /** What the pattern matches is a blank gap, and the greedy one: no newline
      further on can be reached through whitespace. */
  lemma SeparatorAtSound(s: string, i: nat)
    requires i <= |s|
    ensures SeparatorAt(s, i).Some? ==>
      var j := SeparatorAt(s, i).value;
      BlankGap(s[i..j]) && forall k :: j <= k < |s| && s[k] == '\n' ==> !AllSpace(s[j..k])
  {
    if SeparatorAt(s, i).Some? {
      SeparatorGap(s, i);
      SeparatorGreedy(s, i);
    }
  }

  /** The match of the pattern is a blank gap. */
  lemma SeparatorGap(s: string, i: nat)
    requires i <= |s| && SeparatorAt(s, i).Some?
    ensures BlankGap(s[i..SeparatorAt(s, i).value])
  {
    var e := RunEnd(s, i + 1, NotSpace);
    var j := SeparatorAt(s, i).value;
    RunEndSound(s, i + 1, NotSpace);
    assert forall k :: i + 1 <= k < e ==> IsSpace(s[k]);
    forall k | 0 <= k < j - i
      ensures IsSpace(s[i..j][k])
    {
      assert s[i..j][k] == s[i + k];
    }
  }

  /** The match of the pattern is the greedy one: no newline after it is
      reached through whitespace. */
  lemma SeparatorGreedy(s: string, i: nat)
    requires i <= |s| && SeparatorAt(s, i).Some?
    ensures var j := SeparatorAt(s, i).value;
      forall k :: j <= k < |s| && s[k] == '\n' ==> !AllSpace(s[j..k])
  {
    var e := RunEnd(s, i + 1, NotSpace);
    var j := SeparatorAt(s, i).value;
    RunEndSound(s, i + 1, NotSpace);
    forall k | j <= k < |s| && s[k] == '\n'
      ensures !AllSpace(s[j..k])
    {
      if AllSpace(s[j..k]) {
        forall m | i + 1 <= m < k + 1
          ensures IsSpace(s[m])
        {
          if j <= m < k {
            assert s[j..k][m - j] == s[m];
          }
        }
        RunReaches(s, i + 1, k + 1);
        LastNewlineLast(s, i + 1, e, k);
      }
    }
  }

  /** Wherever a blank gap starts, the pattern matches, and its match reaches
      at least as far as the gap. */
  lemma SeparatorAtComplete(s: string, i: nat, j: nat)
    requires i <= j <= |s| && BlankGap(s[i..j])
    ensures SeparatorAt(s, i).Some? && j <= SeparatorAt(s, i).value
  {
    assert s[i] == s[i..j][0] && s[j - 1] == s[i..j][j - i - 1];
    forall k | i + 1 <= k < j
      ensures IsSpace(s[k])
    {
      assert s[k] == s[i..j][k - i];
    }
    RunReaches(s, i + 1, j);
    LastNewlineLast(s, i + 1, RunEnd(s, i + 1, NotSpace), j - 1);
  }

  /** The pieces from `start`, having tried the positions `start..i`. */
  function Pieces(s: string, start: nat, i: nat): (r: seq<string>)
    requires start <= i <= |s|
    ensures |r| > 0
    decreases |s| - i
  {
    if i == |s| then [s[start..]]
    else
      match SeparatorAt(s, i)
      case None => Pieces(s, start, i + 1)
      case Some(j) => [s[start..i]] + Pieces(s, j, j)
  }

  /** The separators from `i`, in order. */
  function Separators(s: string, i: nat): seq<string>
    requires i <= |s|
    decreases |s| - i
  {
    if i == |s| then []
    else
      match SeparatorAt(s, i)
      case None => Separators(s, i + 1)
      case Some(j) => [s[i..j]] + Separators(s, j)
  }

  /** `re.split(r'\n\s*\n', s)`. */
  function SplitBlankLines(s: string): (r: seq<string>)
    ensures |r| > 0
  {
    Pieces(s, 0, 0)
  }

  /** Pieces and separators in turn. */
  function Interleave(pieces: seq<string>, gaps: seq<string>): string
    requires |pieces| == |gaps| + 1
    decreases |gaps|
  {
    if |gaps| == 0 then pieces[0] else pieces[0] + gaps[0] + Interleave(pieces[1..], gaps[1..])
  }

  /** Nothing is lost: the pieces with the separators put back between them
      give the text from `start` back. */
  lemma {:induction false} PiecesRejoin(s: string, start: nat, i: nat)
    requires start <= i <= |s|
    ensures |Pieces(s, start, i)| == |Separators(s, i)| + 1
    ensures Interleave(Pieces(s, start, i), Separators(s, i)) == s[start..]
    decreases |s| - i
  {
    if i < |s| {
      match SeparatorAt(s, i)
      case None =>
        PiecesRejoin(s, start, i + 1);
      case Some(j) =>
        PiecesRejoin(s, j, j);
        RejoinAtSeparator(s, start, i, j, Pieces(s, j, j), Separators(s, j));
    }
  }

  /** A separator at `i` put back between the piece before it and the rest. */
  lemma RejoinAtSeparator(s: string, start: nat, i: nat, j: nat, rest: seq<string>, gaps: seq<string>)
    requires start <= i < j <= |s|
    requires |rest| == |gaps| + 1 && Interleave(rest, gaps) == s[j..]
    ensures Interleave([s[start..i]] + rest, [s[i..j]] + gaps) == s[start..]
  {
    var pieces := [s[start..i]] + rest;
    var separators := [s[i..j]] + gaps;
    assert pieces[1..] == rest && separators[1..] == gaps;
    assert Interleave(pieces, separators) == s[start..i] + s[i..j] + s[j..];
    SliceConcat(s, start, i, j);
    SliceConcat(s, start, j, |s|);
    assert s[j..] == s[j..|s|] && s[start..] == s[start..|s|];
  }

  /** Every separator is a blank gap. */
  lemma {:induction false} SeparatorsBlank(s: string, i: nat)
    requires i <= |s|
    ensures forall k :: 0 <= k < |Separators(s, i)| ==> BlankGap(Separators(s, i)[k])
    decreases |s| - i
  {
    if i < |s| {
      SeparatorAtSound(s, i);
      match SeparatorAt(s, i)
      case None =>
        SeparatorsBlank(s, i + 1);
      case Some(j) =>
        SeparatorsBlank(s, j);
        var gaps := Separators(s, j);
        assert forall k :: 1 <= k < |gaps| + 1 ==> ([s[i..j]] + gaps)[k] == gaps[k - 1];
    }
  }

  /** A blank gap at `i` means the pattern matches at `i`. */
  lemma GapMeansSeparator(s: string, i: nat, j: nat)
    requires i <= j <= |s|
    ensures BlankGap(s[i..j]) ==> SeparatorAt(s, i).Some?
  {
    if BlankGap(s[i..j]) {
      SeparatorAtComplete(s, i, j);
    }
  }

  /** A slice of `s` from `a` that holds no separator start. */
  lemma NoBlankLineIn(s: string, a: nat, b: nat)
    requires a <= b <= |s|
    requires forall q :: a <= q < b ==> SeparatorAt(s, q).None?
    ensures !HasBlankLine(s[a..b])
  {
    forall x, y | 0 <= x <= y <= b - a
      ensures !BlankGap(s[a..b][x..y])
    {
      SliceOfSlice(s, a, b, x, y);
      GapMeansSeparator(s, a + x, a + y);
    }
  }

  /** No piece holds a blank line: the scanner cuts at every one. */
  lemma {:induction false} PiecesHaveNoBlankLine(s: string, start: nat, i: nat)
    requires start <= i <= |s|
    requires forall q :: start <= q < i ==> SeparatorAt(s, q).None?
    ensures forall k :: 0 <= k < |Pieces(s, start, i)| ==> !HasBlankLine(Pieces(s, start, i)[k])
    decreases |s| - i
  {
    if i == |s| {
      NoBlankLineIn(s, start, |s|);
      assert s[start..|s|] == s[start..];
    } else {
      match SeparatorAt(s, i)
      case None =>
        PiecesHaveNoBlankLine(s, start, i + 1);
      case Some(j) =>
        NoBlankLineIn(s, start, i);
        PiecesHaveNoBlankLine(s, j, j);
        var rest := Pieces(s, j, j);
        assert forall k :: 1 <= k < |rest| + 1 ==> ([s[start..i]] + rest)[k] == rest[k - 1];
    }
  }

  /** Where the pattern matches, the text holds a blank line. */
  lemma SeparatorMeansBlankLine(s: string, i: nat)
    requires i <= |s|
    ensures SeparatorAt(s, i).Some? ==> HasBlankLine(s)
  {
    SeparatorAtSound(s, i);
    if SeparatorAt(s, i).Some? {
      var j := SeparatorAt(s, i).value;
      assert BlankGap(s[i..j]);
    }
  }

  /** Text with no blank line is one piece. */
  lemma {:induction false} NoBlankLineOnePiece(s: string, start: nat, i: nat)
    requires start <= i <= |s| && !HasBlankLine(s)
    ensures Pieces(s, start, i) == [s[start..]]
    decreases |s| - i
  {
    if i < |s| {
      SeparatorMeansBlankLine(s, i);
      NoBlankLineOnePiece(s, start, i + 1);
    }
  }

  /** The pieces are slices of `s`, so they keep any property of its
      characters. */
  lemma {:induction false} PiecesChars(s: string, start: nat, i: nat, P: char -> bool)
    requires start <= i <= |s| && AllChars(s, P)
    ensures forall k :: 0 <= k < |Pieces(s, start, i)| ==> AllChars(Pieces(s, start, i)[k], P)
    decreases |s| - i
  {
    if i == |s| {
      assert forall m :: 0 <= m < |s[start..]| ==> s[start..][m] == s[start + m];
    } else {
      match SeparatorAt(s, i)
      case None =>
        PiecesChars(s, start, i + 1, P);
      case Some(j) =>
        PiecesChars(s, j, j, P);
        var rest := Pieces(s, j, j);
        assert forall m :: 0 <= m < |s[start..i]| ==> s[start..i][m] == s[start + m];
        assert forall k :: 1 <= k < |rest| + 1 ==> ([s[start..i]] + rest)[k] == rest[k - 1];
    }
  }

  /** A slice of text with no blank line has none either. */
  lemma SliceNoBlankLine(s: string, a: nat, b: nat)
    requires a <= b <= |s| && !HasBlankLine(s)
    ensures !HasBlankLine(s[a..b])
  {
    if HasBlankLine(s[a..b]) {
      var x, y :| 0 <= x <= y <= b - a && BlankGap(s[a..b][x..y]);
      SliceOfSlice(s, a, b, x, y);
    }
  }
}
