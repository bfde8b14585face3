/** Python string operations the converter relies on, modelled over `seq<char>`:
    `count`, `split`, `split(sep, 1)`, `replace`, `join`, `in` and `strip()`.
    Every splitting operation scans left to right and takes non-overlapping
    occurrences, as CPython's `str.split` and `str.count` do. */
module Strings {
  import opened Wrappers

  // ---------------------------------------------------------------------------
  // Occurrences
  // ---------------------------------------------------------------------------

  /** `d` occurs in `s` starting at index `i`. */
  predicate OccursAt(s: string, d: string, i: int) {
    0 <= i && i + |d| <= |s| && s[i..i + |d|] == d
  }

  /** Python's substring test `d in s`. */
  predicate Contains(s: string, d: string) {
    exists i :: 0 <= i <= |s| && OccursAt(s, d, i)
  }

  /** Every character of `s` satisfies `P`. */
  predicate AllChars(s: string, P: char -> bool) {
    forall i :: 0 <= i < |s| ==> P(s[i])
  }

  lemma OccursAtStart(s: string, d: string)
    ensures OccursAt(s, d, 0) <==> d <= s
  {
  }

  /** An occurrence past the first character is an occurrence in the tail. */
  lemma OccursTail(s: string, d: string)
    requires |s| > 0
    ensures forall i :: 1 <= i ==> (OccursAt(s, d, i) <==> OccursAt(s[1..], d, i - 1))
  {
    forall i | 1 <= i
      ensures OccursAt(s, d, i) <==> OccursAt(s[1..], d, i - 1)
    {
      if i + |d| <= |s| {
        assert s[1..][i - 1..i - 1 + |d|] == s[i..i + |d|];
      }
    }
  }

  /** When `s` does not start with `d`, `s` contains `d` exactly when its tail does. */
  lemma ContainsTail(s: string, d: string)
    requires |s| > 0 && !(d <= s)
    ensures Contains(s, d) <==> Contains(s[1..], d)
  {
    OccursTail(s, d);
    if Contains(s, d) {
      var i :| 0 <= i <= |s| && OccursAt(s, d, i);
      OccursAtStart(s, d);
      assert OccursAt(s[1..], d, i - 1);
    }
    if Contains(s[1..], d) {
      var i :| 0 <= i <= |s[1..]| && OccursAt(s[1..], d, i);
      assert OccursAt(s, d, i + 1);
    }
  }

  /** An occurrence inside a slice of `s` is an occurrence in `s`. */
  lemma ContainsSlice(s: string, a: int, b: int, x: string)
    requires 0 <= a <= b <= |s|
    requires Contains(s[a..b], x)
    ensures Contains(s, x)
  {
    var i :| 0 <= i <= |s[a..b]| && OccursAt(s[a..b], x, i);
    var u, v := s[a..b][i..i + |x|], s[a + i..a + i + |x|];
    assert forall k :: 0 <= k < |x| ==> u[k] == v[k];
    assert OccursAt(s, x, a + i);
  }

  // ---------------------------------------------------------------------------
  // count, split, join
  // ---------------------------------------------------------------------------

  /** Python's `s.count(d)`: the number of non-overlapping occurrences of `d`,
      taken left to right. */
  function Count(s: string, d: string): nat
    requires |d| > 0
    decreases |s|
  {
    if d <= s then 1 + Count(s[|d|..], d)
    else if |s| == 0 then 0
    else Count(s[1..], d)
  }

  /** Python's `s.split(d)`: the pieces of `s` between the non-overlapping
      occurrences of `d`, taken left to right. There is always one more piece
      than there are occurrences. */
  function Split(s: string, d: string): (parts: seq<string>)
    requires |d| > 0
    ensures |parts| == Count(s, d) + 1
    decreases |s|
  {
    if d <= s then [""] + Split(s[|d|..], d)
    else if |s| == 0 then [""]
    else
      var rest := Split(s[1..], d);
      [[s[0]] + rest[0]] + rest[1..]
  }

  lemma AppendAssociative<T>(x: seq<T>, y: seq<T>, z: seq<T>)
    ensures x + y + z == x + (y + z)
  {
  }

  /** A prefix one longer is the shorter prefix and one more element. */
  lemma SliceOfSlice<T>(xs: seq<T>, a: nat, b: nat, x: nat, y: nat)
    requires a <= b <= |xs| && x <= y <= b - a
    ensures xs[a..b][x..y] == xs[a + x..a + y]
  {
    forall k | 0 <= k < y - x
      ensures xs[a..b][x..y][k] == xs[a + x..a + y][k]
    {
      assert xs[a..b][x..y][k] == xs[a..b][x + k] == xs[a + x + k];
    }
  }

  lemma SliceConcat<T>(xs: seq<T>, i: nat, j: nat, k: nat)
    requires i <= j <= k <= |xs|
    ensures xs[i..k] == xs[i..j] + xs[j..k]
  {
  }

  lemma TakeSnoc<T>(xs: seq<T>, k: nat)
    requires 0 < k <= |xs|
    ensures xs[..k] == xs[..k - 1] + [xs[k - 1]]
  {
  }

  /** The pieces of a prefix, joined, grow by the next piece. */
  lemma ConcatTake(parts: seq<string>, k: nat)
    requires 0 < k <= |parts|
    ensures Concat(parts[..k]) == Concat(parts[..k - 1]) + parts[k - 1]
  {
    TakeSnoc(parts, k);
    ConcatSnoc(parts[..k - 1], parts[k - 1]);
  }

  /** The pieces of a prefix, joined with a separator, grow by the separator
      and the next piece. */
  lemma JoinTake(parts: seq<string>, k: nat, sep: string)
    requires 1 < k <= |parts|
    ensures Join(parts[..k], sep) == Join(parts[..k - 1], sep) + sep + parts[k - 1]
  {
    TakeSnoc(parts, k);
    JoinSnoc(parts[..k - 1], parts[k - 1], sep);
  }

  lemma ConcatSnoc(parts: seq<string>, x: string)
    ensures Concat(parts + [x]) == Concat(parts) + x
  {
    ConcatAppend(parts, [x]);
    assert Concat([x]) == x + Concat([]);
  }

  /** `s` with every occurrence of `d` deleted, scanning left to right: an
      independent description of what `Split` throws away. */
  function Remove(s: string, d: string): string
    requires |d| > 0
    decreases |s|
  {
    if d <= s then Remove(s[|d|..], d)
    else if |s| == 0 then ""
    else [s[0]] + Remove(s[1..], d)
  }

  /** Python's `sep.join(parts)`. */
  function Join(parts: seq<string>, sep: string): string
    decreases |parts|
  {
    if |parts| == 0 then ""
    else if |parts| == 1 then parts[0]
    else parts[0] + sep + Join(parts[1..], sep)
  }

  /** Joining one more piece adds the separator and the piece at the end. */
  lemma {:induction false} JoinSnoc(parts: seq<string>, x: string, sep: string)
    requires |parts| > 0
    ensures Join(parts + [x], sep) == Join(parts, sep) + sep + x
    decreases |parts|
  {
    if |parts| == 1 {
      assert parts + [x] == [parts[0], x];
      assert [parts[0], x][1..] == [x];
    } else {
      assert (parts + [x])[1..] == parts[1..] + [x];
      JoinSnoc(parts[1..], x, sep);
    }
  }

  /** Python's `"".join(parts)`. */
  function Concat(parts: seq<string>): string
    decreases |parts|
  {
    if |parts| == 0 then "" else parts[0] + Concat(parts[1..])
  }

  /** Concatenation distributes over appending lists of pieces. */
  lemma {:induction false} ConcatAppend(a: seq<string>, b: seq<string>)
    ensures Concat(a + b) == Concat(a) + Concat(b)
    decreases |a|
  {
    if |a| > 0 {
      ConcatAppend(a[1..], b);
      assert (a + b)[1..] == a[1..] + b;
    } else {
      assert a + b == b;
    }
  }

  /** Deleting a delimiter that does not occur changes nothing. */
  lemma RemoveAbsent(s: string, d: string)
    requires |d| > 0 && !Contains(s, d)
    ensures Remove(s, d) == s
  {
    SplitAbsent(s, d);
    ConcatSplit(s, d);
  }

  /** Python's `s.replace(old, new)`, which CPython defines as `new.join(s.split(old))`. */
  function Replace(s: string, target: string, replacement: string): string
    requires |target| > 0
  {
    Join(Split(s, target), replacement)
  }

  /** No occurrence of `d` means no split: Python returns `[s]`. */
  lemma {:induction false} CountZero(s: string, d: string)
    requires |d| > 0
    ensures Count(s, d) == 0 <==> !Contains(s, d)
    decreases |s|
  {
    OccursAtStart(s, d);
    if d <= s {
      assert OccursAt(s, d, 0);
    } else if |s| == 0 {
    } else {
      ContainsTail(s, d);
      CountZero(s[1..], d);
    }
  }

  lemma SplitAbsent(s: string, d: string)
    requires |d| > 0 && !Contains(s, d)
    ensures Split(s, d) == [s]
  {
    CountZero(s, d);
    JoinSplit(s, d);
  }

  /** Joining the pieces with the separator gives the string back. */
  lemma {:induction false} JoinSplit(s: string, d: string)
    requires |d| > 0
    ensures Join(Split(s, d), d) == s
    decreases |s|
  {
    if d <= s {
      var rest := Split(s[|d|..], d);
      JoinSplit(s[|d|..], d);
      JoinCons("", rest, d);
      assert Split(s, d) == [""] + rest;
      RebuildAfterDelimiter(s, d, Join(rest, d));
    } else if |s| == 0 {
    } else {
      var rest := Split(s[1..], d);
      JoinSplit(s[1..], d);
      JoinExtendHead(s[0], rest, d);
      assert s == [s[0]] + s[1..];
    }
  }

  lemma RebuildAfterDelimiter(s: string, d: string, t: string)
    requires d <= s && t == s[|d|..]
    ensures "" + d + t == s
  {
  }

  /** Joining a piece in front of a non-empty list of pieces. */
  lemma JoinCons(p: string, parts: seq<string>, sep: string)
    requires |parts| > 0
    ensures Join([p] + parts, sep) == p + sep + Join(parts, sep)
  {
    assert ([p] + parts)[1..] == parts;
  }

  /** Growing the first piece by one character grows the join by that character. */
  lemma JoinExtendHead(c: char, parts: seq<string>, sep: string)
    requires |parts| > 0
    ensures Join([[c] + parts[0]] + parts[1..], sep) == [c] + Join(parts, sep)
  {
    var q := [[c] + parts[0]] + parts[1..];
    if |parts| > 1 {
      assert q[1..] == parts[1..];
    }
  }

  /** Concatenating the pieces gives the string with every delimiter deleted. */
  lemma {:induction false} ConcatSplit(s: string, d: string)
    requires |d| > 0
    ensures Concat(Split(s, d)) == Remove(s, d)
    decreases |s|
  {
    if d <= s {
      var rest := Split(s[|d|..], d);
      ConcatSplit(s[|d|..], d);
      assert ([""] + rest)[1..] == rest;
      assert Concat([""] + rest) == "" + Concat(rest);
    } else if |s| == 0 {
    } else {
      ConcatSplit(s[1..], d);
      var rest := Split(s[1..], d);
      var parts := [[s[0]] + rest[0]] + rest[1..];
      assert parts[1..] == rest[1..];
      assert Concat(rest) == rest[0] + Concat(rest[1..]);
      assert Concat(parts) == [s[0]] + rest[0] + Concat(rest[1..]);
    }
  }

  /** The first piece is a prefix of the string. */
  lemma {:induction false} SplitHeadPrefix(s: string, d: string)
    requires |d| > 0
    ensures Split(s, d)[0] <= s
    decreases |s|
  {
    if d <= s {
    } else if |s| == 0 {
    } else {
      SplitHeadPrefix(s[1..], d);
    }
  }

  /** Contains is monotone under prefixes. */
  lemma ContainsPrefix(t: string, s: string, x: string)
    requires t <= s && Contains(t, x)
    ensures Contains(s, x)
  {
    assert t == s[0..|t|];
    ContainsSlice(s, 0, |t|, x);
  }

  /** No piece of a split contains the delimiter. */
  lemma {:induction false} SplitPartsAvoid(s: string, d: string)
    requires |d| > 0
    ensures forall k :: 0 <= k < |Split(s, d)| ==> !Contains(Split(s, d)[k], d)
    decreases |s|
  {
    var parts := Split(s, d);
    if d <= s {
      SplitPartsAvoid(s[|d|..], d);
      assert !Contains("", d);
    } else if |s| == 0 {
      assert !Contains("", d);
    } else {
      SplitPartsAvoid(s[1..], d);
      var rest := Split(s[1..], d);
      var head := [s[0]] + rest[0];
      SplitHeadPrefix(s[1..], d);
      assert head <= s;
      assert head[1..] == rest[0];
      OccursAtStart(head, d);
      OccursTail(head, d);
      assert !Contains(head, d);
      assert parts[0] == head;
      assert forall k :: 1 <= k < |parts| ==> parts[k] == rest[k];
    }
  }

  /** A string that avoids `x` splits into pieces that avoid `x`. */
  lemma {:induction false} SplitPartsAvoidOther(s: string, d: string, x: string)
    requires |d| > 0 && !Contains(s, x)
    ensures forall k :: 0 <= k < |Split(s, d)| ==> !Contains(Split(s, d)[k], x)
    decreases |s|
  {
    var parts := Split(s, d);
    if d <= s {
      if Contains(s[|d|..], x) {
        assert s[|d|..|s|] == s[|d|..];
        ContainsSlice(s, |d|, |s|, x);
      }
      SplitPartsAvoidOther(s[|d|..], d, x);
      if Contains("", x) {
        ContainsSlice(s, 0, 0, x);
      }
    } else if |s| == 0 {
    } else {
      if Contains(s[1..], x) {
        assert s[1..|s|] == s[1..];
        ContainsSlice(s, 1, |s|, x);
      }
      SplitPartsAvoidOther(s[1..], d, x);
      var rest := Split(s[1..], d);
      var head := [s[0]] + rest[0];
      SplitHeadPrefix(s[1..], d);
      assert head <= s;
      if Contains(head, x) {
        ContainsPrefix(head, s, x);
      }
      assert parts[0] == head;
      assert forall k :: 1 <= k < |parts| ==> parts[k] == rest[k];
    }
  }

  /** A property of every character of the string holds of every character of every piece. */
  lemma {:induction false} SplitPartsChars(s: string, d: string, P: char -> bool)
    requires |d| > 0 && AllChars(s, P)
    ensures forall k :: 0 <= k < |Split(s, d)| ==> AllChars(Split(s, d)[k], P)
    decreases |s|
  {
    if d <= s {
      SplitPartsChars(s[|d|..], d, P);
    } else if |s| == 0 {
    } else {
      SplitPartsChars(s[1..], d, P);
      var parts := Split(s, d);
      var rest := Split(s[1..], d);
      assert parts[0] == [s[0]] + rest[0];
      assert forall k :: 1 <= k < |parts| ==> parts[k] == rest[k];
    }
  }

  /** Splitting a string that starts with a delimiter-free piece and the delimiter. */
  lemma {:induction false} SplitPieceThenDelimiter(p: string, d: string, t: string)
    requires |d| > 0 && d[0] !in p
    ensures Split(p + d + t, d) == [p] + Split(t, d)
    decreases |p|
  {
    if |p| == 0 {
      assert p + d + t == d + t;
      assert (d + t)[|d|..] == t;
    } else {
      var s := p + d + t;
      assert s[0] == p[0] && p[0] != d[0];
      FirstCharNotPrefix(d, s);
      assert s[1..] == p[1..] + d + t;
      SplitPieceThenDelimiter(p[1..], d, t);
      var rest := Split(s[1..], d);
      assert Split(s, d) == [[s[0]] + rest[0]] + rest[1..];
      assert rest[0] == p[1..] && rest[1..] == Split(t, d);
      assert [s[0]] + p[1..] == p;
    }
  }

  /** A prefix of a prefix is a prefix. */
  lemma PrefixTransitive<T>(a: seq<T>, b: seq<T>, c: seq<T>)
    requires a <= b && b <= c
    ensures a <= c
  {
    assert b[..|a|] == c[..|a|];
  }

  lemma FirstCharNotPrefix(d: string, s: string)
    requires |d| > 0 && |s| > 0
    ensures d[0] != s[0] ==> !(d <= s)
  {
  }

  /** Splitting a delimiter-free piece leaves it whole. */
  lemma {:induction false} SplitFreePiece(p: string, d: string)
    requires |d| > 0 && d[0] !in p
    ensures Split(p, d) == [p]
    decreases |p|
  {
    if |p| == 0 {
    } else {
      assert !(d <= p);
      SplitFreePiece(p[1..], d);
      assert [p[0]] + p[1..] == p;
    }
  }

  /** Joining pieces that never contain the delimiter's first character, then
      splitting, gives the pieces back. */
  lemma {:induction false} SplitJoin(parts: seq<string>, d: string)
    requires |d| > 0 && |parts| > 0
    requires forall k :: 0 <= k < |parts| ==> d[0] !in parts[k]
    ensures Split(Join(parts, d), d) == parts
    decreases |parts|
  {
    if |parts| == 1 {
      SplitFreePiece(parts[0], d);
    } else {
      SplitJoin(parts[1..], d);
      SplitPieceThenDelimiter(parts[0], d, Join(parts[1..], d));
      assert parts == [parts[0]] + parts[1..];
    }
  }

  /** A property of every character of every piece and of the separator holds of the join. */
  lemma {:induction false} JoinChars(parts: seq<string>, sep: string, P: char -> bool)
    requires AllChars(sep, P)
    requires forall k :: 0 <= k < |parts| ==> AllChars(parts[k], P)
    ensures AllChars(Join(parts, sep), P)
    decreases |parts|
  {
    if |parts| > 1 {
      JoinChars(parts[1..], sep, P);
      var j := parts[0] + sep + Join(parts[1..], sep);
      forall i | 0 <= i < |j|
        ensures P(j[i])
      {
        if i < |parts[0]| {
          assert j[i] == parts[0][i];
        } else if i < |parts[0]| + |sep| {
          assert j[i] == sep[i - |parts[0]|];
        } else {
          assert j[i] == Join(parts[1..], sep)[i - |parts[0]| - |sep|];
        }
      }
    }
  }

  /** Replacing a string that does not occur changes nothing. */
  lemma ReplaceAbsent(s: string, target: string, replacement: string)
    requires |target| > 0 && !Contains(s, target)
    ensures Replace(s, target, replacement) == s
  {
    SplitAbsent(s, target);
  }

  // ---------------------------------------------------------------------------
  // split(sep, 1)
  // ---------------------------------------------------------------------------

  /** Index of the first occurrence of `d` in `s` (Python's `s.find(d)`, with
      `None` for -1). */
  function Find(s: string, d: string): (r: Option<nat>)
    requires |d| > 0
    ensures r.Some? ==> OccursAt(s, d, r.value)
    ensures r.Some? ==> forall j :: 0 <= j < r.value ==> !OccursAt(s, d, j)
    ensures r.None? <==> !Contains(s, d)
    decreases |s|
  {
    OccursAtStart(s, d);
    if d <= s then Some(0)
    else if |s| == 0 then None
    else
      ContainsTail(s, d);
      OccursTail(s, d);
      match Find(s[1..], d)
      case None => None
      case Some(i) => Some(i + 1)
  }

  /** The first occurrence is no later than any known occurrence. */
  lemma FindAtMost(s: string, d: string, j: int)
    requires |d| > 0 && OccursAt(s, d, j)
    ensures Find(s, d).Some? && Find(s, d).value <= j
  {
    assert Contains(s, d);
  }

  /** Python's `s.split(d, 1)`: the text before and after the first occurrence
      of `d`, or `[s]` when there is none. */
  function SplitOnce(s: string, d: string): (sections: seq<string>)
    requires |d| > 0
    ensures |sections| == 1 || |sections| == 2
    ensures |sections| == 1 <==> !Contains(s, d)
    ensures |sections| == 1 ==> sections[0] == s
    ensures |sections| == 2 ==> sections[0] + d + sections[1] == s && !Contains(sections[0] + d[..|d| - 1], d)
  {
    match Find(s, d)
    case None => [s]
    case Some(i) =>
      FirstOccurrenceFree(s, d, i);
      assert s[..i] + d + s[i + |d|..] == s;
      [s[..i], s[i + |d|..]]
  }

  /** Splitting once at a known occurrence: the first section ends no later
      than it, and the sections are a prefix and a suffix of `s`. */
  lemma SplitOnceWithin(s: string, d: string, i: nat)
    requires |d| > 0 && OccursAt(s, d, i)
    ensures |SplitOnce(s, d)| == 2
    ensures |SplitOnce(s, d)[0]| <= i
    ensures SplitOnce(s, d)[0] == s[..|SplitOnce(s, d)[0]|]
    ensures SplitOnce(s, d)[1] == s[|SplitOnce(s, d)[0]| + |d|..]
  {
    FindAtMost(s, d, i);
  }

  /** Splitting once at the first occurrence cuts exactly there. */
  lemma SplitOnceAt(s: string, d: string, i: nat)
    requires |d| > 0 && OccursAt(s, d, i)
    requires forall j :: 0 <= j < i ==> !OccursAt(s, d, j)
    ensures SplitOnce(s, d) == [s[..i], s[i + |d|..]]
  {
    FindAtMost(s, d, i);
    var j := Find(s, d).value;
    assert OccursAt(s, d, j);
    assert j == i;
  }

  /** An occurrence at `i` is an occurrence in every suffix that starts by `i`. */
  lemma OccursInSuffix(s: string, d: string, r: nat, i: nat)
    requires r <= i && OccursAt(s, d, i)
    ensures OccursAt(s[r..], d, i - r)
  {
    assert s[r..][i - r..i - r + |d|] == s[i..i + |d|];
  }

  /** Splitting a suffix once, given an occurrence at `i`: the cut is by `i`
      and the second section is a suffix of `s`. */
  lemma SplitOnceSuffixWithin(s: string, d: string, r: nat, i: nat)
    requires |d| > 0 && r <= i && OccursAt(s, d, i)
    ensures var sections := SplitOnce(s[r..], d);
      |sections| == 2 && r + |sections[0]| <= i && sections[1] == s[r + |sections[0]| + |d|..]
  {
    OccursInSuffix(s, d, r, i);
    SplitOnceWithin(s[r..], d, i - r);
    var n := |SplitOnce(s[r..], d)[0]|;
    assert s[r..][n + |d|..] == s[r + n + |d|..];
  }

  /** Splitting a suffix once, where `i` is the first occurrence in it. */
  lemma SplitOnceSuffixAt(s: string, d: string, r: nat, i: nat)
    requires |d| > 0 && r <= i && OccursAt(s, d, i)
    requires forall j :: 0 <= j < i - r ==> !OccursAt(s[r..], d, j)
    ensures SplitOnce(s[r..], d) == [s[r..i], s[i + |d|..]]
  {
    OccursInSuffix(s, d, r, i);
    SplitOnceAt(s[r..], d, i - r);
    assert s[r..][..i - r] == s[r..i];
    assert s[r..][i - r + |d|..] == s[i + |d|..];
  }

  /** Before the first occurrence, even allowing all but the last character of
      `d` to follow, there is no occurrence of `d`. */
  lemma FirstOccurrenceFree(s: string, d: string, i: nat)
    requires |d| > 0 && OccursAt(s, d, i)
    requires forall j :: 0 <= j < i ==> !OccursAt(s, d, j)
    ensures !Contains(s[..i] + d[..|d| - 1], d)
  {
    var t := s[..i] + d[..|d| - 1];
    assert t == s[..i + |d| - 1];
    forall j | 0 <= j <= |t|
      ensures !OccursAt(t, d, j)
    {
      if j + |d| <= |t| {
        assert j < i && t[j..j + |d|] == s[j..j + |d|];
        assert !OccursAt(s, d, j);
      }
    }
  }

  // ---------------------------------------------------------------------------
  // Runs
  // ---------------------------------------------------------------------------

  /** The end of the longest run from `i` of characters `stop` rejects: a
      greedy `[^...]*`. */
  function RunEnd(s: string, i: nat, stop: char -> bool): (j: nat)
    requires i <= |s|
    ensures i <= j <= |s|
    decreases |s| - i
  {
    if i == |s| || stop(s[i]) then i else RunEnd(s, i + 1, stop)
  }

  /** The run holds no stopping character and ends at one or at the end of
      `s`. */
  lemma {:induction false} RunEndSound(s: string, i: nat, stop: char -> bool)
    requires i <= |s|
    ensures forall k :: i <= k < RunEnd(s, i, stop) ==> !stop(s[k])
    ensures RunEnd(s, i, stop) < |s| ==> stop(s[RunEnd(s, i, stop)])
    decreases |s| - i
  {
    if i < |s| && !stop(s[i]) {
      RunEndSound(s, i + 1, stop);
    }
  }

  /** The run, as a slice, holds no stopping character. */
  lemma RunSlice(s: string, i: nat, stop: char -> bool)
    requires i <= |s|
    ensures forall k :: 0 <= k < RunEnd(s, i, stop) - i ==> !stop(s[i..RunEnd(s, i, stop)][k])
  {
    var j := RunEnd(s, i, stop);
    RunEndSound(s, i, stop);
    forall k | 0 <= k < j - i
      ensures !stop(s[i..j][k])
    {
      assert s[i..j][k] == s[i + k];
    }
  }

  /** A run that stops at a character `stop` accepts ends there. */
  lemma RunEndAt(s: string, i: nat, stop: char -> bool, j: nat)
    requires i <= j < |s| && stop(s[j])
    requires forall k :: i <= k < j ==> !stop(s[k])
    ensures RunEnd(s, i, stop) == j
    decreases j - i
  {
    if i < j {
      RunEndAt(s, i + 1, stop, j);
    }
  }

  /** A run over a copy of `t` none of whose characters stops it, followed
      by a stopping character, ends right after the copy. */
  lemma RunOver(s: string, i: nat, t: string, stop: char -> bool)
    requires i + |t| < |s| && stop(s[i + |t|])
    requires forall k :: 0 <= k < |t| ==> s[i + k] == t[k]
    requires forall k :: 0 <= k < |t| ==> !stop(t[k])
    ensures RunEnd(s, i, stop) == i + |t|
  {
    forall j | i <= j < i + |t|
      ensures !stop(s[j])
    {
      assert s[i + (j - i)] == t[j - i];
    }
    RunEndAt(s, i, stop, i + |t|);
  }

  // ---------------------------------------------------------------------------
  // Whitespace and strip()
  // ---------------------------------------------------------------------------

  /** Python's `str.isspace()` for one character: general category Zs or
      bidirectional class WS, B or S. */
  predicate IsSpace(c: char) {
    || ('\t' <= c <= '\r')
    || ('\U{1C}' <= c <= '\U{1F}')
    || c == ' ' || c == '\U{85}' || c == '\U{A0}' || c == '\U{1680}'
    || ('\U{2000}' <= c <= '\U{200A}')
    || c == '\U{2028}' || c == '\U{2029}' || c == '\U{202F}' || c == '\U{205F}'
    || c == '\U{3000}'
  }

  predicate AllSpace(s: string) {
    AllChars(s, IsSpace)
  }

  /** Number of whitespace characters at the start of `s`. */
  function LeadingSpace(s: string): (n: nat)
    ensures n <= |s|
    ensures forall k :: 0 <= k < n ==> IsSpace(s[k])
    ensures n < |s| ==> !IsSpace(s[n])
    decreases |s|
  {
    if |s| > 0 && IsSpace(s[0]) then 1 + LeadingSpace(s[1..]) else 0
  }

  /** Number of whitespace characters at the end of `s`. */
  function TrailingSpace(s: string): (n: nat)
    ensures n <= |s|
    ensures forall k :: |s| - n <= k < |s| ==> IsSpace(s[k])
    ensures n < |s| ==> !IsSpace(s[|s| - n - 1])
    decreases |s|
  {
    if |s| > 0 && IsSpace(s[|s| - 1]) then 1 + TrailingSpace(s[..|s| - 1]) else 0
  }

  /** Python's `s.strip()`: `s` without its leading and trailing whitespace. */
  function Strip(s: string): (r: string)
    ensures r == "" <==> AllSpace(s)
    ensures r == "" || (!IsSpace(r[0]) && !IsSpace(r[|r| - 1]))
    ensures exists i, j :: 0 <= i <= j <= |s| && r == s[i..j] && AllSpace(s[..i]) && AllSpace(s[j..])
  {
    var i := LeadingSpace(s);
    if i == |s| then
      assert s[..|s|] == s && s[|s|..] == "";
      assert s == s[|s|..|s|] + s;
      ""
    else
      var n := TrailingSpace(s);
      assert i < |s| - n;
      assert !AllSpace(s) by { assert !IsSpace(s[i]); }
      assert AllSpace(s[..i]) && AllSpace(s[|s| - n..]);
      s[i..|s| - n]
  }

  /** Stripping twice is stripping once. */
  lemma StripIdempotent(s: string)
    ensures Strip(Strip(s)) == Strip(s)
  {
    var r := Strip(s);
    if r != "" {
      assert LeadingSpace(r) == 0;
      assert r[0..] == r;
      assert TrailingSpace(r) == 0;
    }
  }

  /** Every character of the stripped string comes from the original. */
  lemma StripChars(s: string, P: char -> bool)
    requires AllChars(s, P)
    ensures AllChars(Strip(s), P)
  {
    var r := Strip(s);
    var i, j :| 0 <= i <= j <= |s| && r == s[i..j] && AllSpace(s[..i]) && AllSpace(s[j..]);
    assert forall k :: 0 <= k < |r| ==> r[k] == s[i + k];
  }

  // ---------------------------------------------------------------------------
  // Decimal formatting
  // ---------------------------------------------------------------------------

  predicate IsDigit(c: char) {
    '0' <= c <= '9'
  }

  /** Python's `str(n)` for a natural number: its decimal digits, most
      significant first, with no leading zero. */
  function Decimal(n: nat): (r: string)
    ensures |r| > 0 && AllChars(r, IsDigit)
    ensures |r| > 1 ==> r[0] != '0'
    decreases n
  {
    var d := ['0' + (n % 10) as char];
    if n < 10 then d else Decimal(n / 10) + d
  }

  /** The value of a string of decimal digits. */
  function DigitsValue(s: string): nat
    requires AllChars(s, IsDigit)
    decreases |s|
  {
    if |s| == 0 then 0 else 10 * DigitsValue(s[..|s| - 1]) + (s[|s| - 1] - '0') as nat
  }

  /** Reading the digits back gives the number. */
  lemma {:induction false} DecimalRoundTrip(n: nat)
    ensures DigitsValue(Decimal(n)) == n
    decreases n
  {
    var r := Decimal(n);
    if n >= 10 {
      DecimalRoundTrip(n / 10);
      assert r[..|r| - 1] == Decimal(n / 10);
    }
  }
}
