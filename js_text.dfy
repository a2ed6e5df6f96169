/**
  The part of JavaScript's string semantics that the alert parser relies on:
  `\s`, `trim`, `indexOf`, `slice`, `replace` with a string pattern and
  `split(/\n+/)`. Positions count characters.
*/
module JsText {

  /** The characters `\s` matches in a JavaScript regular expression (WhiteSpace and LineTerminator). */
  const Whitespace: set<char> := {
    '\t', '\n', '\U{000B}', '\U{000C}', '\r', ' ', '\U{00A0}', '\U{1680}',
    '\U{2000}', '\U{2001}', '\U{2002}', '\U{2003}', '\U{2004}', '\U{2005}',
    '\U{2006}', '\U{2007}', '\U{2008}', '\U{2009}', '\U{200A}',
    '\U{2028}', '\U{2029}', '\U{202F}', '\U{205F}', '\U{3000}', '\U{FEFF}'
  }

  /** The characters after which `^`, and before which `$`, match in a multiline regular expression. */
  const LineTerminators: set<char> := {'\n', '\r', '\U{2028}', '\U{2029}'}

  predicate AllIn(s: string, cs: set<char>)
  {
    forall i :: 0 <= i < |s| ==> s[i] in cs
  }

  /** Number of leading characters of `s` whose membership in `cs` equals `inside`. */
  function Run(s: string, cs: set<char>, inside: bool): (n: nat)
    ensures n <= |s|
    ensures forall i :: 0 <= i < n ==> (s[i] in cs) == inside
    ensures n == |s| || (s[n] in cs) != inside
  {
    if s != [] && (s[0] in cs) == inside then 1 + Run(s[1..], cs, inside) else 0
  }

  /** A run of `w` characters that the end of `s`, or a character on the other side, cuts off is what `Run` counts. */
  lemma RunLength(s: string, cs: set<char>, inside: bool, w: nat)
    requires w <= |s| && forall i :: 0 <= i < w ==> (s[i] in cs) == inside
    requires w == |s| || (s[w] in cs) != inside
    ensures Run(s, cs, inside) == w
  {
  }

  /** The run that starts at position `from` of `s` ends at `from` plus its length. */
  lemma RunEnds(s: string, cs: set<char>, inside: bool, from: nat)
    requires from <= |s|
    ensures from + Run(s[from..], cs, inside) <= |s|
    ensures forall i :: from <= i < from + Run(s[from..], cs, inside) ==> (s[i] in cs) == inside
    ensures from + Run(s[from..], cs, inside) == |s| || (s[from + Run(s[from..], cs, inside)] in cs) != inside
  {
    var w := Run(s[from..], cs, inside);
    forall i | from <= i < from + w
      ensures (s[i] in cs) == inside
    {
      assert s[i] == s[from..][i - from];
    }
    if from + w < |s| {
      assert s[from + w] == s[from..][w];
    }
  }

  /** A run of characters at position `from` of `s` that ends at `e` is what `Run` counts from there. */
  lemma RunEndsAt(s: string, cs: set<char>, inside: bool, from: nat, e: nat)
    requires from <= e <= |s| && forall i :: from <= i < e ==> (s[i] in cs) == inside
    requires e == |s| || (s[e] in cs) != inside
    ensures Run(s[from..], cs, inside) == e - from
  {
    var t := s[from..];
    assert forall i :: 0 <= i < e - from ==> t[i] == s[from + i];
    assert e < |s| ==> t[e - from] == s[e];
    RunLength(t, cs, inside, e - from);
  }

  /**
    `s` without its leading and trailing characters from `cs`: the piece
    neither starts nor ends with a character from `cs`, and it holds no
    character that `s` does not.
  */
  function TrimSet(s: string, cs: set<char>): (r: string)
    ensures |r| <= |s|
    ensures r == [] || (r[0] !in cs && r[|r| - 1] !in cs)
    ensures forall c :: c in r ==> c in s
    decreases |s|
  {
    if s != [] && s[0] in cs then
      assert forall c :: c in s[1..] ==> c in s;
      TrimSet(s[1..], cs)
    else if s != [] && s[|s| - 1] in cs then
      assert forall c :: c in s[..|s| - 1] ==> c in s;
      TrimSet(s[..|s| - 1], cs)
    else s
  }

  /** `r` is the piece of `s` that starts at position `i`. */
  predicate PieceAt(s: string, r: string, i: int)
  {
    0 <= i <= |s| - |r| && r == s[i..i + |r|]
  }

  /** `r` is the piece of `s` at position `i`, and all of `s` before and after it is in `cs`. */
  predicate PieceBetween(s: string, cs: set<char>, r: string, i: int)
  {
    PieceAt(s, r, i) && AllIn(s[..i], cs) && AllIn(s[i + |r|..], cs)
  }

  /** What `TrimSet` cuts off is all in `cs`, and what it keeps is one contiguous piece of `s`. */
  lemma {:induction false} TrimSetCutsOnlySet(s: string, cs: set<char>)
    ensures exists i :: PieceBetween(s, cs, TrimSet(s, cs), i)
    decreases |s|
  {
    var r := TrimSet(s, cs);
    if s != [] && s[0] in cs {
      TrimSetCutsOnlySet(s[1..], cs);
      var i :| PieceBetween(s[1..], cs, r, i);
      PieceBetweenFront(s, cs, r, i);
    } else if s != [] && s[|s| - 1] in cs {
      TrimSetCutsOnlySet(s[..|s| - 1], cs);
      var i :| PieceBetween(s[..|s| - 1], cs, r, i);
      PieceBetweenBack(s, cs, r, i);
    } else {
      assert PieceBetween(s, cs, r, 0);
    }
  }

  lemma PieceBetweenFront(s: string, cs: set<char>, r: string, i: int)
    requires s != [] && s[0] in cs && PieceBetween(s[1..], cs, r, i)
    ensures PieceBetween(s, cs, r, i + 1)
  {
    var t := s[1..];
    assert s[..i + 1] == [s[0]] + t[..i] && s[i + 1..i + 1 + |r|] == t[i..i + |r|];
    assert s[i + 1 + |r|..] == t[i + |r|..];
  }

  lemma PieceBetweenBack(s: string, cs: set<char>, r: string, i: int)
    requires s != [] && s[|s| - 1] in cs && PieceBetween(s[..|s| - 1], cs, r, i)
    ensures PieceBetween(s, cs, r, i)
  {
    var t := s[..|s| - 1];
    assert s[..i] == t[..i] && s[i..i + |r|] == t[i..i + |r|];
    assert s[i + |r|..] == t[i + |r|..] + [s[|s| - 1]];
  }

  /** `value.replace(/^\s+|\s+$/g, "")`: the source's `trim` helper. */
  function Trim(s: string): (r: string)
    ensures |r| <= |s|
    ensures r == [] || (r[0] !in Whitespace && r[|r| - 1] !in Whitespace)
  {
    TrimSet(s, Whitespace)
  }

  /** Text that neither starts nor ends with whitespace is left as it is by `Trim`. */
  lemma TrimUnchanged(s: string)
    requires s == [] || (s[0] !in Whitespace && s[|s| - 1] !in Whitespace)
    ensures Trim(s) == s
  {
  }

  /** Trimming twice is trimming once. */
  lemma TrimIdempotent(s: string)
    ensures Trim(Trim(s)) == Trim(s)
  {
    TrimUnchanged(Trim(s));
  }

  predicate OccursAt(s: string, pat: string, i: int)
  {
    0 <= i && i + |pat| <= |s| && s[i..i + |pat|] == pat
  }

  /** `s.indexOf(pat, from)`: the first position at or after `from` where `pat` occurs, or -1. */
  function IndexOfFrom(s: string, pat: string, from: nat): (r: int)
    ensures r == -1 || (from <= r && OccursAt(s, pat, r))
    ensures forall j :: from <= j && (r == -1 || j < r) ==> !OccursAt(s, pat, j)
    decreases |s| - from
  {
    if from + |pat| > |s| then -1
    else if s[from..from + |pat|] == pat then from
    else IndexOfFrom(s, pat, from + 1)
  }

  /** `s.indexOf(pat)`. */
  function IndexOf(s: string, pat: string): int
  {
    IndexOfFrom(s, pat, 0)
  }

  /** How `slice` reads a position: a negative one counts back from the end; both are clamped to `[0, len]`. */
  function SlicePosition(i: int, len: nat): (r: nat)
    ensures r <= len
  {
    if i < 0 then (if len + i < 0 then 0 else len + i) else if i > len then len else i
  }

  /** `s.slice(start, end)`. */
  function Slice(s: string, start: int, end: int): (r: string)
    ensures PieceAt(s, r, SlicePosition(start, |s|))
    ensures 0 <= start <= end <= |s| ==> r == s[start..end]
  {
    var from, to := SlicePosition(start, |s|), SlicePosition(end, |s|);
    if from < to then s[from..to] else []
  }

  /** `s.replace(pat, rep)` with a string pattern: only the first occurrence of `pat` is replaced. */
  function ReplaceFirst(s: string, pat: string, rep: string): (r: string)
    ensures (forall j :: !OccursAt(s, pat, j)) ==> r == s
    ensures forall i {:trigger OccursAt(s, pat, i)} ::
              OccursAt(s, pat, i) && (forall j :: 0 <= j < i ==> !OccursAt(s, pat, j)) ==>
                r == s[..i] + rep + s[i + |pat|..]
  {
    var i := IndexOf(s, pat);
    if i < 0 then s else s[..i] + rep + s[i + |pat|..]
  }

  /** The end of the line that starts at `from`: the first line feed at or after it, or `|s|`. */
  function LineEnd(s: string, from: nat): (i: nat)
    requires from <= |s|
    ensures from <= i <= |s|
    ensures forall p :: from <= p < i ==> s[p] != '\n'
    ensures i == |s| || s[i] == '\n'
    decreases |s| - from
  {
    if from == |s| || s[from] == '\n' then from else LineEnd(s, from + 1)
  }

  /** The end of the run of line feeds that starts at `from`. */
  function BreakEnd(s: string, from: nat): (i: nat)
    requires from <= |s|
    ensures from <= i <= |s|
    ensures forall p :: from <= p < i ==> s[p] == '\n'
    ensures i == |s| || s[i] != '\n'
    decreases |s| - from
  {
    if from == |s| || s[from] != '\n' then from else BreakEnd(s, from + 1)
  }

  /** The pieces of `s[from..]` between maximal runs of line feeds. */
  function SplitLinesFrom(s: string, from: nat): (r: seq<string>)
    requires from <= |s|
    ensures |r| >= 1
    decreases |s| - from
  {
    var i := LineEnd(s, from);
    if i == |s| then [s[from..]] else [s[from..i]] + SplitLinesFrom(s, BreakEnd(s, i + 1))
  }

  /**
    `s.split(/\n+/)`: the pieces of `s` between maximal runs of line feeds.
    A leading or trailing run yields an empty first or last piece, exactly as
    in JavaScript; every piece in between is non-empty.
  */
  function SplitLines(s: string): (r: seq<string>)
    ensures |r| >= 1
    ensures forall k :: 0 <= k < |r| ==> '\n' !in r[k]
  {
    SplitLinesSingleLines(s, 0);
    SplitLinesFrom(s, 0)
  }

  /** No piece holds a line feed. */
  lemma {:induction false} SplitLinesSingleLines(s: string, from: nat)
    requires from <= |s|
    ensures forall k :: 0 <= k < |SplitLinesFrom(s, from)| ==> '\n' !in SplitLinesFrom(s, from)[k]
    decreases |s| - from
  {
    var i := LineEnd(s, from);
    assert '\n' !in s[from..i] by {
      forall p | 0 <= p < i - from ensures s[from..i][p] != '\n' {
        assert s[from..i][p] == s[from + p];
      }
    }
    if i < |s| {
      var j := BreakEnd(s, i + 1);
      SplitLinesSingleLines(s, j);
      var pieces := SplitLinesFrom(s, j);
      assert forall k :: 0 < k < |pieces| + 1 ==> ([s[from..i]] + pieces)[k] == pieces[k - 1];
    }
  }

  /**
    Every piece but the first and the last is non-empty, and so is the first
    when the text does not start with a line feed.
  */
  lemma {:induction false} SplitLinesInnerPieces(s: string, from: nat)
    requires from <= |s|
    ensures forall k :: 0 < k < |SplitLinesFrom(s, from)| - 1 ==> SplitLinesFrom(s, from)[k] != []
    ensures from < |s| && s[from] != '\n' ==> SplitLinesFrom(s, from)[0] != []
    decreases |s| - from
  {
    var i := LineEnd(s, from);
    if i < |s| {
      var j := BreakEnd(s, i + 1);
      SplitLinesInnerPieces(s, j);
      var pieces := SplitLinesFrom(s, j);
      assert forall k :: 0 < k < |pieces| + 1 ==> ([s[from..i]] + pieces)[k] == pieces[k - 1];
    }
  }

  /** The last piece is non-empty when the text does not end with a line feed. */
  lemma {:induction false} SplitLinesLastPiece(s: string, from: nat)
    requires from < |s| && s[|s| - 1] != '\n'
    ensures SplitLinesFrom(s, from)[|SplitLinesFrom(s, from)| - 1] != []
    decreases |s| - from
  {
    var i := LineEnd(s, from);
    if i < |s| {
      var j := BreakEnd(s, i + 1);
      SplitLinesLastPiece(s, j);
      SplitLinesLastPieceStep(s, from, i, j);
    } else {
      assert SplitLinesFrom(s, from) == [s[from..]];
    }
  }

  lemma SplitLinesLastPieceStep(s: string, from: nat, i: nat, j: nat)
    requires from <= i < j < |s| && i == LineEnd(s, from) && j == BreakEnd(s, i + 1)
    requires SplitLinesFrom(s, j)[|SplitLinesFrom(s, j)| - 1] != []
    ensures SplitLinesFrom(s, from)[|SplitLinesFrom(s, from)| - 1] != []
  {
    var pieces := SplitLinesFrom(s, j);
    LastOfCons(s[from..i], pieces);
  }

  lemma LastOfCons<T>(x: T, s: seq<T>)
    requires s != []
    ensures ([x] + s)[|s|] == s[|s| - 1]
  {
  }

  /** The pieces joined with one line feed between each two: the inverse of `SplitLines` on text without blank lines. */
  lemma ConcatAssoc(p: string, q: string, r: string)
    ensures p + (q + r) == p + q + r
  {
  }

  lemma DropConcat(a: string, b: string, k: nat)
    requires k <= |a|
    ensures (a + b)[k..] == a[k..] + b
  {
    assert forall i :: 0 <= i < |a[k..] + b| ==> (a + b)[k..][i] == (a[k..] + b)[i];
  }

  /** Taking `j` characters is taking the first and then `j - 1` of the rest; dropping works the same way. */
  lemma TakeDropTail(s: string, j: nat)
    requires 0 < j <= |s|
    ensures s[..j] == [s[0]] + s[1..][..j - 1]
    ensures s[1..][j - 1..] == s[j..]
  {
  }

  /** A text is what comes before position `i`, the character there, and what comes after. */
  lemma SplitAround(s: string, i: nat)
    requires i < |s|
    ensures s == s[..i] + [s[i]] + s[i + 1..]
  {
  }

  function JoinLines(pieces: seq<string>): string
  {
    if pieces == [] then [] else if |pieces| == 1 then pieces[0] else pieces[0] + "\n" + JoinLines(pieces[1..])
  }

  /** Text with no two line feeds in a row. */
  predicate NoBlankLines(s: string)
  {
    forall i :: 0 <= i < |s| ==> !OccursAt(s, "\n\n", i)
  }

  /** A piece of text without blank lines has none either. */
  lemma NoBlankLinesPiece(s: string, r: string, i: int)
    requires PieceAt(s, r, i) && NoBlankLines(s)
    ensures NoBlankLines(r)
  {
    forall j | 0 <= j < |r|
      ensures !OccursAt(r, "\n\n", j)
    {
      if j + 2 <= |r| {
        assert r[j] == s[i + j] && r[j + 1] == s[i + j + 1];
        assert r[j..j + 2] == [r[j], r[j + 1]] && s[i + j..i + j + 2] == [s[i + j], s[i + j + 1]];
        assert !OccursAt(s, "\n\n", i + j);
      }
    }
  }

  /** Splitting text without blank lines and joining the pieces gives the text back. */
  lemma JoinSplitLines(s: string)
    requires NoBlankLines(s)
    ensures JoinLines(SplitLines(s)) == s
  {
    JoinSplitLinesFrom(s, 0);
    assert s[0..] == s;
  }

  lemma {:induction false} JoinSplitLinesFrom(s: string, from: nat)
    requires NoBlankLines(s) && from <= |s|
    ensures JoinLines(SplitLinesFrom(s, from)) == s[from..]
    decreases |s| - from
  {
    var i := LineEnd(s, from);
    if i < |s| {
      if i + 1 < |s| {
        NoBlankLinesAt(s, i);
      }
      JoinSplitLinesFrom(s, i + 1);
      JoinSplitLinesStep(s, from, i);
    } else {
      assert SplitLinesFrom(s, from) == [s[from..]];
    }
  }

  /** In text without blank lines, a line feed is not followed by another. */
  lemma NoBlankLinesAt(s: string, i: nat)
    requires NoBlankLines(s) && i + 1 < |s| && s[i] == '\n'
    ensures s[i + 1] != '\n'
  {
    assert !OccursAt(s, "\n\n", i);
    assert s[i..i + 2] == [s[i], s[i + 1]];
  }

  /** A line followed by a single line feed: joining puts back that line feed. */
  lemma {:induction false} JoinSplitLinesStep(s: string, from: nat, i: nat)
    requires from <= i < |s| && i == LineEnd(s, from) && (i + 1 == |s| || s[i + 1] != '\n')
    requires JoinLines(SplitLinesFrom(s, i + 1)) == s[i + 1..]
    ensures JoinLines(SplitLinesFrom(s, from)) == s[from..]
  {
    assert s[i] == '\n';
    assert BreakEnd(s, i + 1) == i + 1;
    JoinLinesStep(s, from);
    assert JoinLines(SplitLinesFrom(s, from)) == s[from..i] + "\n" + s[i + 1..];
    CutAtLineFeed(s, from, i);
  }

  lemma JoinLinesCons(first: string, pieces: seq<string>)
    requires pieces != []
    ensures JoinLines([first] + pieces) == first + "\n" + JoinLines(pieces)
  {
    assert ([first] + pieces)[1..] == pieces;
  }

  lemma CutAtLineFeed(s: string, from: nat, i: nat)
    requires from <= i < |s| && s[i] == '\n'
    ensures s[from..] == s[from..i] + "\n" + s[i + 1..]
  {
  }

  /**
    `s[from..]` with every run of line feeds shortened to a single line
    feed: a line feed followed by another is dropped, every other character
    is kept.
  */
  function CollapseBreaksFrom(s: string, from: nat): string
    requires from <= |s|
    decreases |s| - from
  {
    if from == |s| then []
    else if from + 1 < |s| && s[from] == '\n' && s[from + 1] == '\n' then CollapseBreaksFrom(s, from + 1)
    else [s[from]] + CollapseBreaksFrom(s, from + 1)
  }

  function CollapseBreaks(s: string): string
  {
    CollapseBreaksFrom(s, 0)
  }

  /** Collapsed text has no blank line, and it starts with the character the text starts with. */
  lemma {:induction false} CollapseBreaksHasNoBlankLines(s: string, from: nat)
    requires from <= |s|
    ensures from < |s| ==> CollapseBreaksFrom(s, from) != [] && CollapseBreaksFrom(s, from)[0] == s[from]
    ensures NoBlankLines(CollapseBreaksFrom(s, from))
    decreases |s| - from
  {
    if from < |s| {
      CollapseBreaksHasNoBlankLines(s, from + 1);
      if !(from + 1 < |s| && s[from] == '\n' && s[from + 1] == '\n') {
        NoBlankLinesCons(s[from], CollapseBreaksFrom(s, from + 1));
      }
    }
  }

  /** A character in front of text without blank lines makes none, unless both are line feeds. */
  lemma {:induction false} NoBlankLinesCons(c: char, rest: string)
    requires NoBlankLines(rest) && (c != '\n' || rest == [] || rest[0] != '\n')
    ensures NoBlankLines([c] + rest)
  {
    var r := [c] + rest;
    forall i | 0 <= i < |r| ensures !OccursAt(r, "\n\n", i) {
      if i + 2 <= |r| {
        if i == 0 {
          assert r[0..2][0] == c && r[0..2][1] == rest[0];
        } else {
          assert r[i..i + 2] == rest[i - 1..i + 1];
          assert !OccursAt(rest, "\n\n", i - 1);
        }
      }
    }
  }

  /**
    For text that neither starts nor ends with a line feed, joining the
    pieces of `split(/\n+/)` gives the text with every run of line feeds
    shortened to one: no piece is lost and none is invented.
  */
  lemma {:induction false} JoinSplitLinesCollapses(s: string)
    requires s == [] || (s[0] != '\n' && s[|s| - 1] != '\n')
    ensures JoinLines(SplitLines(s)) == CollapseBreaks(s)
  {
    JoinCollapseFrom(s, 0);
  }

  lemma {:induction false} JoinCollapseFrom(s: string, from: nat)
    requires from <= |s| && (from < |s| ==> s[from] != '\n') && (s != [] ==> s[|s| - 1] != '\n')
    ensures JoinLines(SplitLinesFrom(s, from)) == CollapseBreaksFrom(s, from)
    decreases |s| - from
  {
    var i := LineEnd(s, from);
    NoLineFeedBetween(s, from, i);
    if i == |s| {
      JoinCollapseLastLine(s, from);
    } else {
      var j := BreakEnd(s, i + 1);
      assert s[i] == '\n' && (j < |s| ==> s[j] != '\n');
      JoinCollapseFrom(s, j);
      JoinLinesStep(s, from);
      JoinCollapseStep(s, from, i, j);
    }
  }

  /** A line and the run of line feeds after it: what joining puts back is what collapsing leaves. */
  lemma {:induction false} JoinCollapseStep(s: string, from: nat, i: nat, j: nat)
    requires from <= i < |s| && s[i] == '\n' && '\n' !in s[from..i] && j == BreakEnd(s, i + 1)
    requires JoinLines(SplitLinesFrom(s, from)) == s[from..i] + "\n" + JoinLines(SplitLinesFrom(s, j))
    requires JoinLines(SplitLinesFrom(s, j)) == CollapseBreaksFrom(s, j)
    ensures JoinLines(SplitLinesFrom(s, from)) == CollapseBreaksFrom(s, from)
  {
    CollapseLine(s, from, i);
    CollapseRun(s, i, j);
  }

  /** A line that ends before the end of the text is the first piece, and the pieces after the line feeds that follow it come next. */
  lemma {:induction false} SplitLinesFromStep(s: string, from: nat)
    requires from <= |s| && LineEnd(s, from) < |s|
    ensures SplitLinesFrom(s, from) == [s[from..LineEnd(s, from)]] + SplitLinesFrom(s, BreakEnd(s, LineEnd(s, from) + 1))
  {
  }

  /** The last line has no line feed and is kept as it is. */
  lemma {:induction false} JoinCollapseLastLine(s: string, from: nat)
    requires from <= |s| && LineEnd(s, from) == |s| && '\n' !in s[from..]
    ensures JoinLines(SplitLinesFrom(s, from)) == CollapseBreaksFrom(s, from)
  {
    assert SplitLinesFrom(s, from) == [s[from..]];
    CollapseLine(s, from, |s|);
    assert s[from..|s|] + [] == s[from..];
  }

  /** Joining puts one line feed between the first line and the pieces after the run of line feeds that ends it. */
  lemma {:induction false} JoinLinesStep(s: string, from: nat)
    requires from <= |s| && LineEnd(s, from) < |s|
    ensures JoinLines(SplitLinesFrom(s, from)) ==
              s[from..LineEnd(s, from)] + "\n" + JoinLines(SplitLinesFrom(s, BreakEnd(s, LineEnd(s, from) + 1)))
  {
    var i := LineEnd(s, from);
    SplitLinesFromStep(s, from);
    JoinLinesCons(s[from..i], SplitLinesFrom(s, BreakEnd(s, i + 1)));
  }

  /** A stretch without line feeds from `from` up to `i` is kept as it is. */
  lemma {:induction false} CollapseLine(s: string, from: nat, i: nat)
    requires from <= i <= |s| && '\n' !in s[from..i]
    ensures CollapseBreaksFrom(s, from) == s[from..i] + CollapseBreaksFrom(s, i)
    decreases i - from
  {
    if from < i {
      assert s[from..i] == [s[from]] + s[from + 1..i];
      CollapseLine(s, from + 1, i);
    }
  }

  lemma {:induction false} NoLineFeedBetween(s: string, from: nat, i: nat)
    requires from <= i <= |s| && forall p :: from <= p < i ==> s[p] != '\n'
    ensures '\n' !in s[from..i]
  {
    forall p | 0 <= p < i - from ensures s[from..i][p] != '\n' {
      assert s[from..i][p] == s[from + p];
    }
  }

  /** A line feed at `i` and the run of line feeds after it, up to `j`, collapse to one. */
  lemma {:induction false} CollapseRun(s: string, i: nat, j: nat)
    requires i < |s| && s[i] == '\n' && j == BreakEnd(s, i + 1)
    ensures CollapseBreaksFrom(s, i) == "\n" + CollapseBreaksFrom(s, j)
    decreases |s| - i
  {
    if i + 1 < j {
      CollapseRun(s, i + 1, j);
    }
  }

  /** ASCII upper-case letters to lower case; every other character is unchanged (JavaScript's `/i` on ASCII patterns). */
  function Lower(c: char): char
  {
    if 'A' <= c <= 'Z' then (c as int + 32) as char else c
  }

  function Upper(c: char): char
  {
    if 'a' <= c <= 'z' then (c as int - 32) as char else c
  }

  /** `s` with every ASCII letter in lower case. */
  function LowerAll(s: string): (r: string)
    ensures |r| == |s| && forall i :: 0 <= i < |s| ==> r[i] == Lower(s[i])
  {
    seq(|s|, i requires 0 <= i < |s| => Lower(s[i]))
  }
}
