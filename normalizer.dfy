/**
  The normalizer of fusion-reactor-alert.js: a fixed chain of rewrites that
  undoes what e-mail transport does to the alert text. Each regular
  expression with the `g` flag becomes a left-to-right scan that rewrites a
  match and resumes after it, or keeps one character and moves on.
*/
module Normalizer {
  import opened JsText
  import opened Wrappers
  import opened Seqs

  const SpaceTab: set<char> := {' ', '\t'}

  /** `content.replace(/\r\n?|\n/g, "\n")`: `\r\n`, a lone `\r` and `\n` each become one `\n`. */
  function StandardizeLineBreaks(s: string): (r: string)
    ensures '\r' !in r
    ensures '\r' !in s ==> r == s
    ensures forall c :: c in r ==> c in s || c == '\n'
    decreases |s|
  {
    if s == [] then []
    else if s[0] == '\r' then
      "\n" + StandardizeLineBreaks(s[if |s| > 1 && s[1] == '\n' then 2 else 1..])
    else
      [s[0]] + StandardizeLineBreaks(s[1..])
  }

  /** Standardizing text cut after anything but a carriage return standardizes each part on its own. */
  lemma {:induction false} StandardizeConcat(a: string, b: string)
    requires a == [] || a[|a| - 1] != '\r'
    ensures StandardizeLineBreaks(a + b) == StandardizeLineBreaks(a) + StandardizeLineBreaks(b)
    decreases |a|
  {
    if a == [] {
      assert a + b == b;
    } else {
      var k := if a[0] == '\r' && |a| > 1 && a[1] == '\n' then 2 else 1;
      var h := if a[0] == '\r' then "\n" else [a[0]];
      StandardizeUnfold(a, k, h);
      assert (a + b)[0] == a[0];
      assert |a| > 1 ==> (a + b)[1] == a[1];
      DropConcat(a, b, k);
      StandardizeUnfold(a + b, k, h);
      StandardizeConcat(a[k..], b);
      ConcatAssoc(h, StandardizeLineBreaks(a[k..]), StandardizeLineBreaks(b));
    }
  }

  /** One step of the scan: the first line break or character, then the rest. */
  lemma {:induction false} StandardizeUnfold(s: string, k: nat, h: string)
    requires s != [] && k == (if s[0] == '\r' && |s| > 1 && s[1] == '\n' then 2 else 1)
    requires h == if s[0] == '\r' then "\n" else [s[0]]
    ensures StandardizeLineBreaks(s) == h + StandardizeLineBreaks(s[k..])
  {
  }

  /** A "\r\n" pair becomes one line feed. */
  lemma {:induction false} StandardizeCrLf(a: string, b: string)
    requires a == [] || a[|a| - 1] != '\r'
    ensures StandardizeLineBreaks(a + "\r\n" + b) == StandardizeLineBreaks(a) + "\n" + StandardizeLineBreaks(b)
  {
    var x := "\r\n" + b;
    assert a + "\r\n" + b == a + x;
    StandardizeAround(a, x, b, 2);
  }

  /** A carriage return without a line feed after it becomes one line feed. */
  lemma {:induction false} StandardizeLoneCr(a: string, b: string)
    requires a == [] || a[|a| - 1] != '\r'
    requires b == [] || b[0] != '\n'
    ensures StandardizeLineBreaks(a + "\r" + b) == StandardizeLineBreaks(a) + "\n" + StandardizeLineBreaks(b)
  {
    var x := "\r" + b;
    assert a + "\r" + b == a + x;
    StandardizeAround(a, x, b, 1);
  }

  /** A line feed not preceded by a carriage return stays one line feed. */
  lemma {:induction false} StandardizeLf(a: string, b: string)
    requires a == [] || a[|a| - 1] != '\r'
    ensures StandardizeLineBreaks(a + "\n" + b) == StandardizeLineBreaks(a) + "\n" + StandardizeLineBreaks(b)
  {
    var x := "\n" + b;
    assert a + "\n" + b == a + x;
    StandardizeAround(a, x, b, 1);
  }

  /** A line break of `k` characters between `a` and `b` becomes one line feed. */
  lemma {:induction false} StandardizeAround(a: string, x: string, b: string, k: nat)
    requires a == [] || a[|a| - 1] != '\r'
    requires 0 < k <= 2 && k <= |x| && x[k..] == b
    requires k == 1 ==> x[0] == '\n' || (x[0] == '\r' && (b == [] || b[0] != '\n'))
    requires k == 2 ==> x[0] == '\r' && x[1] == '\n'
    ensures StandardizeLineBreaks(a + x) == StandardizeLineBreaks(a) + "\n" + StandardizeLineBreaks(b)
  {
    StandardizeConcat(a, x);
    StandardizeBreakAhead(x, b, k);
    ConcatAssoc(StandardizeLineBreaks(a), "\n", StandardizeLineBreaks(b));
  }

  /** Text that opens with a line break of `k` characters standardizes to a line feed and the rest. */
  lemma {:induction false} StandardizeBreakAhead(x: string, b: string, k: nat)
    requires 0 < k <= 2 && k <= |x| && x[k..] == b
    requires k == 1 ==> x[0] == '\n' || (x[0] == '\r' && (b == [] || b[0] != '\n'))
    requires k == 2 ==> x[0] == '\r' && x[1] == '\n'
    ensures StandardizeLineBreaks(x) == "\n" + StandardizeLineBreaks(b)
  {
  }

  /**
    `content.replace(/^[ \t]+|[ \t]+$/gm, "")`: every line loses its leading
    and trailing spaces and tabs, and the line terminators stay where they are.
    `StripLinesOneLine` and `StripLinesNextLine` pin it down line by line:
    each line becomes its `TrimSet` by spaces and tabs.
  */
  function StripLines(s: string): (r: string)
    ensures forall c :: c in r ==> c in s
    decreases |s|
  {
    var i := Run(s, LineTerminators, false);
    if i == |s| then
      TrimSet(s, SpaceTab)
    else
      var line, rest := TrimSet(s[..i], SpaceTab), StripLines(s[i + 1..]);
      assert forall c :: c in s[..i] ==> c in s;
      assert forall c :: c in s[i + 1..] ==> c in s;
      line + [s[i]] + rest
  }

  function IsLineTerminator(c: char): bool { c in LineTerminators }

  /** Text without a line terminator is one line, and becomes its trimmed self. */
  lemma StripLinesOneLine(s: string)
    requires forall c :: c in s ==> c !in LineTerminators
    ensures StripLines(s) == TrimSet(s, SpaceTab)
  {
    RunLength(s, LineTerminators, false, |s|);
  }

  /** The first line becomes its trimmed self, its terminator stays, and the rest is stripped on its own. */
  lemma StripLinesNextLine(a: string, t: char, b: string)
    requires forall c :: c in a ==> c !in LineTerminators
    requires t in LineTerminators
    ensures StripLines(a + [t] + b) == TrimSet(a, SpaceTab) + [t] + StripLines(b)
  {
    var s := a + [t] + b;
    assert forall i :: 0 <= i < |a| ==> s[i] == a[i];
    RunLength(s, LineTerminators, false, |a|);
    assert s[..|a|] == a && s[|a| + 1..] == b;
  }

  /** No line of `r` starts or ends with a space or a tab. */
  predicate LinesStripped(r: string)
  {
    forall i :: 0 <= i < |r| && r[i] in SpaceTab ==>
      0 < i < |r| - 1 && r[i - 1] !in LineTerminators && r[i + 1] !in LineTerminators
  }

  /** Every line of the result is stripped. */
  lemma {:induction false} StripLinesStripsEveryLine(s: string)
    ensures LinesStripped(StripLines(s))
    decreases |s|
  {
    var i := Run(s, LineTerminators, false);
    var line := TrimSet(s[..i], SpaceTab);
    LineHasNoTerminator(s, i, line);
    if i == |s| {
      assert StripLines(s) == line + [] by {
        assert s[..i] == s;
      }
      StrippedLine(line);
    } else {
      StripLinesStripsEveryLine(s[i + 1..]);
      StrippedLines(line, s[i], StripLines(s[i + 1..]));
    }
  }

  lemma LineHasNoTerminator(s: string, i: nat, line: string)
    requires i == Run(s, LineTerminators, false) && line == TrimSet(s[..i], SpaceTab)
    ensures forall c :: c in line ==> c !in LineTerminators
  {
    assert forall c :: c in s[..i] ==> c !in LineTerminators;
  }

  lemma StrippedLine(line: string)
    requires forall c :: c in line ==> c !in LineTerminators
    requires line == [] || (line[0] !in SpaceTab && line[|line| - 1] !in SpaceTab)
    ensures LinesStripped(line)
  {
  }

  lemma StrippedLines(line: string, t: char, rest: string)
    requires forall c :: c in line ==> c !in LineTerminators
    requires line == [] || (line[0] !in SpaceTab && line[|line| - 1] !in SpaceTab)
    requires t in LineTerminators && LinesStripped(rest)
    ensures LinesStripped(line + [t] + rest)
  {
    var r := line + [t] + rest;
    forall i | 0 <= i < |r| && r[i] in SpaceTab
      ensures 0 < i < |r| - 1 && r[i - 1] !in LineTerminators && r[i + 1] !in LineTerminators
    {
      if i < |line| {
        assert r[i] == line[i] && r[i + 1] == (line + [t])[i + 1];
        assert r[i - 1] == line[i - 1] && r[i + 1] == line[i + 1];
      } else {
        var j := i - |line| - 1;
        assert r[i] == rest[j];
        assert r[i - 1] == rest[j - 1] && r[i + 1] == rest[j + 1];
      }
    }
  }

  /** The line terminators of `s` are all in the result, in order, and it has no others. */
  lemma {:induction false} StripLinesKeepsTerminators(s: string)
    ensures Filter(StripLines(s), IsLineTerminator) == Filter(s, IsLineTerminator)
    decreases |s|
  {
    var i := Run(s, LineTerminators, false);
    var line := TrimSet(s[..i], SpaceTab);
    LineHasNoTerminator(s, i, line);
    NoTerminatorFiltered(line);
    NoTerminatorFiltered(s[..i]);
    if i == |s| {
      assert s[..i] == s;
    } else {
      var rest := s[i + 1..];
      StripLinesKeepsTerminators(rest);
      SplitAround(s, i);
      assert StripLines(s) == line + [s[i]] + StripLines(rest);
      FilterAround(s[..i], line, s[i], rest, StripLines(rest), IsLineTerminator);
    }
  }

  lemma NoTerminatorFiltered(s: string)
    requires forall c :: c in s ==> c !in LineTerminators
    ensures Filter(s, IsLineTerminator) == []
  {
    FilterEmpty(s, IsLineTerminator);
  }

  function IsNotSpaceTab(c: char): bool { c !in SpaceTab }

  /**
    Stripping removes only spaces and tabs: every other character of `s`,
    line text and terminators alike, is in the result, in the same order.
  */
  lemma {:induction false} StripLinesKeepsText(s: string)
    ensures Filter(StripLines(s), IsNotSpaceTab) == Filter(s, IsNotSpaceTab)
    decreases |s|
  {
    var i := Run(s, LineTerminators, false);
    var line := TrimSet(s[..i], SpaceTab);
    TrimKeepsText(s[..i]);
    if i == |s| {
      assert s[..i] == s;
    } else {
      var rest := s[i + 1..];
      StripLinesKeepsText(rest);
      SplitAround(s, i);
      assert StripLines(s) == line + [s[i]] + StripLines(rest);
      FilterAround(s[..i], line, s[i], rest, StripLines(rest), IsNotSpaceTab);
    }
  }

  /** Trimming spaces and tabs off one line keeps all its other characters, in order. */
  lemma TrimKeepsText(x: string)
    ensures Filter(TrimSet(x, SpaceTab), IsNotSpaceTab) == Filter(x, IsNotSpaceTab)
  {
    TrimSetCutsOnlySet(x, SpaceTab);
    var k :| PieceBetween(x, SpaceTab, TrimSet(x, SpaceTab), k);
    PieceKeepsText(x, TrimSet(x, SpaceTab), k);
  }

  /** A piece of `x` with only spaces and tabs around it keeps all other characters of `x`, in order. */
  lemma PieceKeepsText(x: string, r: string, k: int)
    requires PieceBetween(x, SpaceTab, r, k)
    ensures Filter(r, IsNotSpaceTab) == Filter(x, IsNotSpaceTab)
  {
    var pre, post := x[..k], x[k + |r|..];
    assert x == pre + r + post;
    FilterEmpty(pre, IsNotSpaceTab);
    FilterEmpty(post, IsNotSpaceTab);
    FilterInside(pre, r, post, IsNotSpaceTab);
  }

  /** The global rewrites of the chain that need no line context. */
  datatype Rewrite =
    | Literal(pattern: string, replacement: string)  // a literal pattern and its replacement
    | NativeMethod                                  // /\[Native\s+Method\]/g -> "[Native Method]"
    | WrappedThreadName                             // /(FusionReactor Web Server \([^\n)]+)\n([^)\n]+\))/g -> "$1 $2"
    | WrappedUserAgent                              // /(User Agent:)([^\n]+)(?:\n)([^\s][^\n]*)/g -> "$1$2 $3"

  const ThreadNamePrefix := "FusionReactor Web Server ("
  const UserAgentLabel := "User Agent:"

  /** The characters a rewrite may put into the text that were not already there. */
  function Inserted(rule: Rewrite): string
  {
    match rule
    case Literal(_, replacement) => replacement
    case NativeMethod => "[Native Method]"
    case _ => " "
  }

  /**
    The match of `rule` at the start of `s`, if any: its length (at least one
    character) and the text that replaces it. The greedy runs of the source's
    patterns never need to give back a character, so each is the maximal run.
  */
  function MatchAt(rule: Rewrite, s: string): (m: Option<(nat, string)>)
    ensures m.Some? ==> 0 < m.value.0 <= |s|
    ensures m.Some? ==> forall c :: c in m.value.1 ==> c in s || c in Inserted(rule)
  {
    match rule
    case Literal(pattern, replacement) =>
      if pattern != [] && OccursAt(s, pattern, 0) then Some((|pattern|, replacement)) else None
    case NativeMethod => NativeMethodAt(s)
    case WrappedThreadName => WrappedThreadNameAt(s)
    case WrappedUserAgent => WrappedUserAgentAt(s)
  }

  /** `\[Native\s+Method\]` at the start of `s`. */
  function NativeMethodAt(s: string): (m: Option<(nat, string)>)
    ensures m.Some? ==> 0 < m.value.0 <= |s| && m.value.1 == "[Native Method]"
  {
    if !OccursAt(s, "[Native", 0) then None
    else
      var w := Run(s[7..], Whitespace, true);
      if w > 0 && OccursAt(s, "Method]", 7 + w) then Some((14 + w, "[Native Method]")) else None
  }

  /** `s` starts with `[Native`, a run of `w` whitespace characters and `Method]`. */
  predicate NativeMethodShape(s: string, w: int)
  {
    0 < w && OccursAt(s, "[Native", 0) && OccursAt(s, "Method]", 7 + w)
    && forall i :: 7 <= i < 7 + w ==> s[i] in Whitespace
  }

  /** A match of the marker pattern is exactly that shape, and every such shape is matched whole. */
  lemma NativeMethodAtMatchesShape(s: string)
    ensures NativeMethodAt(s).Some? ==> NativeMethodShape(s, NativeMethodAt(s).value.0 - 14)
    ensures forall w :: NativeMethodShape(s, w) ==> NativeMethodAt(s) == Some((14 + w, "[Native Method]"))
  {
    if OccursAt(s, "[Native", 0) {
      RunEnds(s, Whitespace, true, 7);
      forall w | NativeMethodShape(s, w)
        ensures NativeMethodAt(s) == Some((14 + w, "[Native Method]"))
      {
        assert s[7 + w] == "Method]"[0];
        RunEndsAt(s, Whitespace, true, 7, 7 + w);
      }
    }
  }

  /** The characters that end each of the two runs of a wrapped thread name. */
  const ThreadNameStops: set<char> := {'\n', ')'}

  /** `(FusionReactor Web Server \([^\n)]+)\n([^)\n]+\))` at the start of `s`, with the line feed turned into a space. */
  function WrappedThreadNameAt(s: string): (m: Option<(nat, string)>)
    ensures m.Some? ==> 0 < m.value.0 <= |s| && forall c :: c in m.value.1 ==> c in s || c == ' '
  {
    var p := |ThreadNamePrefix|;
    if !OccursAt(s, ThreadNamePrefix, 0) then None
    else
      var a := Run(s[p..], ThreadNameStops, false);
      if a == 0 || p + a == |s| || s[p + a] != '\n' then None
      else
        var b := Run(s[p + a + 1..], ThreadNameStops, false);
        var n := p + a + 1 + b;
        if b == 0 || n == |s| || s[n] != ')' then None
        else
          var head, tail := s[..p + a], s[p + a + 1..n + 1];
          assert forall c :: c in head ==> c in s;
          assert forall c :: c in tail ==> c in s;
          Some((n + 1, head + " " + tail))
  }

  /**
    `s` starts with `FusionReactor Web Server (` and a non-empty run free of
    line feeds and `)`; the line feed that wraps the name is at `k`; then
    another such non-empty run and the `)` that ends the match at `n`.
  */
  predicate ThreadNameShape(s: string, k: int, n: int)
  {
    |ThreadNamePrefix| < k && k + 2 < n <= |s| && OccursAt(s, ThreadNamePrefix, 0)
    && s[k] == '\n' && s[n - 1] == ')'
    && (forall i :: |ThreadNamePrefix| <= i < k ==> s[i] !in ThreadNameStops)
    && (forall i :: k < i < n - 1 ==> s[i] !in ThreadNameStops)
  }

  /**
    A match of the thread-name pattern is exactly that shape, and its
    replacement is the matched text with the wrapping line feed turned into a
    space; every such shape is matched whole.
  */
  lemma WrappedThreadNameAtMatchesShape(s: string)
    ensures WrappedThreadNameAt(s).Some? ==>
      var (n, rep) := WrappedThreadNameAt(s).value;
      exists k :: ThreadNameShape(s, k, n) && rep == s[..k] + " " + s[k + 1..n]
    ensures forall k, n :: ThreadNameShape(s, k, n) ==> WrappedThreadNameAt(s) == Some((n, s[..k] + " " + s[k + 1..n]))
  {
    if WrappedThreadNameAt(s).Some? {
      ThreadNameFound(s);
    }
    forall k, n | ThreadNameShape(s, k, n)
      ensures WrappedThreadNameAt(s) == Some((n, s[..k] + " " + s[k + 1..n]))
    {
      ThreadNameUnique(s, k, n);
    }
  }

  lemma ThreadNameFound(s: string)
    requires WrappedThreadNameAt(s).Some?
    ensures var (n, rep) := WrappedThreadNameAt(s).value;
      exists k :: ThreadNameShape(s, k, n) && rep == s[..k] + " " + s[k + 1..n]
  {
    var p := |ThreadNamePrefix|;
    var k := p + Run(s[p..], ThreadNameStops, false);
    var n := k + 2 + Run(s[k + 1..], ThreadNameStops, false);
    assert p < k && k + 2 < n <= |s| && OccursAt(s, ThreadNamePrefix, 0) && s[k] == '\n' && s[n - 1] == ')';
    ThreadNameMatch(s, k, n);
    ThreadNameRuns(s, k, n);
  }

  /** The two runs `WrappedThreadNameAt` scans, ended by a line feed at `k` and a `)` at `n - 1`, make the shape. */
  lemma ThreadNameRuns(s: string, k: int, n: int)
    requires |ThreadNamePrefix| < k && k + 2 < n <= |s| && OccursAt(s, ThreadNamePrefix, 0)
    requires s[k] == '\n' && s[n - 1] == ')'
    requires k == |ThreadNamePrefix| + Run(s[|ThreadNamePrefix|..], ThreadNameStops, false)
    requires n == k + 2 + Run(s[k + 1..], ThreadNameStops, false)
    ensures ThreadNameShape(s, k, n)
  {
    RunEnds(s, ThreadNameStops, false, |ThreadNamePrefix|);
    RunEnds(s, ThreadNameStops, false, k + 1);
  }

  /** Two runs ended by a line feed at `k` and a `)` at `n - 1` are what `WrappedThreadNameAt` matches. */
  lemma ThreadNameMatch(s: string, k: int, n: int)
    requires |ThreadNamePrefix| < k && k + 2 < n <= |s| && OccursAt(s, ThreadNamePrefix, 0)
    requires s[k] == '\n' && s[n - 1] == ')'
    requires k == |ThreadNamePrefix| + Run(s[|ThreadNamePrefix|..], ThreadNameStops, false)
    requires n == k + 2 + Run(s[k + 1..], ThreadNameStops, false)
    ensures WrappedThreadNameAt(s) == Some((n, s[..k] + " " + s[k + 1..n]))
  {
    var a, b := k - |ThreadNamePrefix|, n - k - 2;
    assert a != 0 && s[|ThreadNamePrefix| + a] == '\n';
    assert b != 0 && s[|ThreadNamePrefix| + a + 1 + b] == ')';
  }

  lemma ThreadNameUnique(s: string, k: int, n: int)
    requires ThreadNameShape(s, k, n)
    ensures WrappedThreadNameAt(s) == Some((n, s[..k] + " " + s[k + 1..n]))
  {
    var p := |ThreadNamePrefix|;
    RunEndsAt(s, ThreadNameStops, false, p, k);
    RunEndsAt(s, ThreadNameStops, false, k + 1, n - 1);
    ThreadNameMatch(s, k, n);
  }

  /** `(User Agent:)([^\n]+)(?:\n)([^\s][^\n]*)` at the start of `s`, with the line feed turned into a space. */
  function WrappedUserAgentAt(s: string): (m: Option<(nat, string)>)
    ensures m.Some? ==> 0 < m.value.0 <= |s| && forall c :: c in m.value.1 ==> c in s || c == ' '
  {
    var p := |UserAgentLabel|;
    if !OccursAt(s, UserAgentLabel, 0) then None
    else
      var a := Run(s[p..], {'\n'}, false);
      if a == 0 || p + a + 1 >= |s| || s[p + a + 1] in Whitespace then None
      else
        var b := Run(s[p + a + 2..], {'\n'}, false);
        var n := p + a + 2 + b;
        var head, tail := s[..p + a], s[p + a + 1..n];
        assert forall c :: c in head ==> c in s;
        assert forall c :: c in tail ==> c in s;
        Some((n, head + " " + tail))
  }

  /**
    `s` starts with `User Agent:` and a non-empty run free of line feeds; the
    line feed that wraps the agent is at `k` and is followed by a character
    that is not whitespace; the match then runs up to the next line feed or
    the end of the text, at `n`.
  */
  predicate UserAgentShape(s: string, k: int, n: int)
  {
    |UserAgentLabel| < k && k + 1 < n <= |s| && OccursAt(s, UserAgentLabel, 0)
    && s[k] == '\n' && s[k + 1] !in Whitespace
    && (forall i :: |UserAgentLabel| <= i < k ==> s[i] != '\n')
    && (forall i :: k + 1 < i < n ==> s[i] != '\n')
    && (n == |s| || s[n] == '\n')
  }

  /**
    A match of the user-agent pattern is exactly that shape, and its
    replacement is the matched text with the wrapping line feed turned into a
    space; every such shape is matched whole.
  */
  lemma WrappedUserAgentAtMatchesShape(s: string)
    ensures WrappedUserAgentAt(s).Some? ==>
      var (n, rep) := WrappedUserAgentAt(s).value;
      exists k :: UserAgentShape(s, k, n) && rep == s[..k] + " " + s[k + 1..n]
    ensures forall k, n :: UserAgentShape(s, k, n) ==> WrappedUserAgentAt(s) == Some((n, s[..k] + " " + s[k + 1..n]))
  {
    if WrappedUserAgentAt(s).Some? {
      UserAgentFound(s);
    }
    forall k, n | UserAgentShape(s, k, n)
      ensures WrappedUserAgentAt(s) == Some((n, s[..k] + " " + s[k + 1..n]))
    {
      UserAgentUnique(s, k, n);
    }
  }

  lemma UserAgentFound(s: string)
    requires WrappedUserAgentAt(s).Some?
    ensures var (n, rep) := WrappedUserAgentAt(s).value;
      exists k :: UserAgentShape(s, k, n) && rep == s[..k] + " " + s[k + 1..n]
  {
    var p := |UserAgentLabel|;
    var k := p + Run(s[p..], {'\n'}, false);
    var n := k + 2 + Run(s[k + 2..], {'\n'}, false);
    assert p < k && k + 1 < n <= |s| && OccursAt(s, UserAgentLabel, 0) && s[k + 1] !in Whitespace;
    UserAgentMatch(s, k, n);
    UserAgentRuns(s, k, n);
  }

  /** The two runs `WrappedUserAgentAt` scans, with a character that is not whitespace after the first, make the shape. */
  lemma UserAgentRuns(s: string, k: int, n: int)
    requires |UserAgentLabel| < k && k + 1 < n <= |s| && OccursAt(s, UserAgentLabel, 0) && s[k + 1] !in Whitespace
    requires k == |UserAgentLabel| + Run(s[|UserAgentLabel|..], {'\n'}, false)
    requires n == k + 2 + Run(s[k + 2..], {'\n'}, false)
    ensures UserAgentShape(s, k, n)
  {
    RunEnds(s, {'\n'}, false, |UserAgentLabel|);
    RunEnds(s, {'\n'}, false, k + 2);
  }

  /** Two runs split by the line feed at `k`, with a character that is not whitespace after it, are what `WrappedUserAgentAt` matches. */
  lemma UserAgentMatch(s: string, k: int, n: int)
    requires |UserAgentLabel| < k && k + 1 < n <= |s| && OccursAt(s, UserAgentLabel, 0) && s[k + 1] !in Whitespace
    requires k == |UserAgentLabel| + Run(s[|UserAgentLabel|..], {'\n'}, false)
    requires n == k + 2 + Run(s[k + 2..], {'\n'}, false)
    ensures WrappedUserAgentAt(s) == Some((n, s[..k] + " " + s[k + 1..n]))
  {
    var a, b := k - |UserAgentLabel|, n - k - 2;
    assert a != 0 && |UserAgentLabel| + a + 1 < |s| && s[|UserAgentLabel| + a + 1] !in Whitespace;
    assert |UserAgentLabel| + a + 2 + b == n;
  }

  lemma UserAgentUnique(s: string, k: int, n: int)
    requires UserAgentShape(s, k, n)
    ensures WrappedUserAgentAt(s) == Some((n, s[..k] + " " + s[k + 1..n]))
  {
    RunEndsAt(s, {'\n'}, false, |UserAgentLabel|, k);
    RunEndsAt(s, {'\n'}, false, k + 2, n);
    UserAgentMatch(s, k, n);
  }

  /**
    `s.replace(<rule>, ...)` with the `g` flag: the text changes only where
    the rule matches, and it gains no character beyond the rule's own.
  */
  function ReplaceEvery(s: string, rule: Rewrite): (r: string)
    ensures forall c :: c in r ==> c in s || c in Inserted(rule)
    ensures (forall j :: 0 <= j <= |s| ==> MatchAt(rule, s[j..]).None?) ==> r == s
    decreases |s|
  {
    if s == [] then []
    else
      assert s[0..] == s;
      match MatchAt(rule, s)
      case Some((n, rep)) => rep + ReplaceEvery(s[n..], rule)
      case None =>
        var rest := ReplaceEvery(s[1..], rule);
        assert forall j :: 0 <= j <= |s| - 1 ==> s[1..][j..] == s[j + 1..];
        assert forall c :: c in s[1..] ==> c in s;
        [s[0]] + rest
  }

  /** Where the rule matches at the start, its replacement comes first and the scan resumes after the match. */
  lemma ReplaceEveryAtMatch(s: string, rule: Rewrite)
    requires s != [] && MatchAt(rule, s).Some?
    ensures ReplaceEvery(s, rule) == MatchAt(rule, s).value.1 + ReplaceEvery(s[MatchAt(rule, s).value.0..], rule)
  {
    assert s[0..] == s;
  }

  /** Where the rule does not match at the start, the first character is kept and the scan moves on one. */
  lemma ReplaceEveryNoMatch(s: string, rule: Rewrite)
    requires s != [] && MatchAt(rule, s).None?
    ensures ReplaceEvery(s, rule) == [s[0]] + ReplaceEvery(s[1..], rule)
  {
    assert s[0..] == s;
  }

  /** Up to the first position where the rule matches, the text is copied as it is. */
  lemma {:induction false} ReplaceEveryCopiesUntouched(s: string, rule: Rewrite, j: nat)
    requires j <= |s| && forall i :: 0 <= i < j ==> MatchAt(rule, s[i..]).None?
    ensures ReplaceEvery(s, rule) == s[..j] + ReplaceEvery(s[j..], rule)
    decreases j
  {
    if j == 0 {
      assert s[..0] + ReplaceEvery(s[0..], rule) == ReplaceEvery(s, rule) by {
        assert s[0..] == s;
      }
    } else {
      assert MatchAt(rule, s[0..]).None?;
      assert s[0..] == s;
      var t := s[1..];
      forall i | 0 <= i < j - 1
        ensures MatchAt(rule, t[i..]).None?
      {
        assert t[i..] == s[i + 1..];
      }
      ReplaceEveryCopiesUntouched(t, rule, j - 1);
      CopiedStep(s, rule, j);
    }
  }

  /** One copied character in front of a copied stretch of the rest. */
  lemma CopiedStep(s: string, rule: Rewrite, j: nat)
    requires 0 < j <= |s| && MatchAt(rule, s).None?
    requires ReplaceEvery(s[1..], rule) == s[1..][..j - 1] + ReplaceEvery(s[1..][j - 1..], rule)
    ensures ReplaceEvery(s, rule) == s[..j] + ReplaceEvery(s[j..], rule)
  {
    var t := s[1..];
    TakeDropTail(s, j);
    ReplaceEveryNoMatch(s, rule);
    ConcatAssoc([s[0]], t[..j - 1], ReplaceEvery(s[j..], rule));
  }

  /** The rewrite that rejoins a URL wrapped onto the next line. */
  const UrlRule := Literal("\nhttp", " http")

  /** After the URL rewrite, no line starts with "http": every wrapped URL is rejoined. */
  lemma {:induction false} UrlsRejoined(s: string)
    ensures forall i :: !OccursAt(ReplaceEvery(s, UrlRule), "\nhttp", i)
    decreases |s|
  {
    if s != [] {
      UrlMatchAt(s);
      if OccursAt(s, "\nhttp", 0) {
        ReplaceEveryAtMatch(s, UrlRule);
        UrlsRejoined(s[5..]);
        NoUrlBreakAfterSpace(ReplaceEvery(s[5..], UrlRule));
      } else {
        ReplaceEveryNoMatch(s, UrlRule);
        UrlsRejoined(s[1..]);
        ReplacedStartsWith(s[1..], "http");
        OccursAtHead(s, "\nhttp");
        assert "\nhttp"[1..] == "http";
        NoUrlBreakAfterChar(s[0], ReplaceEvery(s[1..], UrlRule));
      }
    }
  }

  /** The URL rule matches exactly where "\nhttp" occurs, and always replaces five characters by " http". */
  lemma UrlMatchAt(s: string)
    ensures MatchAt(UrlRule, s) == if OccursAt(s, "\nhttp", 0) then Some((5, " http")) else None
  {
  }

  lemma NoUrlBreakAfterSpace(rest: string)
    requires forall i :: !OccursAt(rest, "\nhttp", i)
    ensures forall i :: !OccursAt(" http" + rest, "\nhttp", i)
  {
    var r := " http" + rest;
    forall i | 0 <= i < 5 && i + 5 <= |r|
      ensures !OccursAt(r, "\nhttp", i)
    {
      assert r[i..i + 5][0] == r[i] == " http"[i];
    }
    forall i | 5 <= i && i + 5 <= |r|
      ensures !OccursAt(r, "\nhttp", i)
    {
      assert r[i..i + 5] == rest[i - 5..i];
      assert !OccursAt(rest, "\nhttp", i - 5);
    }
  }

  lemma NoUrlBreakAfterChar(c: char, rest: string)
    requires forall i :: !OccursAt(rest, "\nhttp", i)
    requires c == '\n' ==> !OccursAt(rest, "http", 0)
    ensures forall i :: !OccursAt([c] + rest, "\nhttp", i)
  {
    var r := [c] + rest;
    OccursAtHead(r, "\nhttp");
    assert r[1..] == rest && "\nhttp"[1..] == "http";
    forall i | 1 <= i && i + 5 <= |r|
      ensures !OccursAt(r, "\nhttp", i)
    {
      assert r[i..i + 5] == rest[i - 1..i + 4];
      assert !OccursAt(rest, "\nhttp", i - 1);
    }
  }

  /** A text starts with `w` exactly when its first character is `w`'s and the rest starts with the rest of `w`. */
  lemma OccursAtHead(x: string, w: string)
    requires x != [] && w != []
    ensures OccursAt(x, w, 0) <==> x[0] == w[0] && OccursAt(x[1..], w[1..], 0)
  {
    if |w| <= |x| {
      assert x[..|w|] == [x[0]] + x[1..][..|w| - 1];
      assert w == [w[0]] + w[1..];
    }
  }

  /** Text that the URL rewrite turns into something starting with `w`, a text without spaces, already started with `w`. */
  lemma {:induction false} ReplacedStartsWith(t: string, w: string)
    requires ' ' !in w
    ensures OccursAt(ReplaceEvery(t, UrlRule), w, 0) ==> OccursAt(t, w, 0)
    decreases |w|
  {
    if w != [] && t != [] {
      var r := ReplaceEvery(t, UrlRule);
      UrlMatchAt(t);
      assert w[0] in w;
      OccursAtHead(t, w);
      if OccursAt(t, "\nhttp", 0) {
        ReplaceEveryAtMatch(t, UrlRule);
        assert r[0] == ' ';
        OccursAtHead(r, w);
      } else {
        ReplaceEveryNoMatch(t, UrlRule);
        assert r[0] == t[0] && r[1..] == ReplaceEvery(t[1..], UrlRule);
        OccursAtHead(r, w);
        assert forall c :: c in w[1..] ==> c in w;
        ReplacedStartsWith(t[1..], w[1..]);
      }
    }
  }

  /**
    normalizeEmailContent: trim, standardize line breaks, strip every line,
    rejoin wrapped URLs, `[Native Method]` markers, FusionReactor thread names
    and user agents, and drop streaming notes. The result has no carriage
    return: the second step removes them all and no later step adds one.
  */
  function NormalizeEmailContent(emailContent: string): (content: string)
    ensures '\r' !in content
  {
    var trimmed := Trim(emailContent);
    var lines := StandardizeLineBreaks(trimmed);
    var stripped := StripLines(lines);
    assert '\r' !in stripped;
    NoRewriteInsertsCarriageReturn();
    var urls := ReplaceEvery(stripped, UrlRule);
    assert '\r' !in urls;
    var natives := ReplaceEvery(urls, NativeMethod);
    assert '\r' !in natives;
    var threadNames := ReplaceEvery(natives, WrappedThreadName);
    assert '\r' !in threadNames;
    var userAgents := ReplaceEvery(threadNames, WrappedUserAgent);
    assert '\r' !in userAgents;
    ReplaceEvery(userAgents, Literal("[Note: Data is still streaming]", ""))
  }

  /** None of the chain's rewrites puts a carriage return into the text. */
  lemma NoRewriteInsertsCarriageReturn()
    ensures '\r' !in Inserted(UrlRule) && '\r' !in Inserted(NativeMethod)
    ensures '\r' !in Inserted(WrappedThreadName) && '\r' !in Inserted(WrappedUserAgent)
    ensures '\r' !in Inserted(Literal("[Note: Data is still streaming]", ""))
  {
  }
}
