/**
  The sectionizer and record splitter of fusion-reactor-alert.js: cutting the
  normalized text into the thread section and the running-requests section,
  and each section into records.
*/
module Sections {
  import opened JsText

  const ThreadsAnchor := "JVM Stack Trace"
  const RequestsAnchor := "Running Requests (Full Details)"
  const RequestStart := "Request ID:"
  const ThreadStart := "JVM ID:"
  const ThreadDivider := "---------"

  /** `p` is the first position where `pat` occurs in `s`. */
  predicate FirstOccurrence(s: string, pat: string, p: int)
  {
    OccursAt(s, pat, p) && forall j :: 0 <= j < p ==> !OccursAt(s, pat, j)
  }

  /** Length of the match of `/JVM Stack Trace\s+-+/` at the start of `s`, or 0 when it does not match there. */
  function HeaderMatch(s: string): (n: nat)
    ensures n == 0 || (|ThreadsAnchor| < n <= |s| && OccursAt(s, ThreadsAnchor, 0))
  {
    if !OccursAt(s, ThreadsAnchor, 0) then 0
    else
      var w := Run(s[15..], Whitespace, true);
      var d := Run(s[15 + w..], {'-'}, true);
      if w == 0 || d == 0 then 0 else 15 + w + d
  }

  /**
    `s` starts with "JVM Stack Trace", a run of `w` whitespace characters and
    a run of dashes that ends at `n`, with no dash after it.
  */
  predicate HeaderShape(s: string, w: int, n: int)
  {
    OccursAt(s, ThreadsAnchor, 0) && 0 < w && 15 + w < n <= |s|
    && (forall i :: 15 <= i < 15 + w ==> s[i] in Whitespace)
    && (forall i :: 15 + w <= i < n ==> s[i] == '-')
    && (n == |s| || s[n] != '-')
  }

  /** A match of the header pattern is exactly that shape, and every such shape is matched whole. */
  lemma HeaderMatchShape(s: string)
    ensures HeaderMatch(s) > 0 ==> exists w :: HeaderShape(s, w, HeaderMatch(s))
    ensures forall w, n :: HeaderShape(s, w, n) ==> HeaderMatch(s) == n
  {
    if HeaderMatch(s) > 0 {
      RunEnds(s, Whitespace, true, 15);
      var w := Run(s[15..], Whitespace, true);
      RunEnds(s, {'-'}, true, 15 + w);
      assert HeaderShape(s, w, HeaderMatch(s));
    }
    forall w, n | HeaderShape(s, w, n)
      ensures HeaderMatch(s) == n
    {
      HeaderUnique(s, w, n);
    }
  }

  lemma HeaderUnique(s: string, w: int, n: int)
    requires HeaderShape(s, w, n)
    ensures HeaderMatch(s) == n
  {
    RunEndsAt(s, Whitespace, true, 15, 15 + w);
    RunEndsAt(s, {'-'}, true, 15 + w, n);
  }

  /** The header pattern matches at position `p` of `s`. */
  predicate HeaderAt(s: string, p: int)
  {
    0 <= p <= |s| && HeaderMatch(s[p..]) > 0
  }

  /** The first position at or after `from` where the header pattern matches, or -1. */
  function FirstHeader(s: string, from: nat): (p: int)
    requires from <= |s|
    ensures p == -1 || (from <= p && HeaderAt(s, p))
    ensures forall q :: from <= q && (p == -1 || q < p) ==> !HeaderAt(s, q)
    decreases |s| - from
  {
    if HeaderAt(s, from) then from
    else if from == |s| then -1
    else FirstHeader(s, from + 1)
  }

  /**
    `s.replace(/JVM Stack Trace\s+-+/, "")`: the first match of the header
    pattern is cut out, so the text changes exactly when the pattern matches
    somewhere.
  */
  function StripThreadsHeader(s: string): (r: string)
    ensures |r| <= |s|
    ensures r == s <==> forall q :: 0 <= q <= |s| ==> !HeaderAt(s, q)
  {
    var p := FirstHeader(s, 0);
    if p < 0 then s else s[..p] + s[p + HeaderMatch(s[p..])..]
  }

  /** Where the header pattern first matches at `p`, exactly that match is cut out and the rest is kept. */
  lemma StripThreadsHeaderCutsFirstMatch(s: string, p: int)
    requires HeaderAt(s, p) && forall q :: 0 <= q < p ==> !HeaderAt(s, q)
    ensures StripThreadsHeader(s) == s[..p] + s[p + HeaderMatch(s[p..])..]
  {
    FirstHeaderFindsFirstMatch(s, p);
  }

  lemma FirstHeaderFindsFirstMatch(s: string, p: int)
    requires HeaderAt(s, p) && forall q :: 0 <= q < p ==> !HeaderAt(s, q)
    ensures FirstHeader(s, 0) == p
  {
  }

  /**
    extractJavaThreadsSection: the text from the first "JVM Stack Trace" up to
    the first "Running Requests (Full Details)", header removed.
  */
  function JavaThreadsSection(content: string): (r: string)
    ensures exists i, j :: 0 <= i <= j <= |content| && r == StripThreadsHeader(content[i..j])
  {
    var startOfSection := IndexOf(content, ThreadsAnchor);
    var endOfSection := IndexOf(content, RequestsAnchor);
    var section := Slice(content, startOfSection, endOfSection);
    var i := SlicePosition(startOfSection, |content|);
    assert section == content[i..i + |section|];
    StripThreadsHeader(section)
  }

  /** With both anchors present, the thread section is the text between their first occurrences (empty if out of order). */
  lemma JavaThreadsSectionBetweenAnchors(content: string, i: int, j: int)
    requires FirstOccurrence(content, ThreadsAnchor, i) && FirstOccurrence(content, RequestsAnchor, j)
    ensures JavaThreadsSection(content) == StripThreadsHeader(if i < j then content[i..j] else [])
  {
    assert IndexOf(content, ThreadsAnchor) == i;
    assert IndexOf(content, RequestsAnchor) == j;
  }

  /**
    Without "Running Requests (Full Details)", `indexOf` gives -1 and `slice`
    ends the thread section one character before the end of the text.
  */
  lemma JavaThreadsSectionWithoutRequests(content: string, i: int)
    requires FirstOccurrence(content, ThreadsAnchor, i) && forall j :: !OccursAt(content, RequestsAnchor, j)
    ensures JavaThreadsSection(content) == StripThreadsHeader(if i < |content| - 1 then content[i..|content| - 1] else [])
  {
    assert IndexOf(content, ThreadsAnchor) == i;
    assert IndexOf(content, RequestsAnchor) == -1;
  }

  /**
    extractRunningRequestsSection: the text from the first "Running Requests
    (Full Details)" to the end. The section is always a suffix of the text,
    and it opens with the anchor when the text has one.
  */
  function RunningRequestsSection(content: string): (r: string)
    ensures |r| <= |content| && r == content[|content| - |r|..]
    ensures IndexOf(content, RequestsAnchor) >= 0 ==> OccursAt(r, RequestsAnchor, 0)
  {
    Slice(content, IndexOf(content, RequestsAnchor), |content|)
  }

  /** With the anchor present, the request section is the suffix that starts at its first occurrence. */
  lemma RunningRequestsSectionFromAnchor(content: string, i: int)
    requires FirstOccurrence(content, RequestsAnchor, i)
    ensures RunningRequestsSection(content) == content[i..]
  {
    assert IndexOf(content, RequestsAnchor) == i;
  }

  /** Without the anchor, `slice(-1)` leaves only the last character of the text. */
  lemma RunningRequestsSectionWithoutAnchor(content: string)
    requires forall j :: !OccursAt(content, RequestsAnchor, j)
    ensures RunningRequestsSection(content) == if content == [] then [] else [content[|content| - 1]]
  {
    assert IndexOf(content, RequestsAnchor) == -1;
  }

  /** A record's place in a section: the characters from `begin` up to, not including, `end`. */
  datatype Span = Span(begin: nat, end: nat)

  /**
    `sp` is a record: it begins where `start` occurs, holds at least one
    character after it, and runs up to the first occurrence of `stop` after
    the `start` text, or to the end of `s`.
  */
  predicate IsRecord(s: string, start: string, stop: string, sp: Span)
  {
    && sp.begin + |start| < sp.end <= |s|
    && OccursAt(s, start, sp.begin)
    && (forall j :: sp.begin + |start| <= j < sp.end ==> !OccursAt(s, stop, j))
    && (sp.end == |s| || OccursAt(s, stop, sp.end))
  }

  /** Where a record whose `start` text ends at `from` stops: the next `stop` at or after `from`, or the end of `s`. */
  function RecordEnd(s: string, stop: string, from: nat): nat
  {
    var e := IndexOfFrom(s, stop, from);
    if e < 0 then |s| else e
  }

  /**
    What `s.match(/<start>((?!<stop>)[\s\S])+/g)` finds from position `from`
    on, trying one position after another: a record begins where `start`
    occurs and runs, greedily, up to the next occurrence of `stop` after the
    `start` text, or to the end; a `start` with nothing before the next
    `stop` does not match, and the scan moves on one character. After a
    record the scan resumes where the record ends.
  */
  function RecordSpans(s: string, start: string, stop: string, from: nat): seq<Span>
    decreases |s| - from
  {
    if from + |start| > |s| then []
    else
      var end := RecordEnd(s, stop, from + |start|);
      if OccursAt(s, start, from) && end > from + |start| then [Span(from, end)] + RecordSpans(s, start, stop, end)
      else RecordSpans(s, start, stop, from + 1)
  }

  /**
    Every position that a record could begin at lies inside a span the scan
    finds: the scan misses no record, since it either takes the record at a
    position or skips a position where none begins.
  */
  lemma {:induction false} RecordSpansComplete(s: string, start: string, stop: string, from: nat, p: nat)
    requires from <= p && OccursAt(s, start, p) && RecordEnd(s, stop, p + |start|) > p + |start|
    ensures exists k :: 0 <= k < |RecordSpans(s, start, stop, from)| &&
              RecordSpans(s, start, stop, from)[k].begin <= p < RecordSpans(s, start, stop, from)[k].end
    decreases |s| - from
  {
    var spans := RecordSpans(s, start, stop, from);
    var end := RecordEnd(s, stop, from + |start|);
    if OccursAt(s, start, from) && end > from + |start| {
      assert spans == [Span(from, end)] + RecordSpans(s, start, stop, end);
      if p < end {
        assert spans[0].begin <= p < spans[0].end;
      } else {
        RecordSpansComplete(s, start, stop, end, p);
        var rest := RecordSpans(s, start, stop, end);
        var k :| 0 <= k < |rest| && rest[k].begin <= p < rest[k].end;
        assert spans[k + 1] == rest[k];
      }
    } else {
      assert p != from;
      RecordSpansComplete(s, start, stop, from + 1, p);
    }
  }

  /** `sp` is a span the scan produces: a `start`, then at least one character up to `RecordEnd`. */
  predicate Scanned(s: string, start: string, stop: string, sp: Span)
  {
    OccursAt(s, start, sp.begin) && sp.begin + |start| < sp.end && sp.end == RecordEnd(s, stop, sp.begin + |start|)
  }

  /**
    `spans` is a chain of spans the scan produces: each begins at or after
    where the one before it ends, and the first at or after `from`.
  */
  predicate ScannedChain(s: string, start: string, stop: string, from: nat, spans: seq<Span>)
    decreases |spans|
  {
    spans == [] ||
    (from <= spans[0].begin && Scanned(s, start, stop, spans[0]) && ScannedChain(s, start, stop, spans[0].end, spans[1..]))
  }

  lemma {:induction false} RecordSpansChain(s: string, start: string, stop: string, from: nat)
    ensures ScannedChain(s, start, stop, from, RecordSpans(s, start, stop, from))
    decreases |s| - from
  {
    if from + |start| <= |s| {
      var end := RecordEnd(s, stop, from + |start|);
      if OccursAt(s, start, from) && end > from + |start| {
        RecordSpansChain(s, start, stop, end);
        ChainCons(s, start, stop, from, Span(from, end), RecordSpans(s, start, stop, end));
      } else {
        RecordSpansChain(s, start, stop, from + 1);
        ChainFromEarlier(s, start, stop, from, from + 1, RecordSpans(s, start, stop, from + 1));
      }
    }
  }

  /** A scanned span in front of a chain that begins where it ends. */
  lemma ChainCons(s: string, start: string, stop: string, from: nat, sp: Span, rest: seq<Span>)
    requires from <= sp.begin && Scanned(s, start, stop, sp) && ScannedChain(s, start, stop, sp.end, rest)
    ensures ScannedChain(s, start, stop, from, [sp] + rest)
  {
    var r := [sp] + rest;
    assert r[0] == sp && r[1..] == rest;
  }

  /** A chain that starts at or after a later position also starts at or after an earlier one. */
  lemma ChainFromEarlier(s: string, start: string, stop: string, from: nat, later: nat, spans: seq<Span>)
    requires from <= later && ScannedChain(s, start, stop, later, spans)
    ensures ScannedChain(s, start, stop, from, spans)
  {
  }

  /** A span the scan produces is a record. */
  lemma ScannedIsRecord(s: string, start: string, stop: string, sp: Span)
    requires Scanned(s, start, stop, sp)
    ensures IsRecord(s, start, stop, sp)
  {
  }

  /** Every span of a chain is a record that begins at or after `from`. */
  lemma {:induction false} ChainRecords(s: string, start: string, stop: string, from: nat, spans: seq<Span>)
    requires ScannedChain(s, start, stop, from, spans)
    ensures forall k :: 0 <= k < |spans| ==> from <= spans[k].begin && IsRecord(s, start, stop, spans[k])
    decreases |spans|
  {
    if spans != [] {
      var rest := spans[1..];
      ChainRecords(s, start, stop, spans[0].end, rest);
      ScannedIsRecord(s, start, stop, spans[0]);
      forall k | 0 < k < |spans| ensures from <= spans[k].begin && IsRecord(s, start, stop, spans[k]) {
        assert spans[k] == rest[k - 1];
      }
    }
  }

  /** The spans of a chain come in text order and do not overlap. */
  lemma {:induction false} ChainOrdered(s: string, start: string, stop: string, from: nat, spans: seq<Span>)
    requires ScannedChain(s, start, stop, from, spans)
    ensures forall k :: 0 <= k < |spans| - 1 ==> spans[k].end <= spans[k + 1].begin
    decreases |spans|
  {
    if spans != [] {
      var rest := spans[1..];
      ChainOrdered(s, start, stop, spans[0].end, rest);
      forall k | 0 <= k < |spans| - 1 ensures spans[k].end <= spans[k + 1].begin {
        assert spans[k + 1] == rest[k];
        if k > 0 {
          assert spans[k] == rest[k - 1];
        }
      }
    }
  }

  /** Every span found is a record that begins at or after `from`. */
  lemma RecordSpansAreRecords(s: string, start: string, stop: string, from: nat)
    ensures forall k :: 0 <= k < |RecordSpans(s, start, stop, from)| ==>
              from <= RecordSpans(s, start, stop, from)[k].begin && IsRecord(s, start, stop, RecordSpans(s, start, stop, from)[k])
  {
    RecordSpansChain(s, start, stop, from);
    ChainRecords(s, start, stop, from, RecordSpans(s, start, stop, from));
  }

  /** The spans found come in text order and do not overlap. */
  lemma RecordSpansOrdered(s: string, start: string, stop: string, from: nat)
    ensures forall k :: 0 <= k < |RecordSpans(s, start, stop, from)| - 1 ==>
              RecordSpans(s, start, stop, from)[k].end <= RecordSpans(s, start, stop, from)[k + 1].begin
  {
    RecordSpansChain(s, start, stop, from);
    ChainOrdered(s, start, stop, from, RecordSpans(s, start, stop, from));
  }

  /** When no span is found, every `start` from `from` on is directly followed by `stop` or by the end of the text. */
  lemma {:induction false} RecordSpansNoneLeft(s: string, start: string, stop: string, from: nat)
    requires RecordSpans(s, start, stop, from) == []
    ensures forall p :: from <= p && OccursAt(s, start, p) ==> p + |start| == |s| || OccursAt(s, stop, p + |start|)
    decreases |s| - from
  {
    if from + |start| <= |s| {
      var end := RecordEnd(s, stop, from + |start|);
      if !(OccursAt(s, start, from) && end > from + |start|) {
        RecordSpansNoneLeft(s, start, stop, from + 1);
      }
    }
  }

  /** The text of each record. */
  function RecordTexts(s: string, spans: seq<Span>): (r: seq<string>)
    requires forall k :: 0 <= k < |spans| ==> spans[k].begin <= spans[k].end <= |s|
    ensures |r| == |spans|
    ensures forall k :: 0 <= k < |r| ==> r[k] == s[spans[k].begin..spans[k].end]
  {
    seq(|spans|, k requires 0 <= k < |spans| => s[spans[k].begin..spans[k].end])
  }

  /**
    `sectionContent.match(/Request ID:((?!Request ID:)[\s\S])+/g)` on the
    running-requests section: every record begins with "Request ID:" and holds
    no second one.
  */
  function RunningRequestRecords(content: string): (r: seq<string>)
    ensures forall k :: 0 <= k < |r| ==>
              OccursAt(r[k], RequestStart, 0) && forall j :: 0 < j ==> !OccursAt(r[k], RequestStart, j)
  {
    var section := RunningRequestsSection(content);
    var spans := RecordSpans(section, RequestStart, RequestStart, 0);
    RecordSpansAreRecords(section, RequestStart, RequestStart, 0);
    RequestRecordsHaveOneHeader(section, spans);
    RecordTexts(section, spans)
  }

  /**
    `sectionContent.match(/JVM ID:((?!---------)[\s\S])+/g)` on the thread
    section: every record begins with "JVM ID:" and holds no divider.
  */
  function JavaThreadRecords(content: string): (r: seq<string>)
    ensures forall k :: 0 <= k < |r| ==>
              OccursAt(r[k], ThreadStart, 0) && forall j :: !OccursAt(r[k], ThreadDivider, j)
  {
    var section := JavaThreadsSection(content);
    var spans := RecordSpans(section, ThreadStart, ThreadDivider, 0);
    RecordSpansAreRecords(section, ThreadStart, ThreadDivider, 0);
    ThreadRecordsHaveNoDivider(section, spans);
    RecordTexts(section, spans)
  }

  /** Inside a slice, a text occurs where it occurs in the whole string, shifted by the slice's start. */
  lemma OccursAtWithin(s: string, b: nat, e: nat, pat: string, j: nat)
    requires b <= e <= |s| && j + |pat| <= e - b
    ensures OccursAt(s[b..e], pat, j) == OccursAt(s, pat, b + j)
  {
    var inner, outer := s[b..e][j..j + |pat|], s[b + j..b + j + |pat|];
    assert |inner| == |outer| == |pat|;
    forall k | 0 <= k < |pat| ensures inner[k] == outer[k] {
      assert inner[k] == s[b..e][j + k] == s[b + j + k];
    }
    assert inner == outer;
  }

  /** A request record begins with "Request ID:" and holds no second "Request ID:". */
  lemma RequestRecordHasOneHeader(s: string, sp: Span)
    requires IsRecord(s, RequestStart, RequestStart, sp)
    ensures OccursAt(s[sp.begin..sp.end], RequestStart, 0)
    ensures forall j :: 0 < j ==> !OccursAt(s[sp.begin..sp.end], RequestStart, j)
  {
    var b, rec := sp.begin, s[sp.begin..sp.end];
    OccursAtWithin(s, b, sp.end, RequestStart, 0);
    forall j | 0 < j
      ensures !OccursAt(rec, RequestStart, j)
    {
      if j + |RequestStart| <= |rec| {
        OccursAtWithin(s, b, sp.end, RequestStart, j);
        if j < |RequestStart| {
          assert s[b + j] == s[b..b + |RequestStart|][j] == RequestStart[j] != RequestStart[0];
          assert s[b + j..b + j + |RequestStart|][0] == s[b + j];
        }
      }
    }
  }

  /** A thread record begins with "JVM ID:" and holds no divider of nine dashes. */
  lemma ThreadRecordHasNoDivider(s: string, sp: Span)
    requires IsRecord(s, ThreadStart, ThreadDivider, sp)
    ensures OccursAt(s[sp.begin..sp.end], ThreadStart, 0)
    ensures forall j :: !OccursAt(s[sp.begin..sp.end], ThreadDivider, j)
  {
    var b, rec := sp.begin, s[sp.begin..sp.end];
    OccursAtWithin(s, b, sp.end, ThreadStart, 0);
    forall j | 0 <= j
      ensures !OccursAt(rec, ThreadDivider, j)
    {
      if j + |ThreadDivider| <= |rec| {
        OccursAtWithin(s, b, sp.end, ThreadDivider, j);
        if j < |ThreadStart| {
          assert s[b + j] == s[b..b + |ThreadStart|][j] == ThreadStart[j] != ThreadDivider[0];
          assert s[b + j..b + j + |ThreadDivider|][0] == s[b + j];
        }
      }
    }
  }

  lemma RequestRecordsHaveOneHeader(s: string, spans: seq<Span>)
    requires forall k :: 0 <= k < |spans| ==> IsRecord(s, RequestStart, RequestStart, spans[k])
    ensures forall k :: 0 <= k < |spans| ==>
              spans[k].begin <= spans[k].end <= |s| &&
              OccursAt(s[spans[k].begin..spans[k].end], RequestStart, 0) &&
              forall j :: 0 < j ==> !OccursAt(s[spans[k].begin..spans[k].end], RequestStart, j)
  {
    forall k | 0 <= k < |spans| {
      RequestRecordHasOneHeader(s, spans[k]);
    }
  }

  lemma ThreadRecordsHaveNoDivider(s: string, spans: seq<Span>)
    requires forall k :: 0 <= k < |spans| ==> IsRecord(s, ThreadStart, ThreadDivider, spans[k])
    ensures forall k :: 0 <= k < |spans| ==>
              spans[k].begin <= spans[k].end <= |s| &&
              OccursAt(s[spans[k].begin..spans[k].end], ThreadStart, 0) &&
              forall j :: !OccursAt(s[spans[k].begin..spans[k].end], ThreadDivider, j)
  {
    forall k | 0 <= k < |spans| {
      ThreadRecordHasNoDivider(s, spans[k]);
    }
  }
}
