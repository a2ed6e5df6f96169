/**
  parseJavaThread of fusion-reactor-alert.js: one "JVM ID:" record becomes
  the thread's properties and its stack trace, with each stack item marked
  when it refers to a ColdFusion template.
*/
module Threads {
  import opened JsText
  import opened Wrappers
  import opened Seqs
  import opened FieldParser

  /** One line of a stack trace. */
  datatype StackTraceItem = StackTraceItem(code: string, isColdFusion: bool)

  /**
    A parsed thread. `properties` holds the key/value lines of the record;
    the four keys parseJavaThread sets itself after the lines (and which
    therefore overwrite any line with the same key) are the other fields.
  */
  datatype JavaThread = JavaThread(
    properties: Properties,
    isCFThread: bool,
    stacktrace: seq<StackTraceItem>,
    coldfusionStacktrace: seq<StackTraceItem>,
    hasColdFusion: bool)
  {
    /** `javaThread[key]` for a key read from the record. */
    function Field(key: string): (r: Option<string>)
      ensures r.Some? <==> key in properties
    {
      Get(properties, key)
    }
  }

  /** The keys parseJavaThread assigns after reading the record's lines. */
  const DerivedKeys: set<string> := {"isCFThread", "stacktrace", "coldfusionStacktrace", "hasColdFusion"}

  const CFThreadPrefix := "cfthread-"

  /** `threadID.search(/^cfthread-/i) === 0`: the ID starts with "cfthread-", in any letter case. */
  predicate IsCFThreadID(threadID: string)
  {
    |CFThreadPrefix| <= |threadID| && forall k :: 0 <= k < |CFThreadPrefix| ==> Lower(threadID[k]) == CFThreadPrefix[k]
  }

  /** The ID starts with "cfthread-", each letter in lower or upper case. */
  lemma IsCFThreadIDByLetters(threadID: string)
    ensures IsCFThreadID(threadID) <==>
              |CFThreadPrefix| <= |threadID| &&
              forall k :: 0 <= k < |CFThreadPrefix| ==>
                threadID[k] == CFThreadPrefix[k] || threadID[k] == Upper(CFThreadPrefix[k])
  {
    forall k | 0 <= k < |CFThreadPrefix| && k < |threadID|
      ensures Lower(threadID[k]) == CFThreadPrefix[k] <==>
                threadID[k] == CFThreadPrefix[k] || threadID[k] == Upper(CFThreadPrefix[k])
    {
      LowerIs(threadID[k], CFThreadPrefix[k]);
    }
  }

  /** A character lower-cases to a lower-case letter or `-` exactly when it is that character or its upper case. */
  lemma LowerIs(x: char, p: char)
    requires 'a' <= p <= 'z' || p == '-'
    ensures Lower(x) == p <==> x == p || x == Upper(p)
  {
  }

  /** `/\.(cfm|cfc)/i` at position `i` of `code`. */
  predicate ColdFusionReferenceAt(code: string, i: int)
  {
    0 <= i && i + 4 <= |code| && code[i] == '.' && Lower(code[i + 1]) == 'c' && Lower(code[i + 2]) == 'f' &&
    (Lower(code[i + 3]) == 'm' || Lower(code[i + 3]) == 'c')
  }

  /** `/\.(cfm|cfc)/i.test(code)`: the code names a ".cfm" or ".cfc" file, in any letter case. */
  predicate HasColdFusionReference(code: string)
  {
    exists i | 0 <= i < |code| :: ColdFusionReferenceAt(code, i)
  }

  /** The code names a ColdFusion file exactly when, lower-cased, it holds ".cfm" or ".cfc". */
  lemma HasColdFusionReferenceLowered(code: string)
    ensures HasColdFusionReference(code) <==>
              exists i :: OccursAt(LowerAll(code), ".cfm", i) || OccursAt(LowerAll(code), ".cfc", i)
  {
    forall i ensures ColdFusionReferenceAt(code, i) <==> OccursAt(LowerAll(code), ".cfm", i) || OccursAt(LowerAll(code), ".cfc", i) {
      ReferenceAtLowered(code, i);
    }
  }

  lemma ReferenceAtLowered(code: string, i: int)
    ensures ColdFusionReferenceAt(code, i) <==> OccursAt(LowerAll(code), ".cfm", i) || OccursAt(LowerAll(code), ".cfc", i)
  {
    if 0 <= i && i + 4 <= |code| {
      var w := LowerAll(code)[i..i + 4];
      assert w[0] == Lower(code[i]) && w[1] == Lower(code[i + 1]) && w[2] == Lower(code[i + 2]) && w[3] == Lower(code[i + 3]);
      assert w == ".cfm" <==> w[0] == '.' && w[1] == 'c' && w[2] == 'f' && w[3] == 'm';
      assert w == ".cfc" <==> w[0] == '.' && w[1] == 'c' && w[2] == 'f' && w[3] == 'c';
    }
  }

  predicate IsColdFusionItem(item: StackTraceItem)
  {
    item.isColdFusion
  }

  /** The stack items for the given code lines, each classified by `HasColdFusionReference`. */
  function StackTraceItems(lines: seq<string>): (items: seq<StackTraceItem>)
    ensures |items| == |lines|
    ensures forall i :: 0 <= i < |lines| ==> items[i] == StackTraceItem(lines[i], HasColdFusionReference(lines[i]))
  {
    seq(|lines|, i requires 0 <= i < |lines| => StackTraceItem(lines[i], HasColdFusionReference(lines[i])))
  }

  /**
    A record's property text and stack-trace text: `content.search(/\n{2}/)`
    finds the first blank line; the text before it and the text after its
    first line feed are each trimmed. A record without a blank line is all
    properties, untrimmed, and has no stack trace. Either way the property
    text has no blank line and the stack-trace text is trimmed.
  */
  function SplitThreadRecord(content: string): (r: (string, string))
    ensures NoBlankLines(r.0)
    ensures Trim(r.1) == r.1
  {
    var doubleLineBreakIndex := IndexOf(content, "\n\n");
    if doubleLineBreakIndex >= 0 then
      var stacktraceContent := Slice(content, doubleLineBreakIndex + 1, |content|);
      PropertyTextBeforeBlankLine(content, doubleLineBreakIndex);
      TrimIdempotent(stacktraceContent);
      (Trim(Slice(content, 0, doubleLineBreakIndex)), Trim(stacktraceContent))
    else
      (content, "")
  }

  /**
    Where the first blank line starts at `i`, the property text is the
    trimmed text before it and the stack-trace text is the trimmed text after
    its first line feed.
  */
  lemma SplitAtFirstBlankLine(content: string, i: int)
    requires OccursAt(content, "\n\n", i)
    requires forall j :: 0 <= j < i ==> !OccursAt(content, "\n\n", j)
    ensures SplitThreadRecord(content) == (Trim(content[..i]), Trim(content[i + 1..]))
  {
    assert IndexOf(content, "\n\n") == i;
    assert Slice(content, 0, i) == content[..i];
    assert Slice(content, i + 1, |content|) == content[i + 1..];
  }

  /** A record without a blank line is all property text, with no stack-trace text. */
  lemma SplitWithoutBlankLine(content: string)
    requires forall j :: !OccursAt(content, "\n\n", j)
    ensures SplitThreadRecord(content) == (content, "")
  {
    var i := IndexOf(content, "\n\n");
    assert i == -1 || OccursAt(content, "\n\n", i);
  }

  /** The trimmed text before the first blank line has no blank line. */
  lemma PropertyTextBeforeBlankLine(content: string, i: int)
    requires i == IndexOf(content, "\n\n") && i >= 0
    ensures NoBlankLines(Trim(Slice(content, 0, i)))
  {
    var before := Slice(content, 0, i);
    assert before == content[..i];
    forall j | 0 <= j < |before|
      ensures !OccursAt(before, "\n\n", j)
    {
      if j + 2 <= |before| {
        assert before[j..j + 2] == content[j..j + 2];
        assert !OccursAt(content, "\n\n", j);
      }
    }
    TrimSetCutsOnlySet(before, Whitespace);
    var k :| PieceBetween(before, Whitespace, Trim(before), k);
    NoBlankLinesPiece(before, Trim(before), k);
  }

  /**
    `stacktraceContent.length ? stacktraceContent.split(/\n+/) : []`: no
    line for empty text, and for trimmed text every line is non-empty and a
    single line.
  */
  function StackTraceLines(stacktraceContent: string): (r: seq<string>)
    ensures r == [] <==> stacktraceContent == []
    ensures stacktraceContent == Trim(stacktraceContent) ==> forall i :: 0 <= i < |r| ==> r[i] != [] && '\n' !in r[i]
  {
    if stacktraceContent == [] then []
    else
      TrimmedLinesNonEmpty(stacktraceContent);
      SplitLines(stacktraceContent)
  }

  /** The properties parseJavaThread reads from a record's property text. */
  function ThreadPropertiesOf(propertyContent: string): Properties
  {
    PropertiesOf(SplitLines(TranslateLabels(propertyContent, JavaThreadLabel, JavaThreadLabelCount)))
  }

  /**
    What parseJavaThread returns for one record, or None where it throws
    because the record has no "Thread ID" line to read `threadID` from. A
    record parses exactly when it has that line, and every parsed thread is
    consistent.
  */
  function JavaThreadOf(content: string): (r: Option<JavaThread>)
    ensures r.Some? <==> "threadID" in ThreadPropertiesOf(SplitThreadRecord(content).0)
    ensures r.Some? ==> Consistent(r.value)
    ensures r.Some? ==> r.value.properties == ThreadPropertiesOf(SplitThreadRecord(content).0) - DerivedKeys
    ensures r.Some? ==> r.value.stacktrace == StackTraceItems(StackTraceLines(SplitThreadRecord(content).1))
  {
    var (propertyContent, stacktraceContent) := SplitThreadRecord(content);
    var properties := ThreadPropertiesOf(propertyContent);
    if "threadID" !in properties then None
    else
      ThreadFromConsistent(properties, StackTraceLines(stacktraceContent));
      Some(ThreadFrom(properties, StackTraceLines(stacktraceContent)))
  }

  /** The thread parseJavaThread builds from the record's properties and its stack-trace lines. */
  function ThreadFrom(properties: Properties, lines: seq<string>): JavaThread
    requires "threadID" in properties
  {
    var stacktrace := StackTraceItems(lines);
    JavaThread(
      properties - DerivedKeys,
      IsCFThreadID(properties["threadID"]),
      stacktrace,
      Filter(stacktrace, IsColdFusionItem),
      exists i | 0 <= i < |stacktrace| :: stacktrace[i].isColdFusion)
  }

  /**
    How the fields of a parsed thread relate: the thread is a CFThread
    exactly when its ID has the prefix, every stack item is one non-empty
    line classified by its code, the ColdFusion stack is exactly the
    ColdFusion items in order, and the thread has ColdFusion exactly when
    that stack is non-empty.
  */
  predicate Consistent(t: JavaThread)
  {
    && t.Field("threadID").Some?
    && t.isCFThread == IsCFThreadID(t.properties["threadID"])
    && (forall k :: k in DerivedKeys ==> k !in t.properties)
    && (forall i :: 0 <= i < |t.stacktrace| ==>
          t.stacktrace[i].code != [] && '\n' !in t.stacktrace[i].code &&
          t.stacktrace[i].isColdFusion == HasColdFusionReference(t.stacktrace[i].code))
    && t.coldfusionStacktrace == Filter(t.stacktrace, IsColdFusionItem)
    && t.hasColdFusion == (t.coldfusionStacktrace != [])
  }

  /** Non-empty text that `trim` left in place splits into non-empty single lines. */
  lemma TrimmedLinesNonEmpty(s: string)
    requires s != []
    ensures s == Trim(s) ==> forall i :: 0 <= i < |SplitLines(s)| ==> SplitLines(s)[i] != [] && '\n' !in SplitLines(s)[i]
  {
    if s == Trim(s) {
      assert s[0] !in Whitespace && s[|s| - 1] !in Whitespace;
      SplitLinesSingleLines(s, 0);
      SplitLinesInnerPieces(s, 0);
      SplitLinesLastPiece(s, 0);
    }
  }

  /**
    Joining the lines of trimmed stack-trace text with line feeds gives the
    text back with every run of line feeds collapsed to one: `split(/\n+/)`
    loses only the length of those runs.
  */
  lemma StackTraceLinesCollapse(stacktraceContent: string)
    requires stacktraceContent == Trim(stacktraceContent)
    ensures JoinLines(StackTraceLines(stacktraceContent)) == CollapseBreaks(stacktraceContent)
  {
    var s := stacktraceContent;
    if s != [] {
      assert s[0] !in Whitespace && s[|s| - 1] !in Whitespace;
      JoinSplitLinesCollapses(s);
    }
  }

  /** Stack-trace text without blank lines is given back by joining its lines. */
  lemma StackTraceLinesRoundTrip(stacktraceContent: string)
    requires NoBlankLines(stacktraceContent)
    ensures JoinLines(StackTraceLines(stacktraceContent)) == stacktraceContent
  {
    if stacktraceContent != [] {
      JoinSplitLines(stacktraceContent);
    }
  }

  /** A thread built from lines that are each one non-empty line is consistent. */
  lemma ThreadFromConsistent(properties: Properties, lines: seq<string>)
    requires "threadID" in properties
    requires forall i :: 0 <= i < |lines| ==> lines[i] != [] && '\n' !in lines[i]
    ensures Consistent(ThreadFrom(properties, lines))
  {
    var t := ThreadFrom(properties, lines);
    FilterEmpty(t.stacktrace, IsColdFusionItem);
  }

  /**
    parseJavaThread: split the record, read its properties, flag a CFThread
    and classify the stack trace. None where the source throws.
  */
  method ParseJavaThread(content: string) returns (r: Option<JavaThread>)
    ensures r == JavaThreadOf(content)
  {
    var (propertyContent, stacktraceContent) := SplitThreadRecord(content);
    var properties := ParseThreadProperties(propertyContent);
    if "threadID" !in properties {
      return None;
    }
    var thread := BuildJavaThread(properties, StackTraceLines(stacktraceContent));
    return Some(thread);
  }

  /** The property half of parseJavaThread: translate the labels, split into lines, collect the key/value pairs. */
  method ParseThreadProperties(propertyContent: string) returns (properties: Properties)
    ensures properties == ThreadPropertiesOf(propertyContent)
  {
    var translated := TranslateLabels(propertyContent, JavaThreadLabel, JavaThreadLabelCount);
    properties := CollectProperties(SplitLines(translated));
  }

  /** The rest of parseJavaThread: flag a CFThread, then classify the stack-trace lines. */
  method BuildJavaThread(properties: Properties, lines: seq<string>) returns (thread: JavaThread)
    requires "threadID" in properties
    ensures thread == ThreadFrom(properties, lines)
  {
    var isCFThread := IsCFThreadID(properties["threadID"]);
    var stacktrace, coldfusionStacktrace, hasColdFusion := ClassifyStackTrace(lines);
    thread := JavaThread(properties - DerivedKeys, isCFThread, stacktrace, coldfusionStacktrace, hasColdFusion);
  }

  /**
    The stack-trace loop of parseJavaThread: every line becomes an item
    marked by `/\.(cfm|cfc)/i`, the marked items are also collected on their
    own, and the flag records whether any item was marked.
  */
  method ClassifyStackTrace(lines: seq<string>)
    returns (stacktrace: seq<StackTraceItem>, coldfusionStacktrace: seq<StackTraceItem>, hasColdFusion: bool)
    ensures stacktrace == StackTraceItems(lines)
    ensures coldfusionStacktrace == Filter(stacktrace, IsColdFusionItem)
    ensures hasColdFusion <==> exists i | 0 <= i < |stacktrace| :: stacktrace[i].isColdFusion
  {
    stacktrace, coldfusionStacktrace, hasColdFusion := [], [], false;
    for i := 0 to |lines|
      invariant |stacktrace| == i
      invariant forall k :: 0 <= k < i ==> stacktrace[k] == StackTraceItem(lines[k], HasColdFusionReference(lines[k]))
      invariant coldfusionStacktrace == Filter(stacktrace, IsColdFusionItem)
      invariant hasColdFusion <==> coldfusionStacktrace != []
    {
      var item := StackTraceItem(lines[i], HasColdFusionReference(lines[i]));
      FilterSnoc(stacktrace, item, IsColdFusionItem);
      stacktrace := stacktrace + [item];
      if item.isColdFusion {
        hasColdFusion := true;
        coldfusionStacktrace := coldfusionStacktrace + [item];
      }
    }
    FilterEmpty(stacktrace, IsColdFusionItem);
  }
}
