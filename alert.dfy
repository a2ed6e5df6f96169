/**
  The FusionReactorAlert of fusion-reactor-alert.js: an alert e-mail parsed
  into its running requests and Java threads, and the reports built from
  them.
*/
module Alert {
  import opened JsText
  import opened JsNumber
  import opened Wrappers
  import opened Seqs
  import opened Normalizer
  import opened Sections
  import opened FieldParser
  import opened Threads

  /** Where the constructor throws: `match` found no record, or a thread record has no "Thread ID" line. */
  datatype ParseError = NoRunningRequests | NoJavaThreads | MissingThreadID

  /** One entry of the running-requests report; `*1` turns a field into a number. */
  datatype RequestReport = RequestReport(
    requestID: Option<string>,
    requestUrl: Option<string>,
    status: Option<string>,
    startedAt: Num,
    startedAtDate: Option<string>,
    threadID: Option<string>,
    ipAddress: Option<string>,
    requestMethod: Option<string>,  // the "method" key (a reserved word here)
    duration: Num,
    usedMemoryPercent: Option<string>,
    maxMemoryKB: Num,
    usedMemoryKB: Num,
    totalMemoryKB: Num,
    freeMemoryKB: Num,
    queryString: Option<string>,
    statusCode: Option<string>,
    cpuTime: Num,
    jdbcQueriesRun: Num,
    jdbcTotalTime: Num,
    jdbcTotalExecutionTime: Num,
    jdbcTotalRowCount: Num,
    amfRquest: Option<string>,
    bytesSent: Num,
    timeToFirstByte: Num,
    timeToLastByte: Num,
    timeToStreamOpen: Num,
    timeToStreamClose: Option<string>,
    userAgent: Option<string>,
    thread: Option<JavaThread>)

  /** One entry of the ColdFusion-threads report. */
  datatype ThreadReport = ThreadReport(
    jvmID: Option<string>,
    threadID: Option<string>,
    isCFThread: bool,
    hashcode: Option<string>,
    priority: Option<string>,
    stacktrace: seq<StackTraceItem>)

  /** What getReport returns. */
  datatype Report = Report(runningRequests: seq<RequestReport>, coldfusionThreads: seq<ThreadReport>)

  /** A thread started by CFThread that is not parked in `java.lang.Object.wait`. */
  predicate IsActiveColdFusionThread(t: JavaThread)
  {
    t.isCFThread && |t.stacktrace| > 0 && IndexOf(t.stacktrace[0].code, "java.lang.Object.wait") == -1
  }

  /** An active CFThread: a CFThread whose top stack frame never mentions `java.lang.Object.wait`. */
  lemma ActiveColdFusionThreadMeans(t: JavaThread)
    ensures IsActiveColdFusionThread(t) <==>
              t.isCFThread && |t.stacktrace| > 0 &&
              forall j :: !OccursAt(t.stacktrace[0].code, "java.lang.Object.wait", j)
  {
    if t.isCFThread && |t.stacktrace| > 0 {
      var code := t.stacktrace[0].code;
      var i := IndexOf(code, "java.lang.Object.wait");
      if i != -1 {
        assert OccursAt(code, "java.lang.Object.wait", i);
      }
    }
  }

  /** `javaThread.threadID == threadID`, where a missing ID on both sides compares equal. */
  predicate HasID(t: JavaThread, threadID: Option<string>)
  {
    t.Field("threadID") == threadID
  }

  /** `threads[i]` is the first thread with the ID. */
  predicate FirstWithID(threads: seq<JavaThread>, threadID: Option<string>, i: int)
  {
    0 <= i < |threads| && HasID(threads[i], threadID) && forall j :: 0 <= j < i ==> !HasID(threads[j], threadID)
  }

  /** The first thread with the ID, or None when no thread has it. */
  function ThreadWithID(threads: seq<JavaThread>, threadID: Option<string>): (r: Option<JavaThread>)
    ensures r.None? <==> forall i :: 0 <= i < |threads| ==> !HasID(threads[i], threadID)
    ensures r.Some? ==> exists i :: FirstWithID(threads, threadID, i) && r.value == threads[i]
  {
    if threads == [] then None
    else if HasID(threads[0], threadID) then
      assert FirstWithID(threads, threadID, 0);
      Some(threads[0])
    else
      var r := ThreadWithID(threads[1..], threadID);
      assert forall i :: 1 <= i < |threads| ==> threads[i] == threads[1..][i - 1];
      if r.Some? then
        var i :| FirstWithID(threads[1..], threadID, i) && r.value == threads[1..][i];
        assert FirstWithID(threads, threadID, i + 1);
        r
      else r
  }

  /** The first thread with the ID is what `ThreadWithID` finds. */
  lemma ThreadWithIDIsFirst(threads: seq<JavaThread>, threadID: Option<string>, i: int)
    requires FirstWithID(threads, threadID, i)
    ensures ThreadWithID(threads, threadID) == Some(threads[i])
  {
    var r := ThreadWithID(threads, threadID);
    assert r.Some?;
    var k :| FirstWithID(threads, threadID, k) && r.value == threads[k];
    assert !(k < i) && !(i < k);
  }

  /** A request's entry in the report, with its thread attached when one has the request's thread ID. */
  function RequestReportOf(request: Properties, threads: seq<JavaThread>): RequestReport
  {
    RequestEntry(request, ThreadWithID(threads, Get(request, "threadID")))
  }

  /** The entry getRunningRequestsReport builds from a request and the thread found for it: `*1` turns a field into a number. */
  function RequestEntry(request: Properties, thread: Option<JavaThread>): (r: RequestReport)
    ensures r.thread == thread
    ensures r.requestMethod == Get(request, "method")
    ensures r.threadID.Some? <==> "threadID" in request
    ensures "duration" !in request ==> r.duration == NaN
    ensures "duration" in request && request["duration"] != [] && IsDigits(request["duration"]) ==>
              r.duration == Finite(DigitsValue(request["duration"]) as real)
  {
    if "duration" in request && request["duration"] != [] && IsDigits(request["duration"]) then
      ToNumberOfDigits(request["duration"]);
      RequestFields(request, thread)
    else
      RequestFields(request, thread)
  }

  /** The report entry field by field. */
  function RequestFields(request: Properties, thread: Option<JavaThread>): RequestReport
  {
    RequestReport(
      Get(request, "requestID"),
      Get(request, "requestUrl"),
      Get(request, "status"),
      ToNumber(Get(request, "startedAt")),
      Get(request, "startedAtDate"),
      Get(request, "threadID"),
      Get(request, "ipAddress"),
      Get(request, "method"),
      ToNumber(Get(request, "duration")),
      Get(request, "usedMemoryPercent"),
      ToNumber(Get(request, "maxMemoryKB")),
      ToNumber(Get(request, "usedMemoryKB")),
      ToNumber(Get(request, "totalMemoryKB")),
      ToNumber(Get(request, "freeMemoryKB")),
      Get(request, "queryString"),
      Get(request, "statusCode"),
      ToNumber(Get(request, "cpuTime")),
      ToNumber(Get(request, "jdbcQueriesRun")),
      ToNumber(Get(request, "jdbcTotalTime")),
      ToNumber(Get(request, "jdbcTotalExecutionTime")),
      ToNumber(Get(request, "jdbcTotalRowCount")),
      Get(request, "amfRquest"),
      ToNumber(Get(request, "bytesSent")),
      ToNumber(Get(request, "timeToFirstByte")),
      ToNumber(Get(request, "timeToLastByte")),
      ToNumber(Get(request, "timeToStreamOpen")),
      Get(request, "timeToStreamClose"),
      Get(request, "userAgent"),
      thread)
  }

  /** The report entries before sorting, one per request and in request order. */
  function RequestReports(requests: seq<Properties>, threads: seq<JavaThread>): (r: seq<RequestReport>)
    ensures |r| == |requests|
    ensures forall i :: 0 <= i < |requests| ==> r[i] == RequestReportOf(requests[i], threads)
  {
    seq(|requests|, i requires 0 <= i < |requests| => RequestReportOf(requests[i], threads))
  }

  /** One entry of getColdFusionThreadsReport: the thread's identity fields and its whole stack trace. */
  function ThreadReportOf(t: JavaThread): (r: ThreadReport)
    ensures r.stacktrace == t.stacktrace && r.isCFThread == t.isCFThread
    ensures r.threadID.Some? <==> "threadID" in t.properties
    ensures r.jvmID.Some? <==> "jvmID" in t.properties
    ensures Consistent(t) ==> r.threadID.Some? && r.isCFThread == IsCFThreadID(r.threadID.value)
  {
    ThreadReport(t.Field("jvmID"), t.Field("threadID"), t.isCFThread, t.Field("hashcode"), t.Field("priority"), t.stacktrace)
  }

  /**
    The order the report's comparator `a.duration > b.duration ? -1 : 1`
    puts durations in: larger first. NaN compares false with everything;
    it is ranked last here.
  */
  predicate NumAtLeast(a: Num, b: Num)
  {
    b.NaN? || (a.Finite? && a.value >= b.value)
  }

  function Duration(entry: RequestReport): Num
  {
    entry.duration
  }

  /** Every entry's key is at least that of every later entry. */
  predicate SortedBy<T>(s: seq<T>, key: T -> Num)
  {
    forall i, j :: 0 <= i < j < |s| ==> NumAtLeast(key(s[i]), key(s[j]))
  }

  predicate SortedByDuration(s: seq<RequestReport>)
  {
    SortedBy(s, Duration)
  }

  /** `x` placed before the first element whose key it is at least. */
  function InsertBy<T>(x: T, s: seq<T>, key: T -> Num): (r: seq<T>)
    requires SortedBy(s, key)
    ensures SortedBy(r, key)
    ensures multiset(r) == multiset(s) + multiset{x}
  {
    if s == [] || NumAtLeast(key(x), key(s[0])) then
      [x] + s
    else
      var rest := InsertBy(x, s[1..], key);
      assert s == [s[0]] + s[1..];
      forall k | 0 <= k < |rest| ensures NumAtLeast(key(s[0]), key(rest[k])) {
        assert rest[k] in multiset(rest);
        if rest[k] != x {
          assert rest[k] in s[1..];
        }
      }
      PrependSorted(s[0], rest, key);
      [s[0]] + rest
  }

  lemma PrependSorted<T>(h: T, s: seq<T>, key: T -> Num)
    requires SortedBy(s, key)
    requires forall k :: 0 <= k < |s| ==> NumAtLeast(key(h), key(s[k]))
    ensures SortedBy([h] + s, key)
  {
    var r := [h] + s;
    forall i, j | 0 <= i < j < |r| ensures NumAtLeast(key(r[i]), key(r[j])) {
      assert r[j] == s[j - 1];
      if i > 0 {
        assert r[i] == s[i - 1];
      }
    }
  }

  /** Insertion sort by the key, largest first: the elements in key order, none added or lost. */
  function SortBy<T>(s: seq<T>, key: T -> Num): (r: seq<T>)
    ensures SortedBy(r, key)
    ensures multiset(r) == multiset(s)
  {
    if s == [] then []
    else
      assert s == s[..|s| - 1] + [s[|s| - 1]];
      InsertBy(s[|s| - 1], SortBy(s[..|s| - 1], key), key)
  }

  /** `report.sort(...)` by duration, longest first: the entries in duration order, none added or lost. */
  function SortByDuration(s: seq<RequestReport>): (r: seq<RequestReport>)
    ensures SortedByDuration(r)
    ensures multiset(r) == multiset(s)
  {
    SortBy(s, Duration)
  }

  /** What the constructor leaves behind for a successfully parsed alert. */
  datatype FusionReactorAlert = FusionReactorAlert(runningRequests: seq<Properties>, javaThreads: seq<JavaThread>)
  {
    /** getColdFusionThreads: the active CFThreads, in thread order. */
    method GetColdFusionThreads() returns (coldfusionThreads: seq<JavaThread>)
      ensures coldfusionThreads == Filter(javaThreads, IsActiveColdFusionThread)
    {
      coldfusionThreads := [];
      for i := 0 to |javaThreads|
        invariant coldfusionThreads == Filter(javaThreads[..i], IsActiveColdFusionThread)
      {
        assert javaThreads[..i + 1][..i] == javaThreads[..i];
        if IsActiveColdFusionThread(javaThreads[i]) {
          coldfusionThreads := coldfusionThreads + [javaThreads[i]];
        }
      }
      assert javaThreads[..|javaThreads|] == javaThreads;
    }

    /** getColdFusionThreadsReport: one entry per active CFThread, in the same order. */
    method GetColdFusionThreadsReport() returns (report: seq<ThreadReport>)
      ensures |report| == |Filter(javaThreads, IsActiveColdFusionThread)|
      ensures forall i :: 0 <= i < |report| ==> report[i] == ThreadReportOf(Filter(javaThreads, IsActiveColdFusionThread)[i])
    {
      var coldfusionThreads := GetColdFusionThreads();
      report := [];
      for i := 0 to |coldfusionThreads|
        invariant |report| == i
        invariant forall k :: 0 <= k < i ==> report[k] == ThreadReportOf(coldfusionThreads[k])
      {
        report := report + [ThreadReportOf(coldfusionThreads[i])];
      }
    }

    /** getJavaThreadByID: the first thread with the ID, or None (the source's null). */
    method GetJavaThreadByID(threadID: Option<string>) returns (r: Option<JavaThread>)
      ensures r == ThreadWithID(javaThreads, threadID)
    {
      for i := 0 to |javaThreads|
        invariant forall j :: 0 <= j < i ==> !HasID(javaThreads[j], threadID)
      {
        if javaThreads[i].Field("threadID") == threadID {
          ThreadWithIDIsFirst(javaThreads, threadID, i);
          return Some(javaThreads[i]);
        }
      }
      return None;
    }

    /**
      getRunningRequestsReport: one entry per request, each with the first
      thread that has the request's thread ID, longest-running first.
    */
    method GetRunningRequestsReport() returns (report: seq<RequestReport>)
      ensures multiset(report) == multiset(RequestReports(runningRequests, javaThreads))
      ensures SortedByDuration(report)
    {
      var entries := RequestEntries();
      report := SortByDuration(entries);
    }

    /** The loop of getRunningRequestsReport: one entry per request, in request order, with its thread. */
    method RequestEntries() returns (entries: seq<RequestReport>)
      ensures entries == RequestReports(runningRequests, javaThreads)
    {
      entries := [];
      for i := 0 to |runningRequests|
        invariant |entries| == i
        invariant forall k :: 0 <= k < i ==> entries[k] == RequestReportOf(runningRequests[k], javaThreads)
      {
        var runningRequest := runningRequests[i];
        var relatedThread := GetJavaThreadByID(Get(runningRequest, "threadID"));
        var entry := RequestEntry(runningRequest, relatedThread);
        assert entry == RequestReportOf(runningRequests[i], javaThreads);
        var before := entries;
        entries := entries + [entry];
        assert forall k :: 0 <= k < i ==> entries[k] == before[k];
      }
    }

    /** getReport: the running-requests report and the ColdFusion-threads report. */
    method GetReport() returns (report: Report)
      ensures multiset(report.runningRequests) == multiset(RequestReports(runningRequests, javaThreads))
      ensures SortedByDuration(report.runningRequests)
      ensures |report.coldfusionThreads| == |Filter(javaThreads, IsActiveColdFusionThread)|
      ensures forall i :: 0 <= i < |report.coldfusionThreads| ==>
                report.coldfusionThreads[i] == ThreadReportOf(Filter(javaThreads, IsActiveColdFusionThread)[i])
    {
      var requests := GetRunningRequestsReport();
      var threads := GetColdFusionThreadsReport();
      report := Report(requests, threads);
    }
  }

  /** Every entry of a report that keeps the request entries is the entry of some request, with that request's thread. */
  lemma ReportEntriesComeFromRequests(requests: seq<Properties>, threads: seq<JavaThread>, report: seq<RequestReport>)
    requires multiset(report) == multiset(RequestReports(requests, threads))
    ensures |report| == |requests|
    ensures forall k :: 0 <= k < |report| ==>
              exists i :: 0 <= i < |requests| && report[k] == RequestReportOf(requests[i], threads) &&
                          report[k].thread == ThreadWithID(threads, Get(requests[i], "threadID"))
  {
    var entries := RequestReports(requests, threads);
    assert |report| == |multiset(report)| == |multiset(entries)| == |entries|;
    forall k | 0 <= k < |report|
      ensures exists i :: 0 <= i < |requests| && report[k] == RequestReportOf(requests[i], threads) &&
                          report[k].thread == ThreadWithID(threads, Get(requests[i], "threadID"))
    {
      assert report[k] in multiset(report);
      assert report[k] in entries;
      var i :| 0 <= i < |entries| && entries[i] == report[k];
    }
  }

  /** One "Request ID:" record, trimmed and parsed. */
  function RunningRequestOfRecord(part: string): Properties
  {
    RunningRequestOf(Trim(part))
  }

  /** parseRunningRequests: every "Request ID:" record, trimmed and parsed, or an error when there is none. */
  function RunningRequestsOf(content: string): (r: Result<seq<Properties>, ParseError>)
    ensures r.Err? <==> RunningRequestRecords(content) == []
    ensures r.Err? ==> r.error == NoRunningRequests
    ensures r.Ok? ==> |r.value| == |RunningRequestRecords(content)|
    ensures r.Ok? ==> forall i :: 0 <= i < |r.value| ==>
              r.value[i] == RunningRequestOfRecord(RunningRequestRecords(content)[i])
  {
    var parts := RunningRequestRecords(content);
    if parts == [] then Err(NoRunningRequests) else Ok(Map(parts, RunningRequestOfRecord))
  }

  /** parseJavaThreads: every "JVM ID:" record parsed, or an error when there is none or one has no thread ID. */
  function JavaThreadsOf(content: string): (r: Result<seq<JavaThread>, ParseError>)
    ensures r == Err(NoJavaThreads) <==> JavaThreadRecords(content) == []
    ensures r == Err(MissingThreadID) <==>
              exists i :: 0 <= i < |JavaThreadRecords(content)| && JavaThreadOf(JavaThreadRecords(content)[i]).None?
    ensures r.Ok? ==> |r.value| == |JavaThreadRecords(content)|
    ensures r.Ok? ==> forall i :: 0 <= i < |r.value| ==> JavaThreadOf(JavaThreadRecords(content)[i]) == Some(r.value[i])
  {
    var parts := JavaThreadRecords(content);
    if parts == [] then Err(NoJavaThreads)
    else
      match MapAll(parts, JavaThreadOf)
      case None => Err(MissingThreadID)
      case Some(javaThreads) => Ok(javaThreads)
  }

  /**
    The constructor on normalized text: parse the requests, then the
    threads. Which error it reports follows the order the source meets them.
  */
  function AlertOf(content: string): (r: Result<FusionReactorAlert, ParseError>)
    ensures r == Err(NoRunningRequests) <==> RunningRequestRecords(content) == []
    ensures r == Err(NoJavaThreads) <==>
              RunningRequestRecords(content) != [] && JavaThreadRecords(content) == []
    ensures r == Err(MissingThreadID) <==>
              RunningRequestRecords(content) != [] && JavaThreadRecords(content) != [] &&
              exists i :: 0 <= i < |JavaThreadRecords(content)| && JavaThreadOf(JavaThreadRecords(content)[i]).None?
  {
    match RunningRequestsOf(content)
    case Err(e) => Err(e)
    case Ok(runningRequests) =>
      match JavaThreadsOf(content)
      case Err(e) => Err(e)
      case Ok(javaThreads) => Ok(FusionReactorAlert(runningRequests, javaThreads))
  }

  /**
    The constructor: normalize the e-mail, then parse it. A parsed alert has
    at least one request and one thread, and every thread is consistent.
  */
  function ParseAlert(emailContent: string): (r: Result<FusionReactorAlert, ParseError>)
    ensures r.Ok? ==> |r.value.runningRequests| > 0 && |r.value.javaThreads| > 0
    ensures r.Ok? ==> forall i :: 0 <= i < |r.value.javaThreads| ==> Consistent(r.value.javaThreads[i])
  {
    var content := NormalizeEmailContent(emailContent);
    if AlertOf(content).Ok? then
      ParsedAlertShape(content);
      AlertOf(content)
    else
      AlertOf(content)
  }

  /** parseRunningRequests. */
  method ParseRunningRequests(content: string) returns (r: Result<seq<Properties>, ParseError>)
    ensures r == RunningRequestsOf(content)
  {
    var parts := RunningRequestRecords(content);
    if parts == [] {
      return Err(NoRunningRequests);
    }
    var runningRequests := ParseRunningRequestRecords(parts);
    return Ok(runningRequests);
  }

  /** The loop of parseRunningRequests: each record is trimmed and parsed, in order. */
  method ParseRunningRequestRecords(parts: seq<string>) returns (runningRequests: seq<Properties>)
    ensures runningRequests == Map(parts, RunningRequestOfRecord)
  {
    runningRequests := [];
    for i := 0 to |parts|
      invariant runningRequests == Map(parts[..i], RunningRequestOfRecord)
    {
      var request := ParseRunningRequest(Trim(parts[i]));
      MapSnoc(parts, i, RunningRequestOfRecord);
      runningRequests := runningRequests + [request];
    }
    assert parts[..|parts|] == parts;
  }

  /** parseJavaThreads. */
  method ParseJavaThreads(content: string) returns (r: Result<seq<JavaThread>, ParseError>)
    ensures r == JavaThreadsOf(content)
  {
    var parts := JavaThreadRecords(content);
    if parts == [] {
      return Err(NoJavaThreads);
    }
    var javaThreads := ParseJavaThreadRecords(parts);
    if javaThreads.None? {
      return Err(MissingThreadID);
    }
    return Ok(javaThreads.value);
  }

  /** The loop of parseJavaThreads: each record is parsed in order; a record without a thread ID stops it. */
  method ParseJavaThreadRecords(parts: seq<string>) returns (r: Option<seq<JavaThread>>)
    ensures r == MapAll(parts, JavaThreadOf)
  {
    var javaThreads: seq<JavaThread> := [];
    for i := 0 to |parts|
      invariant MapAll(parts[..i], JavaThreadOf) == Some(javaThreads)
    {
      var thread := ParseJavaThread(parts[i]);
      MapAllSnoc(parts, i, JavaThreadOf, javaThreads);
      if thread.None? {
        return None;
      }
      javaThreads := javaThreads + [thread.value];
    }
    assert parts[..|parts|] == parts;
    return Some(javaThreads);
  }

  /** `new FusionReactorAlert(emailContent)`. */
  method NewFusionReactorAlert(emailContent: string) returns (r: Result<FusionReactorAlert, ParseError>)
    ensures r == ParseAlert(emailContent)
  {
    var content := NormalizeEmailContent(emailContent);
    var runningRequests := ParseRunningRequests(content);
    if runningRequests.Err? {
      return Err(runningRequests.error);
    }
    var javaThreads := ParseJavaThreads(content);
    if javaThreads.Err? {
      return Err(javaThreads.error);
    }
    return Ok(FusionReactorAlert(runningRequests.value, javaThreads.value));
  }

  /**
    A parsed alert has one request per "Request ID:" record and one thread
    per "JVM ID:" record of the normalized e-mail, at least one of each, and
    every thread is consistent.
  */
  lemma ParsedAlertShape(content: string)
    requires AlertOf(content).Ok?
    ensures var alert := AlertOf(content).value;
            && |alert.runningRequests| == |RunningRequestRecords(content)| > 0
            && |alert.javaThreads| == |JavaThreadRecords(content)| > 0
            && forall i :: 0 <= i < |alert.javaThreads| ==> Consistent(alert.javaThreads[i])
  {
    var alert := AlertOf(content).value;
    var parts := JavaThreadRecords(content);
    forall i | 0 <= i < |alert.javaThreads| ensures Consistent(alert.javaThreads[i]) {
      assert JavaThreadOf(parts[i]) == Some(alert.javaThreads[i]);
    }
  }
}
