# FusionReactor alert parser, modelled in Dafny

This project models `FusionReactorAlert`, the parser in
`examples/javascript/js/beans/fusion-reactor-alert.js`. It takes the text of
a FusionReactor alert e-mail and returns two things:

- the list of running requests, each a dictionary of fields;
- the list of Java threads, each with its properties and a stack trace whose
  items are flagged when they name a ColdFusion template (`.cfm` / `.cfc`).

From these two lists it builds two reports:

- the running requests, longest-running first, each with its thread attached;
- the active CFThreads.

The files follow the pipeline of the constructor:

| file | module | what it holds |
|---|---|---|
| `wrappers.dfy` | `Wrappers` | `Option`, `Result`, and `Get` (an object lookup that yields `undefined`) |
| `js_text.dfy` | `JsText` | the string operations the parser relies on: `\s`, `trim`, `indexOf`, `slice`, `replace` with a string pattern, `split(/\n+/)` |
| `js_number.dfy` | `JsNumber` | `value * 1` on a string: a finite number or NaN |
| `seqs.dfy` | `Seqs` | `Filter`, `Map` and `MapAll`: the push loops of the source, as functions |
| `normalizer.dfy` | `Normalizer` | `normalizeEmailContent`, as a chain of rewrites |
| `sections.dfy` | `Sections` | `extractJavaThreadsSection` and `extractRunningRequestsSection`, plus the record splitting done by `match(/…/g)` |
| `field_parser.dfy` | `FieldParser` | the label translation, the key/value loop, and `parseRunningRequest` |
| `threads.dfy` | `Threads` | `parseJavaThread` and the stack-trace classification |
| `alert.dfy` | `Alert` | `parseRunningRequests`, `parseJavaThreads`, the constructor, and the public and report methods |

The source's loops are methods with loop invariants, each proved equal to a
function. The properties are proved about those functions:

- no carriage return survives normalization;
- a label is replaced at its first occurrence only;
- a line splits at its first colon;
- the last line with a key wins;
- records begin with their anchor and hold no stop text;
- a parsed thread is consistent (defined below);
- the thread link is the first thread with the ID;
- the request report is a permutation of the request entries, sorted by duration.

A thread is consistent when all of these hold:

- it is a CFThread exactly when its ID starts with `cfthread-`, in any case;
- every stack item is one non-empty line;
- the ColdFusion stack holds exactly the ColdFusion items, in order;
- `hasColdFusion` is true exactly when that stack is non-empty.

Where the code does something other than what a reader of its comments might expect, the model follows the code:

- When `match` finds no record, it returns `null`, and `parts.length` then throws. The model returns `Err(NoRunningRequests)` or `Err(NoJavaThreads)`; zero records are never an empty list.
- A thread record without a "Thread ID" line makes `threadID.search` throw. The model returns `Err(MissingThreadID)`.
- Request records are trimmed before parsing (line 348); thread records are not (line 476).
- A line without a colon is not rejected. `indexOf` gives -1, so the key is the line minus its last character, and the value is the whole line.
- A missing anchor is not an error. `indexOf` gives -1, and `slice` counts that from the end of the text.
- `* 1` on text that is not a number gives NaN, not an error.
- The request label table has 28 entries. "AMF Request" becomes `amfRquest`, spelled as in the source. The "method" key is kept as the report field `requestMethod`.

## Model

| member | source | states |
|---|---|---|
| Wrappers.Get | examples/javascript/js/beans/fusion-reactor-alert.js:181-208 | a property read yields a value exactly when the key is in the object, and then the stored value |
| JsText.TrimSet | examples/javascript/js/beans/fusion-reactor-alert.js:486-492 | the trimmed text neither starts nor ends with a trimmed character and holds no character the input lacks |
| JsText.TrimSetCutsOnlySet | examples/javascript/js/beans/fusion-reactor-alert.js:486-492 | trimming keeps one contiguous piece of the input, and everything cut before and after it is whitespace |
| JsText.TrimUnchanged | examples/javascript/js/beans/fusion-reactor-alert.js:486-492 | text that neither starts nor ends with whitespace is unchanged by `trim` |
| JsText.TrimIdempotent | examples/javascript/js/beans/fusion-reactor-alert.js:486-492 | trimming twice equals trimming once |
| JsText.Trim | examples/javascript/js/beans/fusion-reactor-alert.js:486-492 | the trimmed text is no longer than the input and neither starts nor ends with whitespace |
| JsText.IndexOfFrom | examples/javascript/js/beans/fusion-reactor-alert.js:322 | `indexOf` yields the first position where the pattern occurs, or -1 exactly when it occurs nowhere |
| JsText.SlicePosition | examples/javascript/js/beans/fusion-reactor-alert.js:103 | every position `slice` reads lands inside the string |
| JsText.Slice | examples/javascript/js/beans/fusion-reactor-alert.js:103 | `slice` yields a contiguous piece of the text starting at the clamped start position, and exactly `s[start..end]` when both positions are in order and in range |
| JsText.ReplaceFirst | examples/javascript/js/beans/fusion-reactor-alert.js:286 | `replace` with a string pattern rewrites only the first occurrence, and leaves text without the pattern unchanged |
| JsText.SplitLinesSingleLines | examples/javascript/js/beans/fusion-reactor-alert.js:316 | no piece of `split(/\n+/)` holds a line feed |
| JsText.SplitLines | examples/javascript/js/beans/fusion-reactor-alert.js:316 | `split(/\n+/)` yields at least one piece, and no piece holds a line feed |
| JsText.SplitLinesInnerPieces | examples/javascript/js/beans/fusion-reactor-alert.js:316 | every piece between the first and the last is non-empty, and so is the first when the text does not start with a line feed |
| JsText.SplitLinesLastPiece | examples/javascript/js/beans/fusion-reactor-alert.js:316 | the last piece is non-empty when the text does not end with a line feed |
| JsText.JoinSplitLines | examples/javascript/js/beans/fusion-reactor-alert.js:316 | on text without blank lines, joining the pieces with line feeds gives the text back |
| JsText.JoinSplitLinesCollapses | examples/javascript/js/beans/fusion-reactor-alert.js:316 | on text that neither starts nor ends with a line feed, joining the pieces with line feeds gives the text with every run of line feeds collapsed to one |
| JsText.CollapseBreaksHasNoBlankLines | examples/javascript/js/beans/fusion-reactor-alert.js:316 | collapsed text keeps its first character and has no blank line |
| JsText.NoBlankLinesPiece | examples/javascript/js/beans/fusion-reactor-alert.js:372 | a piece of text without blank lines has no blank lines either |
| JsNumber.ToNumber | examples/javascript/js/beans/fusion-reactor-alert.js:184 | `undefined * 1` is NaN |
| JsNumber.TrimmedToNumber | examples/javascript/js/beans/fusion-reactor-alert.js:189 | an empty string converts to 0 |
| JsNumber.Signed | examples/javascript/js/beans/fusion-reactor-alert.js:189 | the conversion is NaN exactly when the text is not a decimal literal |
| JsNumber.ToNumberOfDigits | examples/javascript/js/beans/fusion-reactor-alert.js:189 | a string of digits, with or without a minus sign, converts to its value |
| JsNumber.ToNumberOfDecimal | examples/javascript/js/beans/fusion-reactor-alert.js:189 | the decimal notation of any whole number, with or without a minus sign, converts back to that number |
| Seqs.Filter | examples/javascript/js/beans/fusion-reactor-alert.js:42-52 | a filter keeps only elements that pass the test, and keeps every element that passes it |
| Seqs.FilterEmpty | examples/javascript/js/beans/fusion-reactor-alert.js:447-452 | the filtered list is empty exactly when no element passes the test |
| Seqs.MapAll | examples/javascript/js/beans/fusion-reactor-alert.js:472-478 | a parse of every element fails exactly when one element fails, and otherwise yields each element's result in order |
| Seqs.FilterConcat | examples/javascript/js/beans/fusion-reactor-alert.js:447-452 | filtering a concatenation is concatenating the filtered parts |
| Normalizer.StandardizeLineBreaks | examples/javascript/js/beans/fusion-reactor-alert.js:254 | no carriage return is left, text without one is unchanged, and only line feeds are added |
| Normalizer.StandardizeConcat | examples/javascript/js/beans/fusion-reactor-alert.js:254 | standardizing line breaks distributes over a split that does not cut a carriage return from what follows it |
| Normalizer.StandardizeCrLf | examples/javascript/js/beans/fusion-reactor-alert.js:254 | a "\r\n" pair becomes one line feed and the text on each side is standardized on its own |
| Normalizer.StandardizeLoneCr | examples/javascript/js/beans/fusion-reactor-alert.js:254 | a carriage return not followed by a line feed becomes one line feed |
| Normalizer.StandardizeLf | examples/javascript/js/beans/fusion-reactor-alert.js:254 | a line feed stays one line feed |
| Normalizer.StripLines | examples/javascript/js/beans/fusion-reactor-alert.js:257 | stripping adds no character; by the two lemmas below, each line becomes its trimmed self and each terminator stays |
| Normalizer.StripLinesOneLine | examples/javascript/js/beans/fusion-reactor-alert.js:257 | text without a line terminator is one line and becomes that line with its leading and trailing spaces and tabs removed |
| Normalizer.StripLinesNextLine | examples/javascript/js/beans/fusion-reactor-alert.js:257 | the first line becomes its trimmed self, its terminator stays, and the rest is stripped on its own |
| Normalizer.StripLinesStripsEveryLine | examples/javascript/js/beans/fusion-reactor-alert.js:257 | after stripping, no line starts or ends with a space or tab: every space or tab left lies between two characters that are not line terminators |
| Normalizer.StripLinesKeepsTerminators | examples/javascript/js/beans/fusion-reactor-alert.js:257 | stripping keeps every line terminator, in order |
| Normalizer.StripLinesKeepsText | examples/javascript/js/beans/fusion-reactor-alert.js:257 | stripping removes only spaces and tabs: every other character is kept, in order |
| Normalizer.TrimKeepsText | examples/javascript/js/beans/fusion-reactor-alert.js:257 | trimming one line's spaces and tabs keeps its other characters, in order |
| Normalizer.NativeMethodAt | examples/javascript/js/beans/fusion-reactor-alert.js:263 | a match of `\[Native\s+Method\]` is non-empty and becomes `[Native Method]` |
| Normalizer.NativeMethodAtMatchesShape | examples/javascript/js/beans/fusion-reactor-alert.js:263 | the scanner matches exactly `[Native`, one or more whitespace characters, `Method]`, and replaces that with `[Native Method]` |
| Normalizer.WrappedThreadNameAt | examples/javascript/js/beans/fusion-reactor-alert.js:266 | a wrapped thread name is rejoined with nothing new but a space |
| Normalizer.WrappedThreadNameAtMatchesShape | examples/javascript/js/beans/fusion-reactor-alert.js:266 | the scanner matches exactly "FusionReactor Web Server (", a non-empty run without line feed or `)`, one line feed, and a non-empty run without line feed or `)` ending at `)`; the line feed becomes a space |
| Normalizer.WrappedUserAgentAt | examples/javascript/js/beans/fusion-reactor-alert.js:269 | a wrapped user agent is rejoined with nothing new but a space |
| Normalizer.WrappedUserAgentAtMatchesShape | examples/javascript/js/beans/fusion-reactor-alert.js:269 | the scanner matches exactly "User Agent:", a non-empty rest of line, one line feed, and a next line that starts with a non-whitespace character; the line feed becomes a space |
| Normalizer.MatchAt | examples/javascript/js/beans/fusion-reactor-alert.js:260-272 | every rewrite consumes at least one character and inserts only its own replacement characters |
| Normalizer.ReplaceEvery | examples/javascript/js/beans/fusion-reactor-alert.js:260-272 | a global rewrite adds no character beyond its replacement, and leaves text where it never matches unchanged |
| Normalizer.ReplaceEveryCopiesUntouched | examples/javascript/js/beans/fusion-reactor-alert.js:260-272 | text before the first match of a global rewrite is copied unchanged |
| Normalizer.UrlsRejoined | examples/javascript/js/beans/fusion-reactor-alert.js:260 | after the URL rewrite no line feed is followed by "http" |
| Normalizer.NoRewriteInsertsCarriageReturn | examples/javascript/js/beans/fusion-reactor-alert.js:260-272 | none of the rewrites after line-break standardization inserts a carriage return |
| Normalizer.NormalizeEmailContent | examples/javascript/js/beans/fusion-reactor-alert.js:249-276 | the normalized e-mail holds no carriage return |
| Sections.HeaderMatch | examples/javascript/js/beans/fusion-reactor-alert.js:106 | a match of `JVM Stack Trace\s+-+` starts with "JVM Stack Trace" and is longer than it |
| Sections.HeaderMatchShape | examples/javascript/js/beans/fusion-reactor-alert.js:106 | a header match is exactly "JVM Stack Trace", one or more whitespace characters and the longest run of dashes after them, and every such text is matched at that length |
| Sections.FirstHeader | examples/javascript/js/beans/fusion-reactor-alert.js:106 | the search finds the first position where the header pattern matches, or -1 when it matches nowhere |
| Sections.FirstHeaderFindsFirstMatch | examples/javascript/js/beans/fusion-reactor-alert.js:106 | the first position where the header matches is the one found |
| Sections.StripThreadsHeaderCutsFirstMatch | examples/javascript/js/beans/fusion-reactor-alert.js:106 | exactly the first header match is cut out, and the text around it is kept |
| Sections.StripThreadsHeader | examples/javascript/js/beans/fusion-reactor-alert.js:106 | removing the header never lengthens the text, and leaves it unchanged exactly when the header matches nowhere |
| Sections.JavaThreadsSectionBetweenAnchors | examples/javascript/js/beans/fusion-reactor-alert.js:97-109 | with both anchors present, the thread section is the text between their first occurrences, or empty when they are out of order |
| Sections.JavaThreadsSection | examples/javascript/js/beans/fusion-reactor-alert.js:97-109 | the thread section is a piece of the normalized text with its header removed |
| Sections.JavaThreadsSectionWithoutRequests | examples/javascript/js/beans/fusion-reactor-alert.js:97-109 | without the requests anchor, the thread section stops one character before the end of the text |
| Sections.RunningRequestsSectionFromAnchor | examples/javascript/js/beans/fusion-reactor-alert.js:113-121 | the request section is the suffix starting at the first "Running Requests (Full Details)" |
| Sections.RunningRequestsSection | examples/javascript/js/beans/fusion-reactor-alert.js:113-121 | the request section is a suffix of the text, and it starts with "Running Requests (Full Details)" whenever that occurs |
| Sections.RunningRequestsSectionWithoutAnchor | examples/javascript/js/beans/fusion-reactor-alert.js:113-121 | without the anchor, the request section is the last character of the text |
| Sections.RecordSpansChain | examples/javascript/js/beans/fusion-reactor-alert.js:342 | each record the global match finds starts at a start anchor and runs to the next stop text or the end; each begins where the one before it ends or later |
| Sections.RecordSpansAreRecords | examples/javascript/js/beans/fusion-reactor-alert.js:342 | every record begins with the start anchor, holds at least one more character and no stop text after the anchor, and ends at a stop text or the end |
| Sections.RecordSpansOrdered | examples/javascript/js/beans/fusion-reactor-alert.js:470 | records come in text order and do not overlap |
| Sections.RecordSpansNoneLeft | examples/javascript/js/beans/fusion-reactor-alert.js:342 | when there is no match, every start anchor is directly followed by a stop text or the end |
| Sections.RecordSpansComplete | examples/javascript/js/beans/fusion-reactor-alert.js:342 | every position where a record could begin lies inside some record the scan finds: no record is skipped |
| Sections.RequestRecordHasOneHeader | examples/javascript/js/beans/fusion-reactor-alert.js:342 | a request record starts with "Request ID:" and holds no second one |
| Sections.ThreadRecordHasNoDivider | examples/javascript/js/beans/fusion-reactor-alert.js:470 | a thread record starts with "JVM ID:" and holds no run of nine dashes |
| Sections.RunningRequestRecords | examples/javascript/js/beans/fusion-reactor-alert.js:340-342 | every record of the request section starts with "Request ID:" and holds no second one |
| Sections.JavaThreadRecords | examples/javascript/js/beans/fusion-reactor-alert.js:468-470 | every record of the thread section starts with "JVM ID:" and holds no run of nine dashes |
| FieldParser.TranslateLabels | examples/javascript/js/beans/fusion-reactor-alert.js:286-313 | text holding none of the labels is unchanged, and when only the last label of the table occurs, the translation is a first-occurrence `replace` of that label |
| FieldParser.TranslateLabelsStep | examples/javascript/js/beans/fusion-reactor-alert.js:286-313 | for every prefix of the table, translating one more label applies that label's first-occurrence `replace` to the text the earlier labels left |
| FieldParser.KeyValueSplitsAtFirstColon | examples/javascript/js/beans/fusion-reactor-alert.js:321-324 | a line splits at its first colon into a trimmed key and a trimmed value, and the colon belongs to neither |
| FieldParser.KeyValueWithoutColon | examples/javascript/js/beans/fusion-reactor-alert.js:321-324 | a line without a colon gives the line minus its last character as key, and the whole line as value |
| FieldParser.KeyValue | examples/javascript/js/beans/fusion-reactor-alert.js:321-324 | the key and the value are both trimmed, and the key holds no colon |
| FieldParser.StoreLinesHasKey | examples/javascript/js/beans/fusion-reactor-alert.js:319-328 | a key is stored exactly when some line has it |
| FieldParser.StoreLinesLastValue | examples/javascript/js/beans/fusion-reactor-alert.js:319-328 | a stored key holds the value of the last line with that key |
| FieldParser.PropertiesLastWins | examples/javascript/js/beans/fusion-reactor-alert.js:319-328 | over all lines, a key is present exactly when a line has it, and its value comes from the last such line |
| FieldParser.CollectProperties | examples/javascript/js/beans/fusion-reactor-alert.js:393-403 | the key/value loop leaves the dictionary in which later lines overwrite earlier ones |
| FieldParser.ParseRunningRequest | examples/javascript/js/beans/fusion-reactor-alert.js:280-332 | a request record is translated, split into lines and collected into that dictionary |
| FieldParser.RunningRequestOf | examples/javascript/js/beans/fusion-reactor-alert.js:280-332 | every key of a parsed request is trimmed and colon-free, and every value is trimmed |
| FieldParser.StoreLinesClean | examples/javascript/js/beans/fusion-reactor-alert.js:319-328 | when every line splits into a trimmed, colon-free key and a trimmed value, the key/value loop stores only such pairs |
| FieldParser.StoreLinesTrimmed | examples/javascript/js/beans/fusion-reactor-alert.js:319-328 | with the first-colon split, the key/value loop stores only trimmed, colon-free keys and trimmed values |
| Threads.JavaThread.Field | examples/javascript/js/beans/fusion-reactor-alert.js:136-141 | a thread field is defined exactly when the stored properties hold it: the record's keys minus the four derived keys isCFThread, stacktrace, coldfusionStacktrace and hasColdFusion |
| Threads.IsCFThreadIDByLetters | examples/javascript/js/beans/fusion-reactor-alert.js:407 | an ID is a CFThread ID exactly when its first nine characters spell "cfthread-" with each letter in either case |
| Threads.HasColdFusionReferenceLowered | examples/javascript/js/beans/fusion-reactor-alert.js:432-443 | a stack item is a ColdFusion item exactly when its lower-cased code contains ".cfm" or ".cfc" |
| Threads.SplitThreadRecord | examples/javascript/js/beans/fusion-reactor-alert.js:367-379 | the property text has no blank line, and the stack-trace text is trimmed |
| Threads.SplitAtFirstBlankLine | examples/javascript/js/beans/fusion-reactor-alert.js:367-374 | where the first blank line starts at i, the property text is the trimmed text before i and the stack-trace text is the trimmed text after position i |
| Threads.SplitWithoutBlankLine | examples/javascript/js/beans/fusion-reactor-alert.js:367-379 | a record without a blank line is all property text, untrimmed, with empty stack-trace text |
| Threads.PropertyTextBeforeBlankLine | examples/javascript/js/beans/fusion-reactor-alert.js:367-372 | the property text cut before the first blank line has no blank line |
| Threads.StackTraceLines | examples/javascript/js/beans/fusion-reactor-alert.js:410-418 | there are no stack lines exactly when the stack-trace text is empty, and trimmed text gives non-empty lines without line feeds |
| Threads.TrimmedLinesNonEmpty | examples/javascript/js/beans/fusion-reactor-alert.js:410-418 | non-empty trimmed text splits into non-empty single lines |
| Threads.StackTraceItems | examples/javascript/js/beans/fusion-reactor-alert.js:435-443 | there is one stack item per line, in order, each flagged exactly when its code names a `.cfm` or `.cfc` file |
| Threads.StackTraceLinesRoundTrip | examples/javascript/js/beans/fusion-reactor-alert.js:410-418 | stack-trace text without blank lines is given back by joining its lines |
| Threads.StackTraceLinesCollapse | examples/javascript/js/beans/fusion-reactor-alert.js:410-418 | joining the stack lines of trimmed text gives that text with every blank-line run collapsed to one line feed |
| Threads.ThreadFromConsistent | examples/javascript/js/beans/fusion-reactor-alert.js:405-456 | a thread built from single non-empty lines is consistent |
| Threads.JavaThreadOf | examples/javascript/js/beans/fusion-reactor-alert.js:358-460 | a record parses exactly when its property text has a "Thread ID" line; a parsed thread stores the properties read from the property text minus the derived keys, its stack trace is one classified item per line of the stack-trace text, and it is consistent |
| Threads.ClassifyStackTrace | examples/javascript/js/beans/fusion-reactor-alert.js:423-456 | the loop yields one item per line, the ColdFusion items in order, and a flag that is true exactly when there is one |
| Threads.ParseJavaThread | examples/javascript/js/beans/fusion-reactor-alert.js:358-460 | parseJavaThread yields the thread of the record, or fails where the source throws |
| Threads.ParseThreadProperties | examples/javascript/js/beans/fusion-reactor-alert.js:381-403 | the property half translates the four labels, splits the text into lines and collects the dictionary in which later lines win |
| Threads.BuildJavaThread | examples/javascript/js/beans/fusion-reactor-alert.js:405-456 | the thread keeps the properties except the derived keys, is flagged by its ID, and carries the classified stack trace |
| Alert.ThreadWithID | examples/javascript/js/beans/fusion-reactor-alert.js:151-168 | the lookup finds nothing exactly when no thread has the ID, and otherwise the first thread that has it |
| Alert.ThreadWithIDIsFirst | examples/javascript/js/beans/fusion-reactor-alert.js:151-168 | the first thread with the ID is the one found |
| Alert.ActiveColdFusionThreadMeans | examples/javascript/js/beans/fusion-reactor-alert.js:237-245 | a thread is an active CFThread exactly when it is a CFThread with a stack trace whose top item nowhere contains "java.lang.Object.wait" |
| Alert.RequestEntry | examples/javascript/js/beans/fusion-reactor-alert.js:180-218 | a report entry keeps the request's thread and method; its thread ID is present exactly when the request has one; a missing duration is NaN and a digit string becomes its value |
| Alert.ThreadReportOf | examples/javascript/js/beans/fusion-reactor-alert.js:135-142 | a thread report entry keeps the stack trace and the CFThread flag; its IDs are present exactly when the thread has them; a consistent thread's entry has an ID whose prefix decides the flag |
| Alert.SortByDuration | examples/javascript/js/beans/fusion-reactor-alert.js:222-229 | the sorted report has its durations in descending order and is a permutation of its input |
| Alert.InsertBy | examples/javascript/js/beans/fusion-reactor-alert.js:223-229 | inserting into a list sorted longest-first keeps it sorted and adds exactly the new element |
| Alert.SortBy | examples/javascript/js/beans/fusion-reactor-alert.js:223-229 | the sort yields its input in descending key order, with no element added or lost |
| Alert.FusionReactorAlert.GetColdFusionThreads | examples/javascript/js/beans/fusion-reactor-alert.js:38-56 | the result is exactly the active CFThreads, in thread order |
| Alert.FusionReactorAlert.GetColdFusionThreadsReport | examples/javascript/js/beans/fusion-reactor-alert.js:125-148 | there is one entry per active CFThread, in order, with its six fields |
| Alert.FusionReactorAlert.GetJavaThreadByID | examples/javascript/js/beans/fusion-reactor-alert.js:152-168 | the result is the first thread with the ID, or none |
| Alert.FusionReactorAlert.GetRunningRequestsReport | examples/javascript/js/beans/fusion-reactor-alert.js:172-233 | the report is a permutation of the request entries, each with its first matching thread, sorted by duration descending |
| Alert.FusionReactorAlert.RequestEntries | examples/javascript/js/beans/fusion-reactor-alert.js:172-218 | the report loop yields one entry per request, in order, each with the first thread that has the request's thread ID |
| Alert.FusionReactorAlert.GetReport | examples/javascript/js/beans/fusion-reactor-alert.js:70-79 | the report pairs the sorted request report with the ColdFusion-threads report |
| Alert.ReportEntriesComeFromRequests | examples/javascript/js/beans/fusion-reactor-alert.js:211-218 | the report has one entry per request, and every entry is some request's entry with that request's first matching thread |
| Alert.RunningRequestsOf | examples/javascript/js/beans/fusion-reactor-alert.js:336-354 | request parsing fails exactly when there is no "Request ID:" record, and otherwise yields, for each record in order, that record trimmed and parsed |
| Alert.JavaThreadsOf | examples/javascript/js/beans/fusion-reactor-alert.js:464-482 | thread parsing fails without records, or exactly when a record has no thread ID, and otherwise yields one thread per record, in order |
| Alert.ParseRunningRequests | examples/javascript/js/beans/fusion-reactor-alert.js:336-354 | parseRunningRequests computes exactly that result |
| Alert.ParseRunningRequestRecords | examples/javascript/js/beans/fusion-reactor-alert.js:344-350 | the loop parses each trimmed record, in order |
| Alert.ParseJavaThreads | examples/javascript/js/beans/fusion-reactor-alert.js:464-482 | parseJavaThreads computes exactly that result |
| Alert.ParseJavaThreadRecords | examples/javascript/js/beans/fusion-reactor-alert.js:472-478 | the loop parses each record in order, and fails at the first record without a thread ID |
| Alert.NewFusionReactorAlert | examples/javascript/js/beans/fusion-reactor-alert.js:12-20 | the constructor normalizes the e-mail, then parses the requests, then the threads |
| Alert.ParsedAlertShape | examples/javascript/js/beans/fusion-reactor-alert.js:12-20 | a parsed alert has one request per request record and one thread per thread record, at least one of each, and every thread is consistent |
| Alert.AlertOf | examples/javascript/js/beans/fusion-reactor-alert.js:12-20 | the constructor fails with no requests, then no threads, then a missing thread ID, each exactly in its case and in the source's order |
| Alert.ParseAlert | examples/javascript/js/beans/fusion-reactor-alert.js:12-20 | a parsed alert has at least one request and one thread, and every thread is consistent |

## Left out

- The Angular wrapping is not modelled: the `app.factory` registration and the closure that returns the constructor (lines 1-8 and 497-502). Neither computes anything.
- `getJavaThreads` and `getRunningRequests` are the destructors `javaThreads` and `runningRequests` of `FusionReactorAlert`. They only return the stored arrays, so they need no contract of their own.
- The alert is a datatype with methods, not a class. Its two arrays are never changed after construction, so there is no state to update in place.
- Strings are sequences of characters, not of UTF-16 code units. Positions in text outside the Basic Multilingual Plane would differ from JavaScript.
- Regular expressions are not modelled in general. Each pattern the source uses is a dedicated scanner. A global `replace` is a left-to-right scan that resumes after each match.
- JsNumber.ToNumber: reads only signed decimal literals, as exact reals. Hexadecimal, binary and octal literals, exponents, "Infinity" and floating-point rounding are not modelled; those strings become NaN here.
- Alert.SortByDuration: the comparator never returns 0, so `Array.prototype.sort` may put equal durations in any order. The model proves sortedness and permutation only, not the order of ties. It ranks NaN durations last, a place the source leaves to the sort implementation.
- Alert.FusionReactorAlert.GetRunningRequestsReport: same limits as `SortByDuration`. The sort itself is modelled as an insertion sort on values, not an in-place sort of a JavaScript array.
- An object key of `__proto__` behaves specially in JavaScript. The model treats it like any other key.
- A thrown `TypeError` is modelled as an `Err` result. The text of the exception is not modelled.
