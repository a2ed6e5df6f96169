/**
  The field parser of fusion-reactor-alert.js: the label translation and the
  line-by-line key/value pass that parseRunningRequest and parseJavaThread
  share, and parseRunningRequest itself.
*/
module FieldParser {
  import opened JsText

  /** One record's parsed fields: a JavaScript object used as a dictionary. */
  type Properties = map<string, string>

  /**
    The `k`-th label parseRunningRequest rewrites and the key it becomes, in
    the order it rewrites them ("amfRquest" is spelled as in the source).
  */
  function RunningRequestLabel(k: nat): (string, string)
  {
    if k == 0 then ("Request ID", "requestID")
    else if k == 1 then ("Request URL", "requestUrl")
    else if k == 2 then ("Status", "status")
    else if k == 3 then ("Started (Milliseconds)", "startedAt")
    else if k == 4 then ("Started (Date/Time)", "startedAtDate")
    else if k == 5 then ("Thread ID", "threadID")
    else if k == 6 then ("Client IP Address", "ipAddress")
    else if k == 7 then ("Request Method", "method")
    else if k == 8 then ("Execution Time (ms)", "duration")
    else if k == 9 then ("Used Memory (percentage)", "usedMemoryPercent")
    else if k == 10 then ("Max Memory (KB)", "maxMemoryKB")
    else if k == 11 then ("Used Memory (KB)", "usedMemoryKB")
    else if k == 12 then ("Total Memory (KB)", "totalMemoryKB")
    else if k == 13 then ("Free Memory (KB)", "freeMemoryKB")
    else if k == 14 then ("Query String", "queryString")
    else if k == 15 then ("Return Status Code", "statusCode")
    else if k == 16 then ("CPU Time (ms)", "cpuTime")
    else if k == 17 then ("JDBC Queries Run", "jdbcQueriesRun")
    else if k == 18 then ("JDBC Total Time", "jdbcTotalTime")
    else if k == 19 then ("JDBC Total Execution Time", "jdbcTotalExecutionTime")
    else if k == 20 then ("JDBC Total Row Count", "jdbcTotalRowCount")
    else if k == 21 then ("AMF Request", "amfRquest")
    else if k == 22 then ("Bytes Sent", "bytesSent")
    else if k == 23 then ("Time to First Byte (ms)", "timeToFirstByte")
    else if k == 24 then ("Time to Last Byte (ms)", "timeToLastByte")
    else if k == 25 then ("Time to Stream Open (ms)", "timeToStreamOpen")
    else if k == 26 then ("Time to Stream Close (ms)", "timeToStreamClose")
    else ("User Agent", "userAgent")
  }

  const RunningRequestLabelCount := 28

  /** The `k`-th label parseJavaThread rewrites and the key it becomes. */
  function JavaThreadLabel(k: nat): (string, string)
  {
    if k == 0 then ("JVM ID", "jvmID")
    else if k == 1 then ("Thread ID", "threadID")
    else if k == 2 then ("Priority", "priority")
    else ("Hashcode", "hashcode")
  }

  const JavaThreadLabelCount := 4

  /**
    The chain of `content.replace(label, key)` calls for the first `n`
    labels of a table: each label, in table order, has its first occurrence
    in the text at that point rewritten to its key. Text holding none of the
    labels is left alone, and text in which only the last label occurs has
    just that label's first occurrence rewritten. The second clause is one
    unfolding of the chain; the general behaviour, a first-occurrence
    replace of each label in table order, follows from `ReplaceFirst`'s own
    contract applied along it.
  */
  function TranslateLabels(content: string, table: nat -> (string, string), n: nat): (r: string)
    ensures (forall k, j :: 0 <= k < n ==> !OccursAt(content, table(k).0, j)) ==> r == content
    ensures n > 0 && (forall k, j :: 0 <= k < n - 1 ==> !OccursAt(content, table(k).0, j)) ==>
              r == ReplaceFirst(content, table(n - 1).0, table(n - 1).1)
  {
    if n == 0 then content
    else
      var done := TranslateLabels(content, table, n - 1);
      ReplaceFirst(done, table(n - 1).0, table(n - 1).1)
  }

  /** Translating one more label of the table applies its first-occurrence replace to what the earlier labels left. */
  lemma TranslateLabelsStep(content: string, table: nat -> (string, string), k: nat)
    ensures TranslateLabels(content, table, k + 1) == ReplaceFirst(TranslateLabels(content, table, k), table(k).0, table(k).1)
  {
  }

  /**
    One line's key and value: `part.indexOf(":")` splits it, and both halves
    are trimmed. The key never holds a colon: it is cut before the first one,
    or, without a colon, from a line that has none.
  */
  function KeyValue(part: string): (kv: (string, string))
    ensures Trim(kv.0) == kv.0 && Trim(kv.1) == kv.1
    ensures ':' !in kv.0
  {
    var indexOfDelimiter := IndexOf(part, ":");
    var key, value := Slice(part, 0, indexOfDelimiter), Slice(part, indexOfDelimiter + 1, |part|);
    NoColonBeforeFirst(part);
    TrimIdempotent(key);
    TrimIdempotent(value);
    assert forall c :: c in Trim(key) ==> c in key;
    (Trim(key), Trim(value))
  }

  /** The text `slice(0, indexOf(":"))` keeps holds no colon. */
  lemma NoColonBeforeFirst(part: string)
    ensures ':' !in Slice(part, 0, IndexOf(part, ":"))
  {
    var i := IndexOf(part, ":");
    var key := Slice(part, 0, i);
    forall j | 0 <= j < |part| && (i < 0 || j < i)
      ensures part[j] != ':'
    {
      assert !OccursAt(part, ":", j);
      assert part[j..j + 1] == [part[j]];
    }
    if i >= 0 {
      assert key == part[..i];
    } else {
      assert key == part[..|key|];
    }
  }

  /** A line with a colon splits at its first colon; the colon belongs to neither half. */
  lemma KeyValueSplitsAtFirstColon(part: string, i: nat)
    requires i < |part| && part[i] == ':' && ':' !in part[..i]
    ensures KeyValue(part) == (Trim(part[..i]), Trim(part[i + 1..]))
  {
    FirstColonFound(part, i);
    assert Slice(part, 0, i) == part[..i];
    assert Slice(part, i + 1, |part|) == part[i + 1..];
  }

  lemma FirstColonFound(part: string, i: nat)
    requires i < |part| && part[i] == ':' && ':' !in part[..i]
    ensures IndexOf(part, ":") == i
  {
    assert OccursAt(part, ":", i) by {
      assert part[i..i + 1] == [part[i]];
    }
    assert forall j :: 0 <= j < i ==> !OccursAt(part, ":", j) by {
      forall j | 0 <= j < i ensures !OccursAt(part, ":", j) {
        assert part[j] == part[..i][j] != ':';
        assert part[j..j + 1] == [part[j]];
      }
    }
  }

  /**
    A line without a colon: `indexOf` yields -1, so the key is the line
    without its last character and the value is the whole line.
  */
  lemma KeyValueWithoutColon(part: string)
    requires ':' !in part
    ensures KeyValue(part) == (Trim(if part == [] then [] else part[..|part| - 1]), Trim(part))
  {
    assert forall j :: !OccursAt(part, ":", j) by {
      forall j ensures !OccursAt(part, ":", j) {
        if 0 <= j < |part| {
          assert part[j] in part;
          assert part[j..j + 1] == [part[j]];
        }
      }
    }
    var found := IndexOf(part, ":");
    assert found == -1;
    assert Slice(part, 0, found) == if part == [] then [] else part[..|part| - 1];
    assert Slice(part, found + 1, |part|) == part by {
      if part != [] { assert part[0..|part|] == part; }
    }
  }

  /**
    The dictionary left behind by storing the first `n` lines in order, each
    under the key and with the value `split` gives it, so that a later line
    overwrites an earlier one with the same key.
  */
  function StoreLines(parts: seq<string>, n: nat, split: string -> (string, string)): Properties
    requires n <= |parts|
  {
    if n == 0 then map[]
    else
      var kv := split(parts[n - 1]);
      StoreLines(parts, n - 1, split)[kv.0 := kv.1]
  }

  /** The dictionary the key/value loop leaves behind. */
  function PropertiesOf(parts: seq<string>): Properties
  {
    StoreLines(parts, |parts|, KeyValue)
  }

  /** Among the first `n` lines, `parts[i]` is the last one whose key is `key`. */
  predicate LastWith(parts: seq<string>, n: nat, split: string -> (string, string), key: string, i: int)
    requires n <= |parts|
  {
    0 <= i < n && split(parts[i]).0 == key && forall j :: i < j < n ==> split(parts[j]).0 != key
  }

  /** A key is in the dictionary exactly when one of the stored lines has it. */
  lemma {:induction false} StoreLinesHasKey(parts: seq<string>, n: nat, split: string -> (string, string), key: string)
    requires n <= |parts|
    ensures key in StoreLines(parts, n, split) <==> exists i :: 0 <= i < n && split(parts[i]).0 == key
  {
    if n > 0 {
      StoreLinesHasKey(parts, n - 1, split, key);
      if split(parts[n - 1]).0 != key && exists i :: 0 <= i < n && split(parts[i]).0 == key {
        var i :| 0 <= i < n && split(parts[i]).0 == key;
        assert i < n - 1;
      }
    }
  }

  /** A key in the dictionary holds the value of the last stored line with that key. */
  lemma {:induction false} StoreLinesLastValue(parts: seq<string>, n: nat, split: string -> (string, string), key: string)
    requires n <= |parts| && key in StoreLines(parts, n, split)
    ensures exists i :: LastWith(parts, n, split, key, i) && split(parts[i]).1 == StoreLines(parts, n, split)[key]
  {
    var kv := split(parts[n - 1]);
    if kv.0 == key {
      assert LastWith(parts, n, split, key, n - 1);
    } else {
      StoreLinesLastValue(parts, n - 1, split, key);
      var i :| LastWith(parts, n - 1, split, key, i) && split(parts[i]).1 == StoreLines(parts, n - 1, split)[key];
      LastWithExtend(parts, n, split, key, i);
    }
  }

  /** A line with another key after the last line with `key` leaves that line the last one. */
  lemma LastWithExtend(parts: seq<string>, n: nat, split: string -> (string, string), key: string, i: int)
    requires 0 < n <= |parts| && LastWith(parts, n - 1, split, key, i) && split(parts[n - 1]).0 != key
    ensures LastWith(parts, n, split, key, i)
  {
    forall j | i < j < n ensures split(parts[j]).0 != key {
      if j < n - 1 {
        assert split(parts[j]).0 != key;
      }
    }
  }

  /** Over all the lines: a key is present exactly when a line has it, with the value of the last such line. */
  lemma PropertiesLastWins(parts: seq<string>, key: string)
    ensures key in PropertiesOf(parts) <==> exists i :: 0 <= i < |parts| && KeyValue(parts[i]).0 == key
    ensures key in PropertiesOf(parts) ==>
              exists i :: LastWith(parts, |parts|, KeyValue, key, i) && KeyValue(parts[i]).1 == PropertiesOf(parts)[key]
  {
    StoreLinesHasKey(parts, |parts|, KeyValue, key);
    if key in PropertiesOf(parts) {
      StoreLinesLastValue(parts, |parts|, KeyValue, key);
    }
  }

  /**
    The key/value loop of parseRunningRequest and parseJavaThread: each line
    is split on its first colon and stored under its trimmed key.
  */
  method CollectProperties(parts: seq<string>) returns (properties: Properties)
    ensures properties == PropertiesOf(parts)
  {
    properties := map[];
    for i := 0 to |parts|
      invariant properties == StoreLines(parts, i, KeyValue)
    {
      var part := parts[i];
      var kv := KeyValue(part);
      properties := properties[kv.0 := kv.1];
    }
  }

  /** Every key of the dictionary is trimmed and holds no colon, and every value is trimmed. */
  predicate CleanProperties(m: Properties)
  {
    forall k :: k in m ==> ':' !in k && Trim(k) == k && Trim(m[k]) == m[k]
  }

  /** Storing a clean pair keeps a dictionary clean. */
  lemma CleanUpdate(m: Properties, key: string, value: string)
    requires CleanProperties(m)
    requires ':' !in key && Trim(key) == key && Trim(value) == value
    ensures CleanProperties(m[key := value])
  {
    var m' := m[key := value];
    forall k | k in m' ensures ':' !in k && Trim(k) == k && Trim(m'[k]) == m'[k] {
      if k != key {
        assert m'[k] == m[k];
      }
    }
  }

  /** A key/value pair with a trimmed, colon-free key and a trimmed value. */
  predicate CleanPair(kv: (string, string))
  {
    ':' !in kv.0 && Trim(kv.0) == kv.0 && Trim(kv.1) == kv.1
  }

  /** The key/value loop leaves a clean dictionary when every line splits into a clean pair. */
  lemma {:induction false} StoreLinesClean(parts: seq<string>, n: nat, split: string -> (string, string))
    requires n <= |parts|
    requires forall i :: 0 <= i < n ==> CleanPair(split(parts[i]))
    ensures CleanProperties(StoreLines(parts, n, split))
  {
    if n > 0 {
      StoreLinesClean(parts, n - 1, split);
      var kv := split(parts[n - 1]);
      assert CleanPair(kv);
      CleanUpdate(StoreLines(parts, n - 1, split), kv.0, kv.1);
    }
  }

  /** With `KeyValue` as the split, the key/value loop leaves a clean dictionary. */
  lemma StoreLinesTrimmed(parts: seq<string>, n: nat)
    requires n <= |parts|
    ensures CleanProperties(StoreLines(parts, n, KeyValue))
  {
    forall i | 0 <= i < n ensures CleanPair(KeyValue(parts[i])) {
      var kv := KeyValue(parts[i]);
      assert ':' !in kv.0 && Trim(kv.0) == kv.0 && Trim(kv.1) == kv.1;
    }
    StoreLinesClean(parts, n, KeyValue);
  }

  /**
    What parseRunningRequest returns for one trimmed request record: its keys
    are trimmed and hold no colon, and its values are trimmed.
  */
  function RunningRequestOf(content: string): (r: Properties)
    ensures forall k :: k in r ==> ':' !in k && Trim(k) == k && Trim(r[k]) == r[k]
  {
    var parts := SplitLines(TranslateLabels(content, RunningRequestLabel, RunningRequestLabelCount));
    StoreLinesTrimmed(parts, |parts|);
    PropertiesOf(parts)
  }

  /** parseRunningRequest: translate the labels, split into lines, and collect the key/value pairs. */
  method ParseRunningRequest(content: string) returns (requestProperties: Properties)
    ensures requestProperties == RunningRequestOf(content)
  {
    var translated := TranslateLabels(content, RunningRequestLabel, RunningRequestLabelCount);
    var parts := SplitLines(translated);
    requestProperties := CollectProperties(parts);
  }
}
