/**
 * The in-memory request log: a newest-first buffer of at most fifty entries.
 */
module RequestLog {
  import opened JsStrings

  const MaxLogs: nat := 50

  datatype LogKind = Success | Error | Info | Warning

  /** One log line; the attached `data` object is not modelled. */
  datatype LogEntry = LogEntry(time: int, kind: LogKind, message: JsString)

  /** `unshift` the entry, then `pop` the oldest one if the buffer grew past `MaxLogs`. */
  function AddLog(log: seq<LogEntry>, entry: LogEntry): (r: seq<LogEntry>)
    ensures |r| > 0 && r[0] == entry
    ensures |r| == if |log| < MaxLogs then |log| + 1 else |log|
    ensures forall i | 0 <= i < |r| - 1 :: r[i + 1] == log[i]
    ensures |log| <= MaxLogs ==> |r| <= MaxLogs
  {
    var pushed := [entry] + log;
    if |pushed| > MaxLogs then pushed[..|pushed| - 1] else pushed
  }

  /** Logs the entries in order, oldest first. */
  function AddLogs(log: seq<LogEntry>, entries: seq<LogEntry>): seq<LogEntry>
    decreases |entries|
  {
    if |entries| == 0 then log else AddLogs(AddLog(log, entries[0]), entries[1..])
  }

  function Reverse<T>(s: seq<T>): (r: seq<T>)
    ensures |r| == |s|
    ensures |s| > 0 ==> r[0] == s[|s| - 1]
  {
    if |s| == 0 then [] else Reverse(s[1..]) + [s[0]]
  }

  /** At most the first `n` elements. */
  function Take<T>(s: seq<T>, n: nat): (r: seq<T>)
    ensures |r| == if |s| <= n then |s| else n
    ensures r <= s
  {
    if |s| <= n then s else s[..n]
  }

  lemma TakeAppendTake<T>(a: seq<T>, b: seq<T>, n: nat)
    ensures Take(a + Take(b, n), n) == Take(a + b, n)
  {
    var l := Take(a + Take(b, n), n);
    var r := Take(a + b, n);
    assert |l| == |r|;
    forall i | 0 <= i < |l| ensures l[i] == r[i] {
      if i >= |a| {
        assert l[i] == Take(b, n)[i - |a|];
      }
    }
  }

  /**
   * Starting from a buffer no longer than `MaxLogs`, logging a run of
   * entries leaves the newest `MaxLogs` of them, newest first, ahead of
   * what is left of the old buffer.
   */
  lemma {:induction false} AddLogsKeepsNewest(log: seq<LogEntry>, entries: seq<LogEntry>)
    requires |log| <= MaxLogs
    ensures AddLogs(log, entries) == Take(Reverse(entries) + log, MaxLogs)
    decreases |entries|
  {
    if |entries| == 0 {
      assert Reverse(entries) + log == log;
    } else {
      var e := entries[0];
      var next := AddLog(log, e);
      AddLogIsTake(log, e);
      AddLogsKeepsNewest(next, entries[1..]);
      TakeAppendTake(Reverse(entries[1..]), [e] + log, MaxLogs);
      ReverseConsAppend(entries, log);
    }
  }

  /** The buffer never grows past `MaxLogs`, and after a non-empty run its head is the last entry logged. */
  lemma AddLogsBounded(log: seq<LogEntry>, entries: seq<LogEntry>)
    requires |log| <= MaxLogs
    ensures |AddLogs(log, entries)| <= MaxLogs
    ensures |entries| > 0 ==> |AddLogs(log, entries)| > 0 && AddLogs(log, entries)[0] == entries[|entries| - 1]
  {
    AddLogsKeepsNewest(log, entries);
  }

  /** From a buffer within the bound, one entry keeps the first `MaxLogs` of the pushed buffer. */
  lemma AddLogIsTake(log: seq<LogEntry>, e: LogEntry)
    requires |log| <= MaxLogs
    ensures AddLog(log, e) == Take([e] + log, MaxLogs)
  {
  }

  lemma ReverseConsAppend<T>(s: seq<T>, t: seq<T>)
    requires |s| > 0
    ensures Reverse(s[1..]) + ([s[0]] + t) == Reverse(s) + t
  {
    ReverseCons(s);
    AppendAssoc(Reverse(s[1..]), [s[0]], t);
  }

  lemma ReverseCons<T>(s: seq<T>)
    requires |s| > 0
    ensures Reverse(s) == Reverse(s[1..]) + [s[0]]
  {
  }
}
