/** The query monitor: a start/stop session state machine that captures
    `sql.active_record` notifications into a bounded buffer and, when a log
    file is configured, appends session markers and the captured queries to it.

    The process-shared cache (`enabled`, `session_id`), the notification
    subscription, the buffer and the log file are one explicit state record;
    a cache that is not available reads as empty and ignores writes. Fresh
    session ids, timestamps, rounded durations and the call stack are inputs. */
module QueryMonitor {
  import opened Common
  import opened Text
  import opened Lists

  /** One frame of a Ruby backtrace. */
  datatype CallFrame = CallFrame(path: string, lineno: int, caller: string)

  /** Where in the application a query was issued. */
  datatype SourceLocation = SourceLocation(file: string, line: int, methodName: string)

  /** An `sql.active_record` notification: the payload fields the monitor
      reads, the duration already rounded to milliseconds, and the frames
      of the call stack below the notification handler, innermost first. */
  datatype Event = Event(
    name: Option<string>,
    sql: Option<string>,
    cached: bool,
    durationMs: real,
    stack: seq<CallFrame>)

  /** A captured query, as buffered and as written to the log. */
  datatype Entry = Entry(
    sessionId: Option<string>,
    sql: Option<string>,
    durationMs: real,
    name: Option<string>,
    source: Option<SourceLocation>,
    timestamp: string)

  /** One line of the log file, as `JSON.parse` reads it back: not JSON at
      all, JSON that is not an object, an object whose type is not "query"
      (the session markers), or a query record. */
  datatype LogLine =
    | Malformed
    | NotAnObject
    | Marker(kind: string, sessionId: Option<string>, timestamp: string)
    | QueryRecord(entry: Entry)

  /** The settings the monitor reads: whether `Rails.cache` exists,
      `query_monitor_max_queries` and `query_monitor_log_file`. */
  datatype MonitorConfig = MonitorConfig(cacheAvailable: bool, maxQueries: nat, logFile: Option<string>)

  /** The monitor's state: the two cache entries (an absent `enabled` entry
      reads as false), whether this process holds a subscription, the
      in-memory buffer, and the log file's lines (None while it does not exist). */
  datatype Monitor = Monitor(
    cacheEnabled: bool,
    cacheSessionId: Option<string>,
    subscribed: bool,
    buffer: seq<Entry>,
    log: Option<seq<LogLine>>)

  /** The hash `start` and `stop` return: a refusal with a message, success
      with a message and session id, or a rescued exception's message. */
  datatype Reply =
    | Refused(message: string)
    | Done(message: string, sessionId: Option<string>)
    | Failed(error: string)

  /** What `start` and `stop` produce: the reply and the state after it. */
  type Transition = (Reply, Monitor)

  datatype Status = Status(enabled: bool, sessionId: Option<string>, queryCount: nat)

  // ---------------------------------------------------------------------------
  // Reading the shared state

  /** `log_file_enabled?`: a log path is configured and not blank. */
  predicate LogEnabled(c: MonitorConfig) {
    c.logFile.Some? && !IsBlank(c.logFile.value)
  }

  /** `enabled`: reads the cache, so it is false whenever there is no cache. */
  predicate Enabled(c: MonitorConfig, m: Monitor) {
    c.cacheAvailable && m.cacheEnabled
  }

  /** `session_id`: reads the cache. */
  function SessionId(c: MonitorConfig, m: Monitor): Option<string> {
    if c.cacheAvailable then m.cacheSessionId else None
  }

  function WriteCache(c: MonitorConfig, m: Monitor, enabled: bool, sessionId: Option<string>): Monitor {
    if c.cacheAvailable then m.(cacheEnabled := enabled, cacheSessionId := sessionId) else m
  }

  /** Appends lines to the log file, creating it if needed; nothing happens
      without a configured log path. */
  function AppendLog(c: MonitorConfig, m: Monitor, lines: seq<LogLine>): (r: Monitor)
    ensures r.(log := m.log) == m
    ensures !LogEnabled(c) ==> r == m
    ensures LogEnabled(c) ==> r.log == Some(m.log.GetOr([]) + lines)
  {
    if LogEnabled(c) then m.(log := Some(m.log.GetOr([]) + lines)) else m
  }

  /** `write_session_marker`: one marker line carrying the current session
      id goes after the existing lines; nothing else changes. */
  function WriteSessionMarker(c: MonitorConfig, m: Monitor, kind: string, timestamp: string): (r: Monitor)
    ensures r.(log := m.log) == m
    ensures !LogEnabled(c) ==> r == m
    ensures LogEnabled(c) ==>
      && r.log.Some? && |r.log.value| == |m.log.GetOr([])| + 1
      && r.log.value[..|r.log.value| - 1] == m.log.GetOr([])
      && r.log.value[|r.log.value| - 1] == Marker(kind, SessionId(c, m), timestamp)
  {
    var r := AppendLog(c, m, [Marker(kind, SessionId(c, m), timestamp)]);
    assert LogEnabled(c) ==> r.log.value[..|r.log.value| - 1] == m.log.GetOr([]);
    r
  }

  function Records(entries: seq<Entry>): (r: seq<LogLine>)
    ensures |r| == |entries|
    ensures forall i :: 0 <= i < |r| ==> r[i] == QueryRecord(entries[i])
  {
    seq(|entries|, i requires 0 <= i < |entries| => QueryRecord(entries[i]))
  }

  /** `flush_to_file`: the buffered entries, in order; the file is not even
      opened for an empty buffer. Reading the log back afterwards gives what
      it gave before followed by the buffer. */
  function FlushToFile(c: MonitorConfig, m: Monitor): (r: Monitor)
    ensures r.(log := m.log) == m
    ensures !LogEnabled(c) || m.buffer == [] ==> r == m
    ensures LogEnabled(c) && m.buffer != [] ==> r.log.Some?
    ensures LogEnabled(c) ==>
      && LoggedQueries(r.log.GetOr([]), None) == LoggedQueries(m.log.GetOr([]), None) + m.buffer
      && AbortsRead(r.log.GetOr([])) == AbortsRead(m.log.GetOr([]))
  {
    if |m.buffer| == 0 then m
    else
      var earlier := m.log.GetOr([]);
      assert LoggedQueries(earlier + Records(m.buffer), None) == LoggedQueries(earlier, None) + m.buffer by {
        LoggedQueriesAppend(earlier, Records(m.buffer), None);
        LoggedQueriesOfRecords(m.buffer, None);
      }
      assert AbortsRead(earlier + Records(m.buffer)) == AbortsRead(earlier) by {
        var lines := earlier + Records(m.buffer);
        assert forall i :: 0 <= i < |earlier| ==> lines[i] == earlier[i];
        assert forall i :: |earlier| <= i < |lines| ==> lines[i] == Records(m.buffer)[i - |earlier|];
      }
      AppendLog(c, m, Records(m.buffer))
  }

  // ---------------------------------------------------------------------------
  // Lifecycle

  /** The monitor as `initialize` leaves it: empty buffer, and subscribed
      exactly when the cache says monitoring is on. */
  function Boot(c: MonitorConfig, cacheEnabled: bool, cacheSessionId: Option<string>, log: Option<seq<LogLine>>): (m: Monitor)
    ensures m.buffer == [] && m.log == log
    ensures m.subscribed <==> Enabled(c, m)
  {
    var m := Monitor(cacheEnabled, cacheSessionId, false, [], log);
    m.(subscribed := Enabled(c, m))
  }

  /** `start`. `newId` is the fresh session id; `subscribeError` is the
      message of the exception subscribing raises, if it does. Already
      running: refused, nothing changes. Subscribing failed: the flag is
      written back to false. Success: a fresh session, an empty buffer, one
      subscription and one start marker. */
  function Start(c: MonitorConfig, m: Monitor, newId: string, subscribeError: Option<string>, timestamp: string): (r: Transition)
    ensures Enabled(c, m) ==> r == (Refused("Monitoring already active"), m)
    ensures !Enabled(c, m) && !m.subscribed && subscribeError.Some? ==>
      r.0 == Failed(subscribeError.value) && !Enabled(c, r.1) && r.1.buffer == [] && r.1.log == m.log
    ensures r.0.Done? ==>
      && r.0 == Done("Query monitoring started", Some(newId))
      && (Enabled(c, r.1) <==> c.cacheAvailable)
      && SessionId(c, r.1) == (if c.cacheAvailable then Some(newId) else None)
      && r.1.buffer == []
      && r.1.subscribed
      && r.1.log == (if LogEnabled(c) then Some(m.log.GetOr([]) + [Marker("session_start", SessionId(c, r.1), timestamp)]) else m.log)
    ensures r.0.Done? <==> !Enabled(c, m) && (m.subscribed || subscribeError.None?)
  {
    if Enabled(c, m) then (Refused("Monitoring already active"), m)
    else
      var m1 := WriteCache(c, m.(buffer := []), true, Some(newId));
      if !m1.subscribed && subscribeError.Some? then
        (Failed(subscribeError.value), WriteCache(c, m1, false, m1.cacheSessionId))
      else
        var m2 := m1.(subscribed := true);
        (Done("Query monitoring started", Some(newId)), WriteSessionMarker(c, m2, "session_start", timestamp))
  }

  /** `stop`. Not running: refused, nothing changes. Running: unsubscribed,
      cache cleared, buffer emptied and the old id returned; the log gains
      the end marker with the old id, then the buffer in order. */
  function Stop(c: MonitorConfig, m: Monitor, timestamp: string): (r: Transition)
    ensures !Enabled(c, m) ==> r == (Refused("Monitoring not active"), m)
    ensures Enabled(c, m) ==>
      && r.0 == Done("Query monitoring stopped", m.cacheSessionId)
      && !Enabled(c, r.1) && SessionId(c, r.1) == None
      && !r.1.subscribed && r.1.buffer == []
      && r.1.log == (if LogEnabled(c) then
                       Some(m.log.GetOr([]) + [Marker("session_end", m.cacheSessionId, timestamp)] + Records(m.buffer))
                     else m.log)
  {
    if !Enabled(c, m) then (Refused("Monitoring not active"), m)
    else
      var current := SessionId(c, m);
      var m1 := m.(subscribed := false);
      var m2 := WriteSessionMarker(c, m1, "session_end", timestamp);
      var m3 := FlushToFile(c, m2);
      var m4 := WriteCache(c, m3, false, None);
      assert Records(m.buffer) == [] && LogEnabled(c) ==> m2.log.GetOr([]) + Records(m.buffer) == m2.log.GetOr([]);
      (Done("Query monitoring stopped", current), m4.(buffer := []))
  }

  /** `status`. */
  function GetStatus(c: MonitorConfig, m: Monitor): (s: Status)
    ensures s.enabled ==> c.cacheAvailable
    ensures s.queryCount == |m.buffer|
  {
    Status(Enabled(c, m), SessionId(c, m), |m.buffer|)
  }

  // ---------------------------------------------------------------------------
  // Which notifications are captured

  /** `/gems/pg_reports[-\d.]+/lib/` matches at `i`: the version run cannot
      contain '/', so "/lib/" must follow it directly. */
  predicate GemPathAt(p: string, i: int) {
    && OccursAt(p, "/gems/pg_reports", i)
    && var j := i + 16;
       var e := SpanEnd(p, j, (ch: char) => ch == '-' || ch == '.' || IsDigit(ch));
       e > j && OccursAt(p, "/lib/", e)
  }

  /** A frame inside pg_reports' own report modules (test files and this
      monitor excluded). */
  predicate OwnCodePath(p: string) {
    && !Contains(p, "/spec/")
    && !Contains(p, "/query_monitor.rb")
    && ((exists i | 0 <= i <= |p| :: GemPathAt(p, i)) || Contains(p, "/pg_reports/lib/pg_reports/modules/"))
  }

  /** `query_from_pg_reports?`: `caller_locations(0, 30)` taken inside it sees
      itself, `should_skip?` and the handler, then the first 27 event frames. */
  predicate FromOwnCode(stack: seq<CallFrame>) {
    exists i | 0 <= i < Min(27, |stack|) :: OwnCodePath(stack[i].path)
  }

  /** The reasons `should_skip?` tests, in its order. */
  datatype SkipReason = OwnName | OwnCode | SchemaQuery | CacheQuery | CachedResult | ExplainQuery | DdlQuery

  function Rank(k: SkipReason): nat {
    match k
    case OwnName => 0
    case OwnCode => 1
    case SchemaQuery => 2
    case CacheQuery => 3
    case CachedResult => 4
    case ExplainQuery => 5
    case DdlQuery => 6
  }

  /** Whether one reason applies to an event. */
  predicate Applies(ev: Event, k: SkipReason) {
    match k
    case OwnName => ev.name.Some? && StartsWith(ev.name.value, "PgReports")
    case OwnCode => FromOwnCode(ev.stack)
    case SchemaQuery => ev.name.Some? && StartsWith(ev.name.value, "SCHEMA")
    case CacheQuery => ev.name == Some("CACHE")
    case CachedResult => ev.cached
    case ExplainQuery => ev.sql.Some? && ContainsWord(ev.sql.value, "explain")
    case DdlQuery =>
      ev.sql.Some? && (ContainsWord(ev.sql.value, "create") || ContainsWord(ev.sql.value, "alter") || ContainsWord(ev.sql.value, "drop"))
  }

  /** The first reason, in `should_skip?`'s order, that applies. */
  function FirstSkipReason(ev: Event): (r: Option<SkipReason>)
    ensures r.Some? ==> Applies(ev, r.value)
    ensures r.Some? ==> forall k :: Rank(k) < Rank(r.value) ==> !Applies(ev, k)
    ensures r.None? ==> forall k :: !Applies(ev, k)
  {
    if Applies(ev, OwnName) then Some(OwnName)
    else if Applies(ev, OwnCode) then Some(OwnCode)
    else if Applies(ev, SchemaQuery) then Some(SchemaQuery)
    else if Applies(ev, CacheQuery) then Some(CacheQuery)
    else if Applies(ev, CachedResult) then Some(CachedResult)
    else if Applies(ev, ExplainQuery) then Some(ExplainQuery)
    else if Applies(ev, DdlQuery) then Some(DdlQuery)
    else None
  }

  /** `should_skip?`: some reason applies. */
  function ShouldSkip(ev: Event): (r: bool)
    ensures r <==> exists k :: Applies(ev, k)
  {
    FirstSkipReason(ev).Some?
  }

  /** A notification is skipped exactly when one of the seven conditions holds. */
  lemma ShouldSkipIff(ev: Event)
    ensures ShouldSkip(ev) <==>
      || (ev.name.Some? && StartsWith(ev.name.value, "PgReports"))
      || FromOwnCode(ev.stack)
      || (ev.name.Some? && StartsWith(ev.name.value, "SCHEMA"))
      || ev.name == Some("CACHE")
      || ev.cached
      || (ev.sql.Some? && ContainsWord(ev.sql.value, "explain"))
      || (ev.sql.Some? && (ContainsWord(ev.sql.value, "create") || ContainsWord(ev.sql.value, "alter") || ContainsWord(ev.sql.value, "drop")))
  {
    if !ShouldSkip(ev) {
      assert !Applies(ev, OwnName) && !Applies(ev, OwnCode) && !Applies(ev, SchemaQuery) && !Applies(ev, CacheQuery);
      assert !Applies(ev, CachedResult) && !Applies(ev, ExplainQuery) && !Applies(ev, DdlQuery);
    }
  }

  /** A frame of application code: not under gems, ruby or railties, and not
      pg_reports' own library or controllers. */
  predicate AppPath(p: string) {
    && !Contains(p, "/gems/") && !Contains(p, "/ruby/") && !Contains(p, "/railties/")
    && !Contains(p, "/pg_reports/lib/pg_reports/")
    && !Contains(p, "/pg_reports/app/controllers/pg_reports/")
  }

  function FirstAppFrame(frames: seq<CallFrame>): (r: Option<nat>)
    ensures r.Some? ==> r.value < |frames| && AppPath(frames[r.value].path)
    ensures r.Some? ==> forall j :: 0 <= j < r.value ==> !AppPath(frames[j].path)
    ensures r.None? ==> forall j :: 0 <= j < |frames| ==> !AppPath(frames[j].path)
  {
    if |frames| == 0 then None
    else if AppPath(frames[0].path) then Some(0)
    else match FirstAppFrame(frames[1..])
      case None => None
      case Some(j) => Some(j + 1)
  }

  /** `extract_source_location`: `caller_locations(5, 50)` taken inside it
      skips itself, the handler and three event frames, and looks at up to 50
      more; the first application frame becomes the location. */
  function SourceLocationOf(stack: seq<CallFrame>): (r: Option<SourceLocation>)
    ensures r.Some? ==> exists i | 3 <= i < Min(53, |stack|) ::
      AppPath(stack[i].path) && r.value == SourceLocation(stack[i].path, stack[i].lineno, stack[i].caller)
    ensures r.None? ==> forall i | 3 <= i < Min(53, |stack|) :: !AppPath(stack[i].path)
  {
    if |stack| < 3 then None
    else
      var window := stack[3..Min(53, |stack|)];
      match FirstAppFrame(window)
      case None =>
        assert forall i | 3 <= i < Min(53, |stack|) :: stack[i] == window[i - 3];
        None
      case Some(j) =>
        var f := window[j];
        assert f == stack[j + 3];
        Some(SourceLocation(f.path, f.lineno, f.caller))
  }

  // ---------------------------------------------------------------------------
  // Capture

  /** `add_to_buffer`: append, then keep only the newest `maxQueries`. */
  function AddToBuffer(c: MonitorConfig, buffer: seq<Entry>, e: Entry): (r: seq<Entry>)
    ensures |r| <= c.maxQueries
    ensures r == Last(buffer + [e], c.maxQueries)
    ensures c.maxQueries > 0 ==> r == Last(buffer, c.maxQueries - 1) + [e]
  {
    var b := buffer + [e];
    var r := if |b| > c.maxQueries then Last(b, c.maxQueries) else b;
    assert c.maxQueries > 0 ==> r == Last(buffer, c.maxQueries - 1) + [e] by {
      if c.maxQueries > 0 && |b| > c.maxQueries {
        assert r == b[|b| - c.maxQueries..];
        assert b[|b| - c.maxQueries..] == buffer[|buffer| - (c.maxQueries - 1)..] + [e];
      }
    }
    r
  }

  /** `handle_sql_event`: a notification becomes a buffered entry only while
      monitoring is on and it is not skipped. */
  function HandleSqlEvent(c: MonitorConfig, m: Monitor, ev: Event, timestamp: string): (r: Monitor)
    ensures r.(buffer := m.buffer) == m
    ensures !Enabled(c, m) || ShouldSkip(ev) ==> r == m
    ensures Enabled(c, m) && !ShouldSkip(ev) ==>
      r.buffer == AddToBuffer(c, m.buffer,
        Entry(SessionId(c, m), ev.sql, ev.durationMs, ev.name, SourceLocationOf(ev.stack), timestamp))
  {
    if !Enabled(c, m) || ShouldSkip(ev) then m
    else
      var e := Entry(SessionId(c, m), ev.sql, ev.durationMs, ev.name, SourceLocationOf(ev.stack), timestamp);
      m.(buffer := AddToBuffer(c, m.buffer, e))
  }

  /** A notification reaches the handler only through this process's subscription. */
  function Notify(c: MonitorConfig, m: Monitor, ev: Event, timestamp: string): (r: Monitor)
    ensures !m.subscribed ==> r == m
    ensures r.(buffer := m.buffer) == m
  {
    if m.subscribed then HandleSqlEvent(c, m, ev, timestamp) else m
  }

  // ---------------------------------------------------------------------------
  // Reading captured queries

  /** The session filter of `queries` and `load_from_log`. */
  predicate InSession(e: Entry, session: Option<string>) {
    session.None? || e.sessionId == session
  }

  function SessionFilter(entries: seq<Entry>, session: Option<string>): (r: seq<Entry>)
    ensures IsSubsequence(r, entries)
    ensures forall i :: 0 <= i < |r| ==> InSession(r[i], session)
    ensures forall i :: 0 <= i < |entries| && InSession(entries[i], session) ==> entries[i] in r
  {
    FilterIsSubsequence(entries, e => InSession(e, session));
    Filter(entries, e => InSession(e, session))
  }

  /** `last(limit)` when a limit is given; a negative one raises. */
  function LastOrAll(entries: seq<Entry>, limit: Option<int>): (r: Result<seq<Entry>>)
    ensures r.Err? <==> limit.Some? && limit.value < 0
    ensures r.Ok? ==> IsSuffix(r.value, entries)
    ensures r.Ok? && limit.Some? ==> |r.value| == Min(limit.value, |entries|)
    ensures r.Ok? && limit.None? ==> r.value == entries
  {
    match limit
    case None => Ok(entries)
    case Some(n) => if n < 0 then Err(ArgumentError("negative array size")) else Ok(Last(entries, n))
  }

  /** `queries(limit:, session_id:)`: the buffer filtered by session, then its
      last `limit` entries. */
  function Queries(m: Monitor, limit: Option<int>, session: Option<string>): (r: Result<seq<Entry>>)
    ensures r.Err? <==> limit.Some? && limit.value < 0
    ensures r.Ok? ==> forall i :: 0 <= i < |r.value| ==> InSession(r.value[i], session) && r.value[i] in m.buffer
    ensures r.Ok? && limit.Some? ==> |r.value| <= limit.value
    ensures r.Ok? ==> IsSuffix(r.value, SessionFilter(m.buffer, session))
    ensures limit.None? && session.None? ==> r == Ok(m.buffer)
  {
    var f := SessionFilter(m.buffer, session);
    assert session.None? ==> f == m.buffer by {
      if session.None? {
        FilterAll(m.buffer, e => InSession(e, session));
      }
    }
    LastOrAll(f, limit)
  }

  /** The query records of the log that belong to the session, in file order. */
  function LoggedQueries(lines: seq<LogLine>, session: Option<string>): (r: seq<Entry>)
    ensures |r| <= |lines|
    ensures forall i :: 0 <= i < |r| ==> InSession(r[i], session)
  {
    if |lines| == 0 then []
    else
      var rest := LoggedQueries(lines[1..], session);
      if lines[0].QueryRecord? && InSession(lines[0].entry, session) then [lines[0].entry] + rest else rest
  }

  /** An entry is read back exactly when some line is its query record and it
      belongs to the session; markers and malformed lines give nothing. */
  lemma {:induction false} LoggedQueriesMember(lines: seq<LogLine>, session: Option<string>, e: Entry)
    ensures e in LoggedQueries(lines, session) <==>
      InSession(e, session) && exists i :: 0 <= i < |lines| && lines[i] == QueryRecord(e)
  {
    if |lines| > 0 {
      LoggedQueriesMember(lines[1..], session, e);
      assert forall i :: 1 <= i < |lines| ==> lines[i] == lines[1..][i - 1];
      if exists i :: 0 <= i < |lines[1..]| && lines[1..][i] == QueryRecord(e) {
        var i :| 0 <= i < |lines[1..]| && lines[1..][i] == QueryRecord(e);
        assert lines[i + 1] == QueryRecord(e);
      }
    }
  }

  /** A line that is JSON but not an object makes `entry[:type]` raise, and the
      outer rescue turns the whole read into `[]`. */
  predicate AbortsRead(lines: seq<LogLine>) {
    exists i :: 0 <= i < |lines| && lines[i].NotAnObject?
  }

  /** `load_from_log(session_id:, limit:)`. */
  function LoadFromLog(c: MonitorConfig, m: Monitor, session: Option<string>, limit: Option<int>): (r: seq<Entry>)
    ensures !LogEnabled(c) || m.log.None? ==> r == []
    ensures forall i :: 0 <= i < |r| ==> InSession(r[i], session)
    ensures LogEnabled(c) && m.log.Some? && !AbortsRead(m.log.value) && (limit.None? || limit.value >= 0) ==>
      var all := LoggedQueries(m.log.value, session);
      IsSuffix(r, all) && (limit.Some? ==> |r| == Min(limit.value, |all|))
  {
    if !LogEnabled(c) || m.log.None? || AbortsRead(m.log.value) then []
    else
      match LastOrAll(LoggedQueries(m.log.value, session), limit)
      case Ok(qs) => qs
      case Err(_) => []
  }

  lemma {:induction false} LoggedQueriesAppend(a: seq<LogLine>, b: seq<LogLine>, session: Option<string>)
    ensures LoggedQueries(a + b, session) == LoggedQueries(a, session) + LoggedQueries(b, session)
  {
    if |a| == 0 {
      assert a + b == b;
    } else {
      assert (a + b)[1..] == a[1..] + b;
      LoggedQueriesAppend(a[1..], b, session);
    }
  }

  lemma {:induction false} LoggedQueriesOfRecords(entries: seq<Entry>, session: Option<string>)
    requires forall i :: 0 <= i < |entries| ==> InSession(entries[i], session)
    ensures LoggedQueries(Records(entries), session) == entries
  {
    if |entries| > 0 {
      assert Records(entries)[1..] == Records(entries[1..]);
      LoggedQueriesOfRecords(entries[1..], session);
    }
  }

  // ---------------------------------------------------------------------------
  // Invariant and whole-session properties

  /** What every reachable state satisfies: the buffer is bounded, is empty
      while monitoring is off, and holds entries of the current session only.
      So `status` never counts more than `max_queries`, counts nothing while
      disabled, and `queries` for the current session is the whole buffer. */
  function Invariant(c: MonitorConfig, m: Monitor): (r: bool)
    ensures r ==> GetStatus(c, m).queryCount <= c.maxQueries
    ensures r && !GetStatus(c, m).enabled ==> GetStatus(c, m).queryCount == 0
    ensures r ==> Queries(m, None, SessionId(c, m)) == Ok(m.buffer)
  {
    var r :=
      && |m.buffer| <= c.maxQueries
      && (!Enabled(c, m) ==> m.buffer == [])
      && forall i :: 0 <= i < |m.buffer| ==> m.buffer[i].sessionId == SessionId(c, m);
    assert r ==> SessionFilter(m.buffer, SessionId(c, m)) == m.buffer by {
      if r {
        FilterAll(m.buffer, e => InSession(e, SessionId(c, m)));
      }
    }
    r
  }

  lemma BootInvariant(c: MonitorConfig, cacheEnabled: bool, cacheSessionId: Option<string>, log: Option<seq<LogLine>>)
    ensures Invariant(c, Boot(c, cacheEnabled, cacheSessionId, log))
  {
  }

  lemma StartInvariant(c: MonitorConfig, m: Monitor, newId: string, subscribeError: Option<string>, timestamp: string)
    requires Invariant(c, m)
    ensures Invariant(c, Start(c, m, newId, subscribeError, timestamp).1)
  {
  }

  lemma StopInvariant(c: MonitorConfig, m: Monitor, timestamp: string)
    requires Invariant(c, m)
    ensures Invariant(c, Stop(c, m, timestamp).1)
  {
  }

  lemma NotifyInvariant(c: MonitorConfig, m: Monitor, ev: Event, timestamp: string)
    requires Invariant(c, m)
    ensures Invariant(c, Notify(c, m, ev, timestamp))
  {
    var r := Notify(c, m, ev, timestamp);
    if r != m {
      var e := Entry(SessionId(c, m), ev.sql, ev.durationMs, ev.name, SourceLocationOf(ev.stack), timestamp);
      AddToBufferKeepsSession(c, m.buffer, e);
    }
  }

  lemma AddToBufferKeepsSession(c: MonitorConfig, buffer: seq<Entry>, e: Entry)
    requires forall i :: 0 <= i < |buffer| ==> buffer[i].sessionId == e.sessionId
    ensures forall i :: 0 <= i < |AddToBuffer(c, buffer, e)| ==> AddToBuffer(c, buffer, e)[i].sessionId == e.sessionId
  {
    var b := buffer + [e];
    var r := AddToBuffer(c, buffer, e);
    assert IsSuffix(r, b);
    forall i | 0 <= i < |r|
      ensures r[i].sessionId == e.sessionId
    {
      assert r[i] == b[|b| - |r| + i];
    }
  }

  /** Stopping writes the session to the log: reading it back afterwards gives
      what it gave before, then exactly the entries that were buffered at stop
      time, in order (so evicted entries never reach the log). */
  lemma StopThenLoad(c: MonitorConfig, m: Monitor, timestamp: string)
    requires Invariant(c, m) && Enabled(c, m) && LogEnabled(c)
    requires m.log.None? || !AbortsRead(m.log.value)
    ensures var session := SessionId(c, m);
      LoadFromLog(c, Stop(c, m, timestamp).1, session, None) == LoadFromLog(c, m, session, None) + m.buffer
  {
    var session := SessionId(c, m);
    var earlier := m.log.GetOr([]);
    var marker := Marker("session_end", m.cacheSessionId, timestamp);
    var r := Stop(c, m, timestamp).1;
    assert r.log == Some(earlier + [marker] + Records(m.buffer));
    SessionLines(earlier, marker, m.buffer, session);
    assert m.log.None? ==> LoggedQueries(earlier, session) == [];
  }

  /** The lines `stop` appends add nothing that aborts a read, and contribute
      exactly the buffered entries. */
  lemma SessionLines(earlier: seq<LogLine>, marker: LogLine, buffer: seq<Entry>, session: Option<string>)
    requires marker.Marker?
    requires forall i :: 0 <= i < |buffer| ==> InSession(buffer[i], session)
    ensures AbortsRead(earlier + [marker] + Records(buffer)) == AbortsRead(earlier)
    ensures LoggedQueries(earlier + [marker] + Records(buffer), session) == LoggedQueries(earlier, session) + buffer
  {
    var lines := earlier + [marker] + Records(buffer);
    forall i | |earlier| <= i < |lines|
      ensures !lines[i].NotAnObject?
    {
      if i > |earlier| {
        assert lines[i] == Records(buffer)[i - |earlier| - 1];
      }
    }
    assert forall i :: 0 <= i < |earlier| ==> lines[i] == earlier[i];
    LoggedQueriesAppend(earlier + [marker], Records(buffer), session);
    LoggedQueriesAppend(earlier, [marker], session);
    assert LoggedQueries([marker], session) == [];
    LoggedQueriesOfRecords(buffer, session);
  }

  /** Without a cache the monitor can never be switched on: `start` always
      reports success yet `enabled` stays false, `stop` is always refused and
      nothing is ever captured. */
  lemma WithoutCacheNeverActive(c: MonitorConfig, m: Monitor, newId: string, timestamp: string, ev: Event)
    requires !c.cacheAvailable
    ensures Start(c, m, newId, None, timestamp).0 == Done("Query monitoring started", Some(newId))
    ensures !Enabled(c, Start(c, m, newId, None, timestamp).1)
    ensures Stop(c, m, timestamp) == (Refused("Monitoring not active"), m)
    ensures Notify(c, m, ev, timestamp) == m
  {
  }
}
