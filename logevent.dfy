/**
 * Log events (pkg/logevent.go): a record that accumulates newline-terminated
 * messages and, on Close, sends them with the creation-time stack trace
 * through the logger it is bound to. The process-wide default logger is an
 * explicit `Defaults` object.
 *
 * Stack-trace extraction is not modelled: the method trace and the stack
 * trace are given to the record when it is created.
 */
module LogEvents {
  import opened Errors
  import opened Text
  import opened Logging

  /** The marker between the buffered messages and the stack trace. */
  const Marker: Bytes := "STACKTRACE:\n"

  /** The buffer after writing each of `ms` once, in order. */
  function Lines(ms: seq<Bytes>): Bytes
  {
    if ms == [] then [] else Lines(ms[..|ms| - 1]) + ms[|ms| - 1] + "\n"
  }

  /** Writing `a` and then `b` leaves the concatenation of their lines. */
  lemma {:induction false} LinesAppend(a: seq<Bytes>, b: seq<Bytes>)
    ensures Lines(a + b) == Lines(a) + Lines(b)
  {
    if b != [] {
      assert (a + b)[..|a + b| - 1] == a + b[..|b| - 1];
      LinesAppend(a, b[..|b| - 1]);
    } else {
      assert a + b == a;
    }
  }

  /** The payload Close sends: the buffer, the marker, then the stack trace. */
  function Details(buffer: Bytes, stackTrace: Bytes): (r: Bytes)
    ensures |r| == |buffer| + 12 + |stackTrace|
    ensures r[..|buffer|] == buffer && r[|buffer| + 12..] == stackTrace
  {
    buffer + Marker + stackTrace
  }

  class Record {
    const level: LogLevel
    var buffer: Bytes
    const logger: Logger?
    const methodTrace: Bytes
    const stackTrace: Bytes
    /** The messages written since the buffer was last emptied. */
    ghost var writes: seq<Bytes>

    ghost predicate Valid()
      reads this
    {
      buffer == Lines(writes)
    }

    /** Go's newRecord, with the extracted traces given. */
    constructor (level: LogLevel, logger: Logger?, methodTrace: Bytes, stackTrace: Bytes)
      ensures Valid() && buffer == [] && writes == []
      ensures this.level == level && this.logger == logger
      ensures this.methodTrace == methodTrace && this.stackTrace == stackTrace
    {
      this.level := level;
      this.logger := logger;
      this.methodTrace := methodTrace;
      this.stackTrace := stackTrace;
      buffer := [];
      writes := [];
    }

    /** Go's record.Write: append the message and a line break; the count is
        the message length alone, and appending to a bytes.Buffer never fails. */
    method Write(m: Bytes) returns (n: int, err: Option<Error>)
      requires Valid()
      modifies this`buffer, this`writes
      ensures Valid()
      ensures writes == old(writes) + [m]
      ensures buffer == old(buffer) + m + "\n"
      ensures n == |m| && err.None?
    {
      buffer := buffer + m;
      n := |m|;
      err := None;
      buffer := buffer + "\n";
      writes := writes + [m];
      assert (writes)[..|writes| - 1] == old(writes);
    }

    /** Go's record.Close. Without a logger: "logger is not set", nothing is
        sent and the buffer stays. Otherwise the details are sent once at the
        record's level, and the buffer is emptied exactly when that succeeds. */
    method Close(fails: Oracle) returns (err: Option<Error>, deliveries: seq<Delivery>)
      requires Valid()
      modifies this`buffer, this`writes
      ensures Valid()
      ensures logger == null ==>
                err == Some(LoggerNotSet) && deliveries == [] && buffer == old(buffer) && writes == old(writes)
      ensures logger != null ==>
                var sent := Dispatch(logger.minimumLogLevel, logger.handlers, logger.hooks,
                                     level, Details(old(buffer), stackTrace), fails);
                && err == sent.err && deliveries == sent.deliveries
                && (if err.None? then buffer == [] && writes == [] else buffer == old(buffer) && writes == old(writes))
    {
      if logger == null {
        return Some(LoggerNotSet), [];
      }
      var details := buffer + Marker + stackTrace;
      var n;
      n, err, deliveries := logger.WriteLog(level, details, fails);
      if err.None? {
        buffer := [];
        writes := [];
      }
    }

    /** Go's record.Error: the accumulated messages, each with its line
        break, in the order they were written. */
    function Error(): (r: Bytes)
      reads this
      requires Valid()
      ensures r == Lines(writes)
    {
      buffer
    }

    /** Go's record.StackTrace: the trace captured at creation (a constant). */
    function StackTrace(): Bytes
    {
      stackTrace
    }

    /** Go's record.MethodTrace: the trace captured at creation (a constant). */
    function MethodTrace(): Bytes
    {
      methodTrace
    }
  }

  /** A record whose level is below its logger's threshold still closes
      without error, so its buffer is emptied although no base handler
      received it; this is `Logging.BelowThreshold` applied to the details a
      record sends. */
  lemma QuietRecordCloses(threshold: LogLevel, handlers: seq<WriterId>, hooks: seq<HookEntry>,
                          level: LogLevel, buffer: Bytes, stackTrace: Bytes, fails: Oracle)
    requires level < threshold
    ensures var sent := Dispatch(threshold, handlers, hooks, level, Details(buffer, stackTrace), fails);
            sent.err.None? && forall d :: d in sent.deliveries ==> d.writer in HookTargets(hooks, level)
  {
    var sent := Dispatch(threshold, handlers, hooks, level, Details(buffer, stackTrace), fails);
    forall d | d in sent.deliveries
      ensures d.writer in HookTargets(hooks, level)
    {
      var k :| 0 <= k < |sent.deliveries| && sent.deliveries[k] == d;
      assert d.writer == HookTargets(hooks, level)[k];
    }
  }

  /** The process-wide default logger slot. */
  class Defaults {
    var defaultLogger: Logger?

    constructor ()
      ensures defaultLogger == null
    {
      defaultLogger := null;
    }

    /** Go's UseAsDefault: the last logger stored wins. */
    method UseAsDefault(l: Logger?)
      modifies this
      ensures defaultLogger == l
    {
      defaultLogger := l;
    }
  }

  /** Go's CreateLogEvent: a new record bound to the current default logger. */
  method CreateLogEvent(defaults: Defaults, level: LogLevel, methodTrace: Bytes, stackTrace: Bytes)
    returns (r: Record)
    ensures fresh(r) && r.Valid() && r.buffer == [] && r.writes == []
    ensures r.level == level && r.logger == defaults.defaultLogger
    ensures r.methodTrace == methodTrace && r.stackTrace == stackTrace
  {
    r := new Record(level, defaults.defaultLogger, methodTrace, stackTrace);
  }

  /** Go's CreateAndCloseLogEvent: create a record on the default logger,
      write the message once, close it, and join the close error (if any)
      onto the write error. */
  method CreateAndCloseLogEvent(defaults: Defaults, level: LogLevel, message: Bytes,
                                methodTrace: Bytes, stackTrace: Bytes, fails: Oracle)
    returns (err: Option<Error>, deliveries: seq<Delivery>)
    ensures defaults.defaultLogger == null ==>
              err == Some(Joined([LoggerNotSet])) && deliveries == []
    ensures defaults.defaultLogger != null ==>
              var l := defaults.defaultLogger;
              var sent := Dispatch(l.minimumLogLevel, l.handlers, l.hooks, level,
                                   message + "\n" + Marker + stackTrace, fails);
              && deliveries == sent.deliveries
              && err == (if sent.err.None? then None else Some(Joined([sent.err.value])))
  {
    var r := new Record(level, defaults.defaultLogger, methodTrace, stackTrace);
    var n;
    n, err := r.Write(message);
    assert r.buffer == message + "\n";
    assert Details(r.buffer, stackTrace) == message + "\n" + Marker + stackTrace;
    var e;
    e, deliveries := r.Close(fails);
    if e.Some? {
      assert [err, e][1..] == [e] && [e][1..] == [];
      assert Present([err, e]) == [e.value];
      err := Join([err, e]);
    }
  }
}
