/**
 * The logger (pkg/logger.go): a threshold, a fixed list of base output
 * writers and a list of hooks, and the dispatch that decides which writers
 * receive a message.
 *
 * Output writers are opaque: a writer is named by a `WriterId`, and whether
 * writing to it fails is given by a failure oracle `fails`. The concurrent
 * fan-out of the source becomes a sequential loop that records, in order,
 * every writer it calls (hooks first, then base handlers).
 */
module Logging {
  import opened Errors
  import opened Text

  type LogLevel = int
  type HookID = Bytes
  type WriterId = nat

  /** What writing a message to each writer would report. */
  type Oracle = WriterId -> Option<Error>

  datatype HookEntry = HookEntry(id: HookID, level: LogLevel, writer: WriterId)

  /** One call of an output writer's Write with a payload. */
  datatype Delivery = Delivery(writer: WriterId, message: Bytes)

  /** What WriteLog returns, with the writer calls it made. */
  datatype Dispatched = Dispatched(n: int, err: Option<Error>, deliveries: seq<Delivery>)

  // ------------------------------------------------------------ specification

  /** The writers of the hooks whose level equals `level`, in hook order. */
  function HookTargets(hooks: seq<HookEntry>, level: LogLevel): seq<WriterId>
  {
    if hooks == [] then []
    else
      var last := hooks[|hooks| - 1];
      HookTargets(hooks[..|hooks| - 1], level) + (if last.level == level then [last.writer] else [])
  }

  /** One delivery of `message` to each writer, in order. */
  function Deliver(writers: seq<WriterId>, message: Bytes): (r: seq<Delivery>)
    ensures |r| == |writers|
    ensures forall i :: 0 <= i < |r| ==> r[i] == Delivery(writers[i], message)
  {
    if writers == [] then []
    else Deliver(writers[..|writers| - 1], message) + [Delivery(writers[|writers| - 1], message)]
  }

  /** The errors the failing deliveries report, in delivery order. */
  function Failures(ds: seq<Delivery>, fails: Oracle): seq<Error>
  {
    if ds == [] then []
    else
      var e := fails(ds[|ds| - 1].writer);
      Failures(ds[..|ds| - 1], fails) + (if e.Some? then [e.value] else [])
  }

  /** WriteLog(level, message) on a logger with this threshold, base handlers
      and hooks. */
  function Dispatch(threshold: LogLevel, handlers: seq<WriterId>, hooks: seq<HookEntry>,
                    level: LogLevel, message: Bytes, fails: Oracle): Dispatched
  {
    var hookCalls := Deliver(HookTargets(hooks, level), message);
    if level < threshold then Dispatched(0, None, hookCalls)
    else
      var calls := hookCalls + Deliver(handlers, message);
      Dispatched(|message|, JoinAll(Failures(calls, fails)), calls)
  }

  /** The entries one Hook call appends: one per level, all with the same id
      and writer. */
  function Registered(id: HookID, writer: WriterId, levels: seq<LogLevel>): (r: seq<HookEntry>)
  {
    if levels == [] then []
    else Registered(id, writer, levels[..|levels| - 1]) + [HookEntry(id, levels[|levels| - 1], writer)]
  }

  /** The entries whose id differs from `id`, in their order. */
  function Without(hooks: seq<HookEntry>, id: HookID): seq<HookEntry>
  {
    if hooks == [] then []
    else
      var last := hooks[|hooks| - 1];
      Without(hooks[..|hooks| - 1], id) + (if last.id != id then [last] else [])
  }

  predicate IdInUse(hooks: seq<HookEntry>, id: HookID) {
    exists i :: 0 <= i < |hooks| && hooks[i].id == id
  }

  lemma HookTargetsSnoc(hooks: seq<HookEntry>, i: nat, level: LogLevel)
    requires i < |hooks|
    ensures HookTargets(hooks[..i + 1], level)
         == HookTargets(hooks[..i], level) + (if hooks[i].level == level then [hooks[i].writer] else [])
  {
    assert hooks[..i + 1][..i] == hooks[..i];
  }

  lemma DeliverSnoc(ws: seq<WriterId>, w: WriterId, message: Bytes)
    ensures Deliver(ws + [w], message) == Deliver(ws, message) + [Delivery(w, message)]
  {
    assert (ws + [w])[..|ws|] == ws;
  }

  lemma FailuresSnoc(ds: seq<Delivery>, d: Delivery, fails: Oracle)
    ensures Failures(ds + [d], fails)
         == Failures(ds, fails) + (if fails(d.writer).Some? then [fails(d.writer).value] else [])
  {
    assert (ds + [d])[..|ds|] == ds;
  }

  // ------------------------------------------------------------ properties

  /** A hook's writer is targeted exactly when some hook with that writer has
      a level EQUAL to the dispatch level (a higher level does not match). */
  lemma {:induction false} HookTargetsIff(hooks: seq<HookEntry>, level: LogLevel, w: WriterId)
    ensures w in HookTargets(hooks, level) <==>
            exists i :: 0 <= i < |hooks| && hooks[i].level == level && hooks[i].writer == w
  {
    if hooks != [] {
      var init := hooks[..|hooks| - 1];
      HookTargetsIff(init, level, w);
      if exists i :: 0 <= i < |hooks| && hooks[i].level == level && hooks[i].writer == w {
        var i :| 0 <= i < |hooks| && hooks[i].level == level && hooks[i].writer == w;
        if i < |init| {
          assert init[i] == hooks[i];
        }
      }
      if exists i :: 0 <= i < |init| && init[i].level == level && init[i].writer == w {
        var i :| 0 <= i < |init| && init[i].level == level && init[i].writer == w;
        assert hooks[i] == init[i];
      }
    }
  }

  lemma {:induction false} FailuresAppend(a: seq<Delivery>, b: seq<Delivery>, fails: Oracle)
    ensures Failures(a + b, fails) == Failures(a, fails) + Failures(b, fails)
  {
    if b != [] {
      assert (a + b)[..|a + b| - 1] == a + b[..|b| - 1];
      FailuresAppend(a, b[..|b| - 1], fails);
    } else {
      assert a + b == a;
    }
  }

  /** No error is reported exactly when every called writer succeeded. */
  lemma {:induction false} FailuresEmptyIff(ds: seq<Delivery>, fails: Oracle)
    ensures Failures(ds, fails) == [] <==> forall i :: 0 <= i < |ds| ==> fails(ds[i].writer).None?
  {
    if ds != [] {
      var init := ds[..|ds| - 1];
      FailuresEmptyIff(init, fails);
      assert forall i :: 0 <= i < |init| ==> init[i] == ds[i];
    }
  }

  /** Every failing call contributes its error. */
  lemma {:induction false} FailuresContain(ds: seq<Delivery>, fails: Oracle, i: nat)
    requires i < |ds| && fails(ds[i].writer).Some?
    ensures fails(ds[i].writer).value in Failures(ds, fails)
  {
    if i < |ds| - 1 {
      var init := ds[..|ds| - 1];
      assert init[i] == ds[i];
      FailuresContain(init, fails, i);
    }
  }

  /** Routing: a writer receives the message exactly when a hook with that
      writer has exactly the dispatch level, or the level passes the threshold
      and the writer is a base handler. */
  lemma RoutingIff(threshold: LogLevel, handlers: seq<WriterId>, hooks: seq<HookEntry>,
                   level: LogLevel, message: Bytes, fails: Oracle, w: WriterId)
    ensures Delivery(w, message) in Dispatch(threshold, handlers, hooks, level, message, fails).deliveries
            <==> (exists i :: 0 <= i < |hooks| && hooks[i].level == level && hooks[i].writer == w)
                 || (level >= threshold && w in handlers)
    ensures forall d :: d in Dispatch(threshold, handlers, hooks, level, message, fails).deliveries ==> d.message == message
  {
    HookTargetsIff(hooks, level, w);
    var targets := HookTargets(hooks, level);
    var hookCalls := Deliver(targets, message);
    assert Delivery(w, message) in hookCalls <==> w in targets by {
      if w in targets {
        var k :| 0 <= k < |targets| && targets[k] == w;
        assert hookCalls[k] == Delivery(w, message);
      }
    }
    var baseCalls := Deliver(handlers, message);
    assert Delivery(w, message) in baseCalls <==> w in handlers by {
      if w in handlers {
        var k :| 0 <= k < |handlers| && handlers[k] == w;
        assert baseCalls[k] == Delivery(w, message);
      }
    }
  }

  /** Below the threshold: nothing is counted, no error is reported (even if a
      hook failed), no base handler is called, and the matching hooks are
      still called. */
  lemma BelowThreshold(threshold: LogLevel, handlers: seq<WriterId>, hooks: seq<HookEntry>,
                       level: LogLevel, message: Bytes, fails: Oracle)
    requires level < threshold
    ensures var r := Dispatch(threshold, handlers, hooks, level, message, fails);
            r.n == 0 && r.err.None? && r.deliveries == Deliver(HookTargets(hooks, level), message)
  {
  }

  /** At or above the threshold: every base handler is called once, after the
      hooks; the count is the message length; the error is nil exactly when no
      called writer failed, and otherwise joins the error of every failing
      call. */
  lemma AtOrAboveThreshold(threshold: LogLevel, handlers: seq<WriterId>, hooks: seq<HookEntry>,
                           level: LogLevel, message: Bytes, fails: Oracle)
    requires level >= threshold
    ensures var r := Dispatch(threshold, handlers, hooks, level, message, fails);
            var k := |HookTargets(hooks, level)|;
            && r.n == |message|
            && |r.deliveries| == k + |handlers|
            && (forall i :: 0 <= i < |handlers| ==> r.deliveries[k + i] == Delivery(handlers[i], message))
            && (r.err.None? <==> forall i :: 0 <= i < |r.deliveries| ==> fails(r.deliveries[i].writer).None?)
            && (forall i :: 0 <= i < |r.deliveries| && fails(r.deliveries[i].writer).Some? ==>
                  r.err.Some? && r.err.value.Joined? && fails(r.deliveries[i].writer).value in r.err.value.errs)
  {
    var r := Dispatch(threshold, handlers, hooks, level, message, fails);
    FailuresEmptyIff(r.deliveries, fails);
    forall i | 0 <= i < |r.deliveries| && fails(r.deliveries[i].writer).Some?
      ensures r.err.Some? && r.err.value.Joined? && fails(r.deliveries[i].writer).value in r.err.value.errs
    {
      FailuresContain(r.deliveries, fails, i);
    }
  }

  lemma {:induction false} RegisteredShape(id: HookID, writer: WriterId, levels: seq<LogLevel>)
    ensures |Registered(id, writer, levels)| == |levels|
    ensures forall i :: 0 <= i < |levels| ==> Registered(id, writer, levels)[i] == HookEntry(id, levels[i], writer)
  {
    if levels != [] {
      RegisteredShape(id, writer, levels[..|levels| - 1]);
    }
  }

  lemma {:induction false} WithoutAppend(a: seq<HookEntry>, b: seq<HookEntry>, id: HookID)
    ensures Without(a + b, id) == Without(a, id) + Without(b, id)
  {
    if b != [] {
      assert (a + b)[..|a + b| - 1] == a + b[..|b| - 1];
      WithoutAppend(a, b[..|b| - 1], id);
    } else {
      assert a + b == a;
    }
  }

  /** Unhook keeps exactly the entries with another id: none with `id` is
      left, and every entry with another id stays. */
  lemma {:induction false} WithoutMembers(hooks: seq<HookEntry>, id: HookID)
    ensures forall h :: h in Without(hooks, id) <==> h in hooks && h.id != id
    ensures |Without(hooks, id)| <= |hooks|
  {
    if hooks != [] {
      WithoutMembers(hooks[..|hooks| - 1], id);
      assert hooks == hooks[..|hooks| - 1] + [hooks[|hooks| - 1]];
    }
  }

  /** Unhook with an id nobody holds changes nothing. */
  lemma {:induction false} WithoutUnknown(hooks: seq<HookEntry>, id: HookID)
    requires !IdInUse(hooks, id)
    ensures Without(hooks, id) == hooks
  {
    if hooks != [] {
      var init := hooks[..|hooks| - 1];
      assert forall i :: 0 <= i < |init| ==> init[i] == hooks[i];
      WithoutUnknown(init, id);
      assert hooks == init + [hooks[|hooks| - 1]];
    }
  }

  lemma {:induction false} WithoutRegistered(id: HookID, writer: WriterId, levels: seq<LogLevel>)
    ensures Without(Registered(id, writer, levels), id) == []
  {
    if levels != [] {
      WithoutRegistered(id, writer, levels[..|levels| - 1]);
    }
  }

  /** Unhook(Hook(...)) restores the hook list when the new id is fresh. */
  lemma HookThenUnhook(hooks: seq<HookEntry>, id: HookID, writer: WriterId, levels: seq<LogLevel>)
    requires !IdInUse(hooks, id)
    ensures Without(hooks + Registered(id, writer, levels), id) == hooks
  {
    WithoutAppend(hooks, Registered(id, writer, levels), id);
    WithoutUnknown(hooks, id);
    WithoutRegistered(id, writer, levels);
  }

  /** After Unhook(id) of a fresh Hook call, dispatch is as if the hook had
      never been registered: its writer is no longer reached through it. */
  lemma DispatchAfterUnhook(threshold: LogLevel, handlers: seq<WriterId>, hooks: seq<HookEntry>,
                            id: HookID, writer: WriterId, levels: seq<LogLevel>,
                            level: LogLevel, message: Bytes, fails: Oracle)
    requires !IdInUse(hooks, id)
    ensures Dispatch(threshold, handlers, Without(hooks + Registered(id, writer, levels), id), level, message, fails)
         == Dispatch(threshold, handlers, hooks, level, message, fails)
  {
    HookThenUnhook(hooks, id, writer, levels);
  }

  // ------------------------------------------------------------ the logger

  class Logger {
    var minimumLogLevel: LogLevel
    const handlers: seq<WriterId>
    var hooks: seq<HookEntry>

    constructor (minLogLevel: LogLevel, handlers: seq<WriterId>)
      ensures minimumLogLevel == minLogLevel && this.handlers == handlers && hooks == []
    {
      minimumLogLevel := minLogLevel;
      this.handlers := handlers;
      hooks := [];
    }

    /** Go's SetMinLevel. */
    method SetMinLevel(level: LogLevel)
      modifies this`minimumLogLevel
      ensures minimumLogLevel == level
    {
      minimumLogLevel := level;
    }

    /** Go's Hook: `freshId` stands for the generated UUID. */
    method Hook(writer: WriterId, level: LogLevel, additional: seq<LogLevel>, freshId: HookID) returns (id: HookID)
      modifies this`hooks
      ensures id == freshId
      ensures hooks == old(hooks) + Registered(id, writer, [level] + additional)
    {
      id := freshId;
      hooks := hooks + [HookEntry(id, level, writer)];
      ghost var levels := [level];
      for i := 0 to |additional|
        invariant levels == [level] + additional[..i]
        invariant hooks == old(hooks) + Registered(id, writer, levels)
      {
        hooks := hooks + [HookEntry(id, additional[i], writer)];
        assert levels + [additional[i]] == [level] + additional[..i + 1];
        levels := levels + [additional[i]];
        assert levels[..|levels| - 1] == [level] + additional[..i];
      }
      assert additional[..|additional|] == additional;
    }

    /** Go's Unhook. `make([]*hook, 0, len(l.hooks)-1)` panics on an empty
        list, so the list must not be empty. */
    method Unhook(id: HookID)
      requires |hooks| > 0
      modifies this`hooks
      ensures hooks == Without(old(hooks), id)
    {
      var items: seq<HookEntry> := [];
      for i := 0 to |hooks|
        invariant items == Without(hooks[..i], id)
      {
        if hooks[i].id != id {
          items := items + [hooks[i]];
        }
        assert hooks[..i + 1][..i] == hooks[..i];
      }
      assert hooks[..|hooks|] == hooks;
      hooks := items;
    }

    /** Go's WriteLog: call the writer of every hook whose level equals
        `level`; below the threshold return (0, nil); otherwise also call
        every base handler and return the length and the joined errors. */
    method WriteLog(level: LogLevel, message: Bytes, fails: Oracle)
      returns (n: int, err: Option<Error>, deliveries: seq<Delivery>)
      ensures Dispatched(n, err, deliveries) == Dispatch(minimumLogLevel, handlers, hooks, level, message, fails)
    {
      n := |message|;
      var errs;
      deliveries, errs := CallHooks(level, message, fails);
      if level < minimumLogLevel {
        return 0, None, deliveries;
      }
      var more, moreErrs := CallHandlers(message, fails);
      assert errs + moreErrs == Failures(deliveries + more, fails) by {
        FailuresAppend(deliveries, more, fails);
      }
      deliveries := deliveries + more;
      errs := errs + moreErrs;
      err := JoinAll(errs);
    }

    /** WriteLog's first loop: every hook registered for exactly `level`, in
        registration order. */
    method CallHooks(level: LogLevel, message: Bytes, fails: Oracle)
      returns (deliveries: seq<Delivery>, errs: seq<Error>)
      ensures deliveries == Deliver(HookTargets(hooks, level), message)
      ensures errs == Failures(deliveries, fails)
    {
      errs := [];
      deliveries := [];
      ghost var targets: seq<WriterId> := [];
      for i := 0 to |hooks|
        invariant targets == HookTargets(hooks[..i], level)
        invariant deliveries == Deliver(targets, message)
        invariant errs == Failures(deliveries, fails)
      {
        HookTargetsSnoc(hooks, i, level);
        if level != hooks[i].level {
          continue;
        }
        var w := hooks[i].writer;
        DeliverSnoc(targets, w, message);
        FailuresSnoc(deliveries, Delivery(w, message), fails);
        targets := targets + [w];
        deliveries := deliveries + [Delivery(w, message)];
        var e := fails(w);
        if e.Some? {
          errs := errs + [e.value];
        }
      }
      assert hooks[..|hooks|] == hooks;
    }

    /** WriteLog's second loop: every base handler, in order. */
    method CallHandlers(message: Bytes, fails: Oracle) returns (deliveries: seq<Delivery>, errs: seq<Error>)
      ensures deliveries == Deliver(handlers, message)
      ensures errs == Failures(deliveries, fails)
    {
      errs := [];
      deliveries := [];
      for i := 0 to |handlers|
        invariant deliveries == Deliver(handlers[..i], message)
        invariant errs == Failures(deliveries, fails)
      {
        assert handlers[..i + 1] == handlers[..i] + [handlers[i]];
        DeliverSnoc(handlers[..i], handlers[i], message);
        FailuresSnoc(deliveries, Delivery(handlers[i], message), fails);
        deliveries := deliveries + [Delivery(handlers[i], message)];
        var e := fails(handlers[i]);
        if e.Some? {
          errs := errs + [e.value];
        }
      }
      assert handlers[..|handlers|] == handlers;
    }

    /** Go's Write: WriteLog at the logger's own threshold. */
    method Write(message: Bytes, fails: Oracle) returns (n: int, err: Option<Error>, deliveries: seq<Delivery>)
      ensures Dispatched(n, err, deliveries) == Dispatch(minimumLogLevel, handlers, hooks, minimumLogLevel, message, fails)
      ensures n == |message|
    {
      n, err, deliveries := WriteLog(minimumLogLevel, message, fails);
    }

    /** Go's Print and Printf, after formatting: dispatch `text` plus a line
        break; the error only goes to the console. */
    method Print(level: LogLevel, text: Bytes, fails: Oracle) returns (deliveries: seq<Delivery>)
      ensures deliveries == Dispatch(minimumLogLevel, handlers, hooks, level, text + "\n", fails).deliveries
    {
      var n, err;
      n, err, deliveries := WriteLog(level, text + "\n", fails);
    }

    /** Go's WriterAs: a writer that dispatches at a fixed level. */
    method WriterAs(level: LogLevel) returns (w: LevelWriter)
      ensures fresh(w) && w.logger == this && w.level == level
    {
      w := new LevelWriter(this, level);
    }

    /** Go's JoinAs: one level writer, handed to each output in order. */
    method JoinAs(level: LogLevel, outputs: seq<nat>) returns (w: LevelWriter, joined: seq<(nat, LevelWriter)>)
      ensures fresh(w) && w.logger == this && w.level == level
      ensures |joined| == |outputs|
      ensures forall i :: 0 <= i < |outputs| ==> joined[i] == (outputs[i], w)
    {
      w := new LevelWriter(this, level);
      joined := [];
      for i := 0 to |outputs|
        invariant |joined| == i
        invariant forall k :: 0 <= k < i ==> joined[k] == (outputs[k], w)
      {
        joined := joined + [(outputs[i], w)];
      }
    }
  }

  /** The io.Writer that WriterAs and JoinAs build. */
  class LevelWriter {
    const logger: Logger
    const level: LogLevel

    constructor (logger: Logger, level: LogLevel)
      ensures this.logger == logger && this.level == level
    {
      this.logger := logger;
      this.level := level;
    }

    method Write(message: Bytes, fails: Oracle) returns (n: int, err: Option<Error>, deliveries: seq<Delivery>)
      ensures Dispatched(n, err, deliveries)
           == Dispatch(logger.minimumLogLevel, logger.handlers, logger.hooks, level, message, fails)
    {
      n, err, deliveries := logger.WriteLog(level, message, fails);
    }
  }

  /** Go's NewLogger: with no handlers, the console handler `printHandler`
      is the only one; no error is ever returned. */
  method NewLogger(minLogLevel: LogLevel, handlers: seq<WriterId>, printHandler: WriterId)
    returns (l: Logger, err: Option<Error>)
    ensures fresh(l) && err.None?
    ensures l.minimumLogLevel == minLogLevel && l.hooks == []
    ensures l.handlers == if handlers == [] then [printHandler] else handlers
  {
    var hs := handlers;
    if |hs| == 0 {
      hs := [printHandler];
    }
    l := new Logger(minLogLevel, hs);
    err := None;
  }
}
