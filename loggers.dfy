/** include/nealog/Logger.h and include/nealog_impl/LoggerImpl.h: a named
    logger that filters by severity and fans a message out to its sinks,
    and the exception the registry raises for an unknown name. */
module Loggers {
  import opened Severities
  import opened Sinks

  const UnregisteredKeyPrefix: string := "No logger with key \""
  const UnregisteredKeySuffix: string := "\" registered"

  /** `UnregisteredKeyException(key)`, raised by the branch operations of
      the registry. */
  datatype RegistryError = UnregisteredKey(key: string) {
    /** The exception's `what()` text. */
    function Message(): (msg: string)
      ensures |msg| == |UnregisteredKeyPrefix| + |key| + |UnregisteredKeySuffix|
      ensures msg[..|UnregisteredKeyPrefix|] == UnregisteredKeyPrefix
      ensures msg[|UnregisteredKeyPrefix|..|msg| - |UnregisteredKeySuffix|] == key
      ensures msg[|msg| - |UnregisteredKeySuffix|..] == UnregisteredKeySuffix
    {
      UnregisteredKeyPrefix + key + UnregisteredKeySuffix
    }
  }

  /** The message names the key: two exceptions with the same text are
      about the same key. */
  lemma MessageIdentifiesKey(a: RegistryError, b: RegistryError)
    requires a.Message() == b.Message()
    ensures a == b
  {
    var la, lb := |a.Message()|, |b.Message()|;
    assert a.key == a.Message()[|UnregisteredKeyPrefix|..la - |UnregisteredKeySuffix|];
    assert b.key == b.Message()[|UnregisteredKeyPrefix|..lb - |UnregisteredKeySuffix|];
  }

  /** The buffers after the logger's own filtering and fan-out, on a logger
      of severity `level` whose sink list is `list`: below the logger's
      severity nothing is written; otherwise `m` goes to every sink in list
      order. Only `Logger.Log` requires the list to be non-empty; for an empty
      list the source would forward to `parent_` instead. */
  function Emit(level: Severity, sinks: seq<SinkRec>, buffers: seq<string>, list: seq<SinkId>,
                s: Severity, m: string): (r: seq<string>)
    requires WellFormed(sinks, buffers)
    requires s >= level ==> forall i :: 0 <= i < |list| ==> Writable(sinks, list[i])
    ensures |r| == |buffers|
    ensures s < level ==> r == buffers
  {
    if s >= level then Deliver(sinks, buffers, list, s, m) else buffers
  }

  /** What one buffer receives from `log(s, m)`: a copy of `m` for each
      sink entry that targets it and accepts `s`, and only if `s` reaches the
      logger's severity. */
  lemma EmitAppends(level: Severity, sinks: seq<SinkRec>, buffers: seq<string>, list: seq<SinkId>,
                    s: Severity, m: string, b: BufferId)
    requires WellFormed(sinks, buffers)
    requires s >= level ==> forall i :: 0 <= i < |list| ==> Writable(sinks, list[i])
    requires b < |buffers|
    ensures Emit(level, sinks, buffers, list, s, m)[b]
         == buffers[b] + if s >= level then Repeat(m, HitCount(sinks, list, b, s)) else ""
  {
    if s >= level {
      DeliverAppends(sinks, buffers, list, s, m, b);
    }
  }

  /** Two-level filtering: the buffer of a sink that is the only writer to
      it receives `m` exactly when `s` reaches both the logger's severity and
      that sink's severity; otherwise it is unchanged. */
  lemma FilteredByLoggerAndSink(level: Severity, sinks: seq<SinkRec>, buffers: seq<string>, list: seq<SinkId>,
                                s: Severity, m: string, b: BufferId, i: nat)
    requires WellFormed(sinks, buffers)
    requires s >= level ==> forall j :: 0 <= j < |list| ==> Writable(sinks, list[j])
    requires b < |buffers| && i < |list|
    requires Targets(sinks, list[i], b)
    requires forall j :: 0 <= j < |list| && j != i ==> !Targets(sinks, list[j], b)
    ensures Emit(level, sinks, buffers, list, s, m)[b]
         == if s >= level && s >= sinks[list[i]].severity then buffers[b] + m else buffers[b]
  {
    if s >= level {
      SoleWriter(sinks, buffers, list, s, m, b, i);
    }
  }

  class Logger {
    const name: string
    var severity: Severity
    var sinks: seq<SinkId>

    /** `Logger(name)`: default severity Trace, no sinks. */
    constructor (name: string)
      ensures this.name == name && severity == Trace && sinks == []
    {
      this.name := name;
      severity := Trace;
      sinks := [];
    }

    /** `Logger(name, severity, sinks)`: a logger holding its own copy of
        the given severity and sink list. */
    constructor Inheriting(name: string, severity: Severity, sinks: seq<SinkId>)
      ensures this.name == name && this.severity == severity && this.sinks == sinks
    {
      this.name := name;
      this.severity := severity;
      this.sinks := sinks;
    }

    /** `addSink`: appends at the end, without removing duplicates. */
    method AddSink(k: SinkId)
      modifies this
      ensures sinks == old(sinks) + [k] && severity == old(severity)
      ensures |sinks| == |old(sinks)| + 1 && sinks[..|old(sinks)|] == old(sinks)
    {
      sinks := sinks + [k];
    }

    /** `setSeverity`: only the severity changes. */
    method SetSeverity(s: Severity)
      modifies this
      ensures severity == s && sinks == old(sinks)
    {
      severity := s;
    }

    /** `getSeverity`: the level last set (or inherited at creation). */
    function GetSeverity(): (s: Severity)
      reads this
      ensures s == severity
    {
      severity
    }

    /** `getSinks`: a copy of the sink list (a value: changing it cannot
        change the logger). */
    function GetSinks(): (r: seq<SinkId>)
      reads this
      ensures r == sinks
    {
      sinks
    }

    /** `writeToSinks`: `write(s, m)` on every sink, in list order. */
    method WriteToSinks(pool: SinkPool, s: Severity, m: string)
      requires pool.Valid()
      requires forall i :: 0 <= i < |sinks| ==> Writable(pool.sinks, sinks[i])
      modifies pool
      ensures pool.Valid() && pool.sinks == old(pool.sinks)
      ensures pool.buffers == Deliver(old(pool.sinks), old(pool.buffers), sinks, s, m)
    {
      var i := 0;
      while i < |sinks|
        invariant 0 <= i <= |sinks|
        invariant pool.Valid() && pool.sinks == old(pool.sinks)
        invariant pool.buffers == Deliver(old(pool.sinks), old(pool.buffers), sinks[..i], s, m)
      {
        assert sinks[..i + 1][..i] == sinks[..i];
        pool.Write(sinks[i], s, m);
        i := i + 1;
      }
      assert sinks[..i] == sinks;
    }

    /** `log(s, m)`.  The source forwards to `parent_` when the sink list is
        empty; nothing in the library sets `parent_`, so that branch would
        dereference null, and the caller must supply a non-empty list. */
    method Log(pool: SinkPool, s: Severity, m: string)
      requires pool.Valid() && |sinks| > 0
      requires s >= severity ==> forall i :: 0 <= i < |sinks| ==> Writable(pool.sinks, sinks[i])
      modifies pool
      ensures pool.Valid() && pool.sinks == old(pool.sinks)
      ensures pool.buffers == Emit(severity, old(pool.sinks), old(pool.buffers), sinks, s, m)
      ensures s < severity ==> pool.buffers == old(pool.buffers)
    {
      if s >= severity {
        WriteToSinks(pool, s, m);
      }
    }

    /** `trace(m)`: `log(Trace, m)`. */
    method LogTrace(pool: SinkPool, m: string)
      requires pool.Valid() && |sinks| > 0
      requires Trace >= severity ==> forall i :: 0 <= i < |sinks| ==> Writable(pool.sinks, sinks[i])
      modifies pool
      ensures pool.Valid() && pool.sinks == old(pool.sinks)
      ensures pool.buffers == Emit(severity, old(pool.sinks), old(pool.buffers), sinks, Trace, m)
    {
      Log(pool, Trace, m);
    }

    /** `debug(m)`: `log(Debug, m)`. */
    method LogDebug(pool: SinkPool, m: string)
      requires pool.Valid() && |sinks| > 0
      requires Debug >= severity ==> forall i :: 0 <= i < |sinks| ==> Writable(pool.sinks, sinks[i])
      modifies pool
      ensures pool.Valid() && pool.sinks == old(pool.sinks)
      ensures pool.buffers == Emit(severity, old(pool.sinks), old(pool.buffers), sinks, Debug, m)
    {
      Log(pool, Debug, m);
    }

    /** `info(m)`: `log(Info, m)`. */
    method LogInfo(pool: SinkPool, m: string)
      requires pool.Valid() && |sinks| > 0
      requires Info >= severity ==> forall i :: 0 <= i < |sinks| ==> Writable(pool.sinks, sinks[i])
      modifies pool
      ensures pool.Valid() && pool.sinks == old(pool.sinks)
      ensures pool.buffers == Emit(severity, old(pool.sinks), old(pool.buffers), sinks, Info, m)
    {
      Log(pool, Info, m);
    }

    /** `warn(m)`: `log(Warn, m)`. */
    method LogWarn(pool: SinkPool, m: string)
      requires pool.Valid() && |sinks| > 0
      requires Warn >= severity ==> forall i :: 0 <= i < |sinks| ==> Writable(pool.sinks, sinks[i])
      modifies pool
      ensures pool.Valid() && pool.sinks == old(pool.sinks)
      ensures pool.buffers == Emit(severity, old(pool.sinks), old(pool.buffers), sinks, Warn, m)
    {
      Log(pool, Warn, m);
    }

    /** `error(m)`: `log(Error, m)`. */
    method LogError(pool: SinkPool, m: string)
      requires pool.Valid() && |sinks| > 0
      requires Error >= severity ==> forall i :: 0 <= i < |sinks| ==> Writable(pool.sinks, sinks[i])
      modifies pool
      ensures pool.Valid() && pool.sinks == old(pool.sinks)
      ensures pool.buffers == Emit(severity, old(pool.sinks), old(pool.buffers), sinks, Error, m)
    {
      Log(pool, Error, m);
    }

    /** `fatal(m)`: `log(Fatal, m)`. */
    method LogFatal(pool: SinkPool, m: string)
      requires pool.Valid() && |sinks| > 0
      requires Fatal >= severity ==> forall i :: 0 <= i < |sinks| ==> Writable(pool.sinks, sinks[i])
      modifies pool
      ensures pool.Valid() && pool.sinks == old(pool.sinks)
      ensures pool.buffers == Emit(severity, old(pool.sinks), old(pool.buffers), sinks, Fatal, m)
    {
      Log(pool, Fatal, m);
    }
  }
}
