/** include/nealog/Sink.h and include/nealog_impl/SinkImpl.h: sinks and the
    output they produce.

    Sinks live in an arena (`SinkPool`) and are addressed by index, which is
    how loggers share them.  A stream sink writes to an output buffer; a
    buffer is addressed by its own index, so two sinks created over the same
    stream, or a sink and its copy, write into one buffer.  A stream sink
    whose stream has been moved away holds `None` (the null `stream_`). */
module Sinks {
  import opened Wrappers
  import opened Severities

  type SinkId = nat
  type BufferId = nat

  /** `SinkType`, as reported by `getType`. */
  datatype SinkType = Noop | Stream

  /** The state of one sink: its severity threshold and, for a stream sink,
      the buffer its `stream_` points to. */
  datatype SinkRec =
    | NoopSink(severity: Severity)
    | StreamSink(severity: Severity, stream: Option<BufferId>)

  /** Every stream a sink holds is an existing buffer. */
  predicate WellFormed(sinks: seq<SinkRec>, buffers: seq<string>)
  {
    forall k :: 0 <= k < |sinks| && sinks[k].StreamSink? && sinks[k].stream.Some? ==>
      sinks[k].stream.value < |buffers|
  }

  /** Writing through sink `k` does not dereference a null stream. */
  predicate Writable(sinks: seq<SinkRec>, k: SinkId)
  {
    k < |sinks| && (sinks[k].StreamSink? ==> sinks[k].stream.Some?)
  }

  /** Sink `k` is a stream sink whose stream is buffer `b`. */
  predicate Targets(sinks: seq<SinkRec>, k: SinkId, b: BufferId)
  {
    k < |sinks| && sinks[k].StreamSink? && sinks[k].stream == Some(b)
  }

  /** Writing `m` at severity `s` through sink `k` appends `m` to buffer `b`. */
  predicate Hits(sinks: seq<SinkRec>, k: SinkId, b: BufferId, s: Severity)
  {
    Targets(sinks, k, b) && s >= sinks[k].severity
  }

  /** The buffers after `write(s, m)` on sink `k`: a no-op sink changes
      nothing; a stream sink appends `m` to its stream when `s` is at least
      its own severity. */
  function WriteResult(sinks: seq<SinkRec>, buffers: seq<string>, k: SinkId, s: Severity, m: string): (r: seq<string>)
    requires WellFormed(sinks, buffers) && Writable(sinks, k)
    ensures |r| == |buffers|
    ensures forall b: BufferId :: b < |buffers| ==> r[b] == buffers[b] + (if Hits(sinks, k, b, s) then m else "")
  {
    match sinks[k]
    case NoopSink(_) => buffers
    case StreamSink(threshold, stream) =>
      if s >= threshold then buffers[stream.value := buffers[stream.value] + m] else buffers
  }

  /** The buffers after writing `m` at severity `s` through every sink of
      `list`, in list order. */
  function Deliver(sinks: seq<SinkRec>, buffers: seq<string>, list: seq<SinkId>, s: Severity, m: string): (r: seq<string>)
    requires WellFormed(sinks, buffers)
    requires forall i :: 0 <= i < |list| ==> Writable(sinks, list[i])
    ensures |r| == |buffers|
    decreases |list|
  {
    if |list| == 0 then buffers
    else WriteResult(sinks, Deliver(sinks, buffers, list[..|list| - 1], s, m), list[|list| - 1], s, m)
  }

  /** Number of entries of `list` whose write lands in buffer `b`. */
  function HitCount(sinks: seq<SinkRec>, list: seq<SinkId>, b: BufferId, s: Severity): nat
    decreases |list|
  {
    if |list| == 0 then 0
    else HitCount(sinks, list[..|list| - 1], b, s) + (if Hits(sinks, list[|list| - 1], b, s) then 1 else 0)
  }

  /** `n` copies of `m`, one after the other. */
  function Repeat(m: string, n: nat): string
  {
    if n == 0 then "" else Repeat(m, n - 1) + m
  }

  /** Fan-out: each buffer ends with one copy of the message per list entry
      whose sink targets it and accepts the severity, and nothing else is
      written. */
  lemma {:induction false} DeliverAppends(sinks: seq<SinkRec>, buffers: seq<string>, list: seq<SinkId>,
                                          s: Severity, m: string, b: BufferId)
    requires WellFormed(sinks, buffers)
    requires forall i :: 0 <= i < |list| ==> Writable(sinks, list[i])
    requires b < |buffers|
    ensures Deliver(sinks, buffers, list, s, m)[b] == buffers[b] + Repeat(m, HitCount(sinks, list, b, s))
    decreases |list|
  {
    if |list| > 0 {
      var init := list[..|list| - 1];
      DeliverAppends(sinks, buffers, init, s, m, b);
      var before := Deliver(sinks, buffers, init, s, m);
      assert Deliver(sinks, buffers, list, s, m)[b]
          == before[b] + (if Hits(sinks, list[|list| - 1], b, s) then m else "");
    }
  }

  lemma {:induction false} HitCountAppend(sinks: seq<SinkRec>, front: seq<SinkId>, back: seq<SinkId>, b: BufferId, s: Severity)
    ensures HitCount(sinks, front + back, b, s) == HitCount(sinks, front, b, s) + HitCount(sinks, back, b, s)
    decreases |back|
  {
    if |back| == 0 {
      assert front + back == front;
    } else {
      assert (front + back)[..|front + back| - 1] == front + back[..|back| - 1];
      HitCountAppend(sinks, front, back[..|back| - 1], b, s);
    }
  }

  /** A buffer that no list entry targets receives nothing. */
  lemma {:induction false} HitCountUntargeted(sinks: seq<SinkRec>, list: seq<SinkId>, b: BufferId, s: Severity)
    requires forall i :: 0 <= i < |list| ==> !Hits(sinks, list[i], b, s)
    ensures HitCount(sinks, list, b, s) == 0
    decreases |list|
  {
    if |list| > 0 {
      HitCountUntargeted(sinks, list[..|list| - 1], b, s);
    }
  }

  /** When entry `i` is the only one whose sink writes into buffer `b`, the
      buffer receives the message exactly once if `s` reaches that sink's
      severity, and not at all otherwise. */
  lemma SoleWriter(sinks: seq<SinkRec>, buffers: seq<string>, list: seq<SinkId>, s: Severity, m: string,
                   b: BufferId, i: nat)
    requires WellFormed(sinks, buffers)
    requires forall j :: 0 <= j < |list| ==> Writable(sinks, list[j])
    requires b < |buffers| && i < |list|
    requires Targets(sinks, list[i], b)
    requires forall j :: 0 <= j < |list| && j != i ==> !Targets(sinks, list[j], b)
    ensures Deliver(sinks, buffers, list, s, m)[b]
         == if s >= sinks[list[i]].severity then buffers[b] + m else buffers[b]
  {
    var front, back := list[..i], list[i + 1..];
    assert list == front + [list[i]] + back;
    HitCountAppend(sinks, front + [list[i]], back, b, s);
    HitCountAppend(sinks, front, [list[i]], b, s);
    HitCountUntargeted(sinks, front, b, s);
    assert forall j :: 0 <= j < |back| ==> back[j] == list[i + 1 + j];
    HitCountUntargeted(sinks, back, b, s);
    assert [list[i]][..0] == [];
    DeliverAppends(sinks, buffers, list, s, m, b);
  }

  /** The arena of sinks and the buffers they write to. */
  class SinkPool {
    var sinks: seq<SinkRec>
    var buffers: seq<string>

    ghost predicate Valid()
      reads this
    {
      WellFormed(sinks, buffers)
    }

    constructor ()
      ensures Valid() && sinks == [] && buffers == []
    {
      sinks, buffers := [], [];
    }

    /** A fresh, empty output stream (a `std::ostringstream`). */
    method NewBuffer() returns (b: BufferId)
      requires Valid()
      modifies this
      ensures Valid()
      ensures b == |old(buffers)| && buffers == old(buffers) + [""] && sinks == old(sinks)
    {
      b := |buffers|;
      buffers := buffers + [""];
    }

    /** `SinkFactory::createStreamSink(stream)`: a new stream sink over the
        given stream, at the default severity Trace. */
    method CreateStreamSink(b: BufferId) returns (k: SinkId)
      requires Valid() && b < |buffers|
      modifies this
      ensures Valid()
      ensures k == |old(sinks)| && sinks == old(sinks) + [StreamSink(Trace, Some(b))]
      ensures buffers == old(buffers)
    {
      k := |sinks|;
      sinks := sinks + [StreamSink(Trace, Some(b))];
    }

    /** A default-constructed `NoopSink`, at the default severity Trace. */
    method CreateNoopSink() returns (k: SinkId)
      requires Valid()
      modifies this
      ensures Valid()
      ensures k == |old(sinks)| && sinks == old(sinks) + [NoopSink(Trace)]
      ensures buffers == old(buffers)
    {
      k := |sinks|;
      sinks := sinks + [NoopSink(Trace)];
    }

    /** Copy constructor: the copy shares the source's stream and takes its
        severity. */
    method CopyConstruct(source: SinkId) returns (k: SinkId)
      requires Valid() && source < |sinks| && sinks[source].StreamSink?
      modifies this
      ensures Valid()
      ensures k == |old(sinks)|
      ensures sinks == old(sinks) + [StreamSink(old(sinks)[source].severity, old(sinks)[source].stream)]
      ensures buffers == old(buffers)
    {
      k := |sinks|;
      sinks := sinks + [StreamSink(sinks[source].severity, sinks[source].stream)];
    }

    /** Move constructor: the new sink takes the source's stream and
        severity, and the source's stream becomes null. */
    method MoveConstruct(source: SinkId) returns (k: SinkId)
      requires Valid() && source < |sinks| && sinks[source].StreamSink?
      modifies this
      ensures Valid()
      ensures k == |old(sinks)|
      ensures sinks == old(sinks)[source := old(sinks)[source].(stream := None)]
                     + [StreamSink(old(sinks)[source].severity, old(sinks)[source].stream)]
      ensures buffers == old(buffers)
    {
      k := |sinks|;
      var moved := StreamSink(sinks[source].severity, sinks[source].stream);
      sinks := sinks[source := sinks[source].(stream := None)] + [moved];
    }

    /** Copy assignment: the target shares the source's stream and takes its
        severity (assigning a sink to itself changes nothing). */
    method CopyAssign(target: SinkId, source: SinkId)
      requires Valid() && target < |sinks| && source < |sinks|
      requires sinks[target].StreamSink? && sinks[source].StreamSink?
      modifies this
      ensures Valid()
      ensures sinks == old(sinks)[target := StreamSink(old(sinks)[source].severity, old(sinks)[source].stream)]
      ensures target == source ==> sinks == old(sinks)
      ensures buffers == old(buffers)
    {
      sinks := sinks[target := StreamSink(sinks[source].severity, sinks[source].stream)];
    }

    /** Move assignment: the target takes the source's stream and severity
        and the source's stream becomes null.  A self-move leaves the sink as
        it was, because moving a `shared_ptr` into itself is a swap with a
        temporary that holds the same pointer. */
    method MoveAssign(target: SinkId, source: SinkId)
      requires Valid() && target < |sinks| && source < |sinks|
      requires sinks[target].StreamSink? && sinks[source].StreamSink?
      modifies this
      ensures Valid()
      ensures target == source ==> sinks == old(sinks)
      ensures target != source ==>
        sinks == old(sinks)[target := StreamSink(old(sinks)[source].severity, old(sinks)[source].stream)]
                           [source := old(sinks)[source].(stream := None)]
      ensures buffers == old(buffers)
    {
      if target != source {
        var moved := StreamSink(sinks[source].severity, sinks[source].stream);
        sinks := sinks[target := moved][source := sinks[source].(stream := None)];
      }
    }

    /** `getType`. */
    function GetType(k: SinkId): (t: SinkType)
      reads this
      requires k < |sinks|
      ensures t == Noop <==> sinks[k].NoopSink?
      ensures t == Stream <==> sinks[k].StreamSink?
    {
      if sinks[k].NoopSink? then Noop else Stream
    }

    /** `getUnderlyingStream`: the buffer the sink writes to, or None once
        its stream has been moved away. The buffer stands for the stream's
        `rdbuf`: each constructed stream sink owns a distinct `std::ostream`
        over it, so only copies share the pointer the source returns. */
    function GetUnderlyingStream(k: SinkId): (r: Option<BufferId>)
      reads this
      requires k < |sinks| && sinks[k].StreamSink?
      ensures r == sinks[k].stream
    {
      sinks[k].stream
    }

    /** `setSeverity` on a sink: only that sink's threshold changes. */
    method SetSeverity(k: SinkId, s: Severity)
      requires Valid() && k < |sinks|
      modifies this
      ensures Valid()
      ensures sinks == old(sinks)[k := old(sinks)[k].(severity := s)] && buffers == old(buffers)
    {
      sinks := sinks[k := sinks[k].(severity := s)];
    }

    /** `getSeverity` on a sink. */
    method GetSeverity(k: SinkId) returns (s: Severity)
      requires k < |sinks|
      ensures s == sinks[k].severity
    {
      s := sinks[k].severity;
    }

    /** `write(s, m)`: a no-op sink writes nothing; a stream sink appends `m`
        to its stream if and only if `s` is at least its severity. */
    method Write(k: SinkId, s: Severity, m: string)
      requires Valid() && Writable(sinks, k)
      modifies this
      ensures Valid() && sinks == old(sinks)
      ensures buffers == WriteResult(old(sinks), old(buffers), k, s, m)
      ensures sinks[k].NoopSink? ==> buffers == old(buffers)
      ensures sinks[k].StreamSink? ==>
        var b := sinks[k].stream.value;
        buffers == if s >= sinks[k].severity then old(buffers)[b := old(buffers)[b] + m] else old(buffers)
    {
      match sinks[k]
      case NoopSink(_) =>
      case StreamSink(threshold, stream) =>
        if s >= threshold {
          buffers := buffers[stream.value := buffers[stream.value] + m];
        }
    }

    /** `flush`: no effect on the buffered output. */
    method Flush(k: SinkId)
      requires Valid() && Writable(sinks, k)
      ensures unchanged(this)
    {
    }
  }
}
