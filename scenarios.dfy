/** Client-side sequences of registry calls, each stating what a caller of
    the registry observes afterwards. */
module Scenarios {
  import opened Wrappers
  import opened Severities
  import opened Sinks
  import opened Loggers
  import opened Registry

  /** A child created from a fresh registry copies the root's severity and
      sinks; later changes to the root do not reach it. */
  method SnapshotAfterRootChange(first: SinkId, second: SinkId)
    returns (rootLevel: Severity, childLevel: Severity, rootSinks: seq<SinkId>, childSinks: seq<SinkId>)
    ensures rootLevel == Info && rootSinks == [first, second]
    ensures childLevel == Error && childSinks == [first]
  {
    var registry := new LoggerTreeRegistry();
    var root := registry.GetRootLogger();
    root.AddSink(first);
    root.SetSeverity(Error);
    var child := registry.GetOrCreate("child");
    RegisteredFromEmpty(LoggerConfig(Error, [first]), "child", '.', "child");
    root.AddSink(second);
    root.SetSeverity(Info);
    rootLevel := root.GetSeverity();
    childLevel := child.GetSeverity();
    rootSinks := root.GetSinks();
    childSinks := child.GetSinks();
  }

  /** Creating a nested name from a fresh registry creates every ancestor,
      and all of them copy the root's configuration. */
  method InheritsDownTheChain(level: Severity, sink: SinkId, a: string, b: string, c: string)
    returns (names: set<string>, levels: seq<Severity>)
    requires '.' !in a && '.' !in b && '.' !in c
    ensures names == {a, a + "." + b, a + "." + b + "." + c}
    ensures levels == [level, level, level]
  {
    var registry := new LoggerTreeRegistry();
    var root := registry.GetRootLogger();
    root.AddSink(sink);
    root.SetSeverity(level);
    var full := a + "." + b + "." + c;
    var leaf := registry.GetOrCreate(full);
    var cfg := LoggerConfig(level, [sink]);
    RegistersChain(cfg, a, b, c, '.');
    var list := registry.GetLoggerList();
    names := list.Keys;
    RegisteredFromEmpty(cfg, full, '.', a);
    RegisteredFromEmpty(cfg, full, '.', a + "." + b);
    RegisteredFromEmpty(cfg, full, '.', full);
    levels := [list[a].GetSeverity(), list[a + "." + b].GetSeverity(), list[full].GetSeverity()];
  }

  /** Two lookups of one name yield the same logger, even when the root
      changed in between. */
  method LookupTwice(name: string) returns (same: bool)
    ensures same
  {
    var registry := new LoggerTreeRegistry();
    var first := registry.GetOrCreate(name);
    var root := registry.GetRootLogger();
    root.SetSeverity(Fatal);
    var second := registry.GetOrCreate(name);
    same := first == second;
  }

  /** Branch operations on a name nobody registered report the name and
      leave the registry as it was. */
  method UnknownBranch(name: string, sink: SinkId) returns (bySeverity: Outcome<RegistryError>, bySink: Outcome<RegistryError>)
    ensures bySeverity == Fail(UnregisteredKey(name)) && bySink == Fail(UnregisteredKey(name))
  {
    var registry := new LoggerTreeRegistry();
    bySeverity := registry.SetBranchSeverity(name, Warn);
    bySink := registry.AddBranchSink(name, sink);
  }

  /** After `a.b.c` and `d.e.f` are registered, the inner segments `b` and
      `e` are still unknown branch roots: a name that occurs inside a
      registered name but begins none of them is not a key. */
  method InnerSegmentsAreNotKeys(a: string, b: string, c: string, d: string, e: string, f: string, sink: SinkId)
    returns (bySink: Outcome<RegistryError>, bySeverity: Outcome<RegistryError>, keys: set<string>)
    requires !(b <= a + "." + b + "." + c) && !(b <= d + "." + e + "." + f)
    requires !(e <= a + "." + b + "." + c) && !(e <= d + "." + e + "." + f)
    ensures bySink == Fail(UnregisteredKey(b)) && bySeverity == Fail(UnregisteredKey(e))
    ensures a + "." + b + "." + c in keys && d + "." + e + "." + f in keys
    ensures b !in keys && e !in keys
  {
    var registry := new LoggerTreeRegistry();
    var child := registry.GetOrCreate(a + "." + b + "." + c);
    var sibling := registry.GetOrCreate(d + "." + e + "." + f);
    bySink := registry.AddBranchSink(b, sink);
    bySeverity := registry.SetBranchSeverity(e, Trace);
    var list := registry.GetLoggerList();
    keys := list.Keys;
  }
}
