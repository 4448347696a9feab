/** include/nealog/LoggerRegistry.h: the logger tree.  Loggers are keyed by
    dotted names; asking for a name creates it and every missing ancestor,
    each new logger starting with a copy of its parent's severity and sink
    list; branch and tree operations reconfigure many loggers at once. */
module Registry {
  import opened Wrappers
  import opened Text
  import opened Utility
  import opened Severities
  import opened Sinks
  import opened Loggers

  /** The part of a logger that a child copies from its parent. */
  datatype LoggerConfig = LoggerConfig(severity: Severity, sinks: seq<SinkId>)

  /** The registered names with their configurations. */
  type Tree = map<string, LoggerConfig>

  /** The name a logger inherits from: everything before the last
      delimiter, or None when there is no delimiter (the parent is then the
      root logger). */
  function ParentName(name: string, delim: char): (r: Option<string>)
    ensures r.Some? ==> |r.value| < |name| && r.value <= name && name[|r.value|] == delim
    ensures r.None? <==> delim !in name
  {
    match LastIndexOf(name, delim)
    case None => None
    case Some(i) => Some(name[..i])
  }

  /** The parent ends at the last delimiter. */
  lemma ParentAtLastDelimiter(name: string, delim: char, j: int)
    requires ParentName(name, delim).Some? && |ParentName(name, delim).value| < j < |name|
    ensures name[j] != delim
  {
  }

  /** The proper ancestors of a name: every prefix that ends just before a
      delimiter. */
  function Ancestors(name: string, delim: char): set<string>
  {
    set i | 0 <= i < |name| && name[i] == delim :: name[..i]
  }

  /** Every registered name's parent is registered too. */
  predicate ParentClosed(keys: set<string>, delim: char)
  {
    forall n :: n in keys ==> ParentName(n, delim).None? || ParentName(n, delim).value in keys
  }

  /** Closing under parents closes under all ancestors. */
  lemma {:induction false} AncestorRegistered(keys: set<string>, delim: char, n: string, i: nat)
    requires ParentClosed(keys, delim) && n in keys && i < |n| && n[i] == delim
    ensures n[..i] in keys
    decreases |n|
  {
    var p := ParentName(n, delim).value;
    assert p in keys;
    if i < |p| {
      assert p[i] == delim;
      AncestorRegistered(keys, delim, p, i);
      assert p[..i] == n[..i];
    } else {
      assert p == n[..i];
    }
  }

  lemma AncestorsRegistered(keys: set<string>, delim: char, n: string)
    requires ParentClosed(keys, delim) && n in keys
    ensures Ancestors(n, delim) <= keys
  {
    forall a | a in Ancestors(n, delim) ensures a in keys {
      var i :| 0 <= i < |n| && n[i] == delim && a == n[..i];
      AncestorRegistered(keys, delim, n, i);
    }
  }

  /** The ancestors of a name are its parent and the parent's ancestors. */
  lemma AncestorsOfParent(name: string, delim: char)
    requires ParentName(name, delim).Some?
    ensures Ancestors(name, delim) == {ParentName(name, delim).value} + Ancestors(ParentName(name, delim).value, delim)
  {
    var p := ParentName(name, delim).value;
    forall a | a in Ancestors(name, delim)
      ensures a == p || a in Ancestors(p, delim)
    {
      var i :| 0 <= i < |name| && name[i] == delim && a == name[..i];
      if |p| < i {
        ParentAtLastDelimiter(name, delim, i);
      }
      if i < |p| {
        assert p[i] == delim && p[..i] == a;
      }
    }
    assert name[..|p|] == p;
    forall a | a in Ancestors(p, delim) ensures a in Ancestors(name, delim) {
      var i :| 0 <= i < |p| && p[i] == delim && a == p[..i];
      assert name[i] == delim && name[..i] == a;
    }
  }

  /** A name without delimiter has no ancestors. */
  lemma NoAncestors(name: string, delim: char)
    requires delim !in name
    ensures Ancestors(name, delim) == {}
  {
    forall i | 0 <= i < |name| ensures name[i] != delim {
      assert name[i] in name;
    }
  }

  /** `getOrCreate(name)` on configurations: a registered name is left as
      it is; otherwise its parent is resolved first (recursively, the root
      standing in when there is no delimiter) and the name is added with a
      copy of the parent's configuration as the parent is at that moment. */
  function Registered(t: Tree, root: LoggerConfig, name: string, delim: char): (r: Tree)
    ensures name in r
    ensures forall k :: k in t ==> k in r && r[k] == t[k]
    ensures forall k :: k in r ==> k in t || k <= name
    ensures name in t ==> r == t
    decreases |name|
  {
    if name in t then t
    else match ParentName(name, delim)
      case None => t[name := root]
      case Some(p) =>
        var u := Registered(t, root, p, delim);
        u[name := u[p]]
  }

  /** One step of `Registered`: with the parent already resolved, adding
      the name with the parent's configuration completes the call. */
  lemma RegisteredStep(t: Tree, root: LoggerConfig, name: string, delim: char, u: Tree)
    requires name !in t
    requires ParentName(name, delim).None? ==> u == t
    requires ParentName(name, delim).Some? ==> u == Registered(t, root, ParentName(name, delim).value, delim)
    ensures ParentName(name, delim).Some? ==> ParentName(name, delim).value in u
    ensures Registered(t, root, name, delim)
      == u[name := if ParentName(name, delim).None? then root else u[ParentName(name, delim).value]]
  {
  }

  /** Adding a name whose parent is present keeps a key set parent-closed. */
  lemma ParentClosedInsert(keys: set<string>, delim: char, name: string)
    requires ParentClosed(keys, delim)
    requires ParentName(name, delim).None? || ParentName(name, delim).value in keys
    ensures ParentClosed(keys + {name}, delim)
  {
  }

  /** Lazy creation keeps every ancestor registered. */
  lemma {:induction false} RegisteredParentClosed(t: Tree, root: LoggerConfig, name: string, delim: char)
    requires ParentClosed(t.Keys, delim)
    ensures ParentClosed(Registered(t, root, name, delim).Keys, delim)
    decreases |name|
  {
    if name !in t {
      match ParentName(name, delim)
      case None =>
      case Some(p) => RegisteredParentClosed(t, root, p, delim);
    }
  }

  /** Exactly the name and its missing ancestors are created. */
  lemma {:induction false} RegisteredKeys(t: Tree, root: LoggerConfig, name: string, delim: char)
    requires ParentClosed(t.Keys, delim)
    ensures Registered(t, root, name, delim).Keys == t.Keys + {name} + Ancestors(name, delim)
    decreases |name|
  {
    if name in t {
      AncestorsRegistered(t.Keys, delim, name);
    } else {
      match ParentName(name, delim)
      case None => NoAncestors(name, delim);
      case Some(p) =>
        RegisteredKeys(t, root, p, delim);
        AncestorsOfParent(name, delim);
    }
  }

  /** Snapshot inheritance: every logger created by the call holds the
      configuration of its parent (the root for a name without delimiter),
      and the parent is registered. */
  lemma {:induction false} RegisteredInheritsParent(t: Tree, root: LoggerConfig, name: string, delim: char, k: string)
    requires k in Registered(t, root, name, delim) && k !in t
    ensures ParentName(k, delim).None? ==> Registered(t, root, name, delim)[k] == root
    ensures ParentName(k, delim).Some? ==>
      var p := ParentName(k, delim).value;
      p in Registered(t, root, name, delim) && Registered(t, root, name, delim)[k] == Registered(t, root, name, delim)[p]
    decreases |name|
  {
    match ParentName(name, delim)
    case None =>
    case Some(p) =>
      var u := Registered(t, root, p, delim);
      if k != name {
        RegisteredInheritsParent(t, root, p, delim, k);
        assert |k| <= |p|;
      }
  }

  /** The configuration of the nearest registered ancestor of `name`, or of
      the root when no ancestor is registered. */
  function NearestConfig(t: Tree, root: LoggerConfig, name: string, delim: char): LoggerConfig
    decreases |name|
  {
    match ParentName(name, delim)
    case None => root
    case Some(p) => if p in t then t[p] else NearestConfig(t, root, p, delim)
  }

  /** All loggers one call creates share one configuration: that of the
      nearest ancestor that was already registered (or the root). */
  lemma {:induction false} RegisteredCopiesNearest(t: Tree, root: LoggerConfig, name: string, delim: char, k: string)
    requires k in Registered(t, root, name, delim) && k !in t
    ensures Registered(t, root, name, delim)[k] == NearestConfig(t, root, name, delim)
    decreases |name|
  {
    match ParentName(name, delim)
    case None =>
    case Some(p) =>
      if p !in t {
        if k != name {
          RegisteredCopiesNearest(t, root, p, delim, k);
        } else {
          RegisteredCopiesNearest(t, root, p, delim, p);
        }
      }
  }

  /** In an empty registry every logger one call creates is a copy of the
      root's configuration at the time of the call. */
  lemma {:induction false} RegisteredFromEmpty(root: LoggerConfig, name: string, delim: char, k: string)
    requires k in Registered(map[], root, name, delim)
    ensures Registered(map[], root, name, delim)[k] == root
  {
    RegisteredCopiesNearest(map[], root, name, delim, k);
    NearestInEmpty(root, name, delim);
  }

  lemma {:induction false} NearestInEmpty(root: LoggerConfig, name: string, delim: char)
    ensures NearestConfig(map[], root, name, delim) == root
    decreases |name|
  {
    match ParentName(name, delim)
    case None =>
    case Some(p) => NearestInEmpty(root, p, delim);
  }

  /** A second lookup of the same name changes nothing, whatever the root's
      configuration has become in between: existing loggers are snapshots. */
  lemma RegisteredIdempotent(t: Tree, root: LoggerConfig, later: LoggerConfig, name: string, delim: char)
    ensures Registered(Registered(t, root, name, delim), later, name, delim) == Registered(t, root, name, delim)
  {
  }

  /** The parent of `a + [d] + b`, where `b` has no delimiter, is `a`. */
  lemma ParentOfAppend(a: string, d: char, b: string)
    requires d !in b
    ensures ParentName(a + [d] + b, d) == Some(a)
  {
    var s := a + [d] + b;
    assert s[|a|] == d;
    forall j | |a| < j < |s| ensures s[j] != d {
      assert s[j] == b[j - |a| - 1];
    }
    assert s[..|a|] == a;
  }

  /** Registering `a.b.c` (no delimiter inside the segments) in an empty
      tree creates exactly `a`, `a.b` and `a.b.c`. */
  lemma RegistersChain(root: LoggerConfig, a: string, b: string, c: string, d: char)
    requires d !in a && d !in b && d !in c
    ensures Registered(map[], root, a + [d] + b + [d] + c, d).Keys == {a, a + [d] + b, a + [d] + b + [d] + c}
  {
    var ab := a + [d] + b;
    var abc := ab + [d] + c;
    RegisteredKeys(map[], root, abc, d);
    ParentOfAppend(ab, d, c);
    AncestorsOfParent(abc, d);
    ParentOfAppend(a, d, b);
    AncestorsOfParent(ab, d);
    NoAncestors(a, d);
  }

  /** The registered names with raw prefix `b`. */
  function Matching(keys: set<string>, b: string): set<string>
  {
    set n | n in keys && b <= n
  }

  /** Give the loggers in `names` severity `s`. */
  function SeverityOf(t: Tree, names: set<string>, s: Severity): Tree
  {
    map n | n in t :: if n in names then t[n].(severity := s) else t[n]
  }

  /** Append `k` to the sink lists of the loggers in `names`. */
  function SinkTo(t: Tree, names: set<string>, k: SinkId): Tree
  {
    map n | n in t :: if n in names then t[n].(sinks := t[n].sinks + [k]) else t[n]
  }

  /** Updating one more logger extends the set of updated loggers. */
  lemma SeverityOfStep(t: Tree, names: set<string>, s: Severity, name: string)
    requires name in t
    ensures SeverityOf(t, names, s)[name := SeverityOf(t, names, s)[name].(severity := s)]
      == SeverityOf(t, names + {name}, s)
  {
  }

  lemma SinkToStep(t: Tree, names: set<string>, k: SinkId, name: string)
    requires name in t && name !in names
    ensures SinkTo(t, names, k)[name := SinkTo(t, names, k)[name].(sinks := SinkTo(t, names, k)[name].sinks + [k])]
      == SinkTo(t, names + {name}, k)
  {
  }

  /** One step of a loop over the registered names: the visited names grow
      by the chosen one. */
  lemma VisitStep(keys: set<string>, todo: set<string>, name: string)
    requires name in todo && todo <= keys
    ensures keys - (todo - {name}) == (keys - todo) + {name}
    ensures name !in keys - todo
  {
  }

  /** The visited names that match grow by the chosen one when it matches. */
  lemma MatchingStep(keys: set<string>, todo: set<string>, name: string, b: string)
    requires name in todo && todo <= keys
    ensures keys - (todo - {name}) == (keys - todo) + {name}
    ensures Matching(keys - (todo - {name}), b)
      == if b <= name then Matching(keys - todo, b) + {name} else Matching(keys - todo, b)
    ensures name !in Matching(keys - todo, b)
  {
  }

  /** `setBranchSeverity` on a registered branch root: the root entry is set
      first, then every entry with the branch root as raw prefix. */
  function BranchSeverity(t: Tree, b: string, s: Severity): Tree
    requires b in t
  {
    SeverityOf(t[b := t[b].(severity := s)], Matching(t.Keys, b), s)
  }

  /** `addBranchSink` on a registered branch root: the sink is appended to
      the root entry, then to every entry with the branch root as raw
      prefix, the root entry included. */
  function BranchSink(t: Tree, b: string, k: SinkId): Tree
    requires b in t
  {
    SinkTo(t[b := t[b].(sinks := t[b].sinks + [k])], Matching(t.Keys, b), k)
  }

  /** `setTreeSeverity` on the named loggers. */
  function TreeSeverity(t: Tree, s: Severity): Tree
  {
    SeverityOf(t, t.Keys, s)
  }

  /** `addTreeSink` on the named loggers. */
  function TreeSink(t: Tree, k: SinkId): Tree
  {
    SinkTo(t, t.Keys, k)
  }

  /** Exactly the names with raw prefix `b` get the new severity; every
      other name keeps its severity, and no sink list changes. */
  lemma BranchSeverityExact(t: Tree, b: string, s: Severity)
    requires b in t
    ensures BranchSeverity(t, b, s).Keys == t.Keys
    ensures forall n :: n in t ==>
      BranchSeverity(t, b, s)[n].severity == (if b <= n then s else t[n].severity)
      && BranchSeverity(t, b, s)[n].sinks == t[n].sinks
  {
  }

  /** The sink reaches every name with raw prefix `b` once, except the
      branch root itself, which receives it twice; other names and all
      severities are untouched. */
  lemma BranchSinkExact(t: Tree, b: string, k: SinkId)
    requires b in t
    ensures BranchSink(t, b, k).Keys == t.Keys
    ensures BranchSink(t, b, k)[b].sinks == t[b].sinks + [k, k]
    ensures forall n :: n in t && n != b ==>
      BranchSink(t, b, k)[n].sinks == (if b <= n then t[n].sinks + [k] else t[n].sinks)
    ensures forall n :: n in t ==> BranchSink(t, b, k)[n].severity == t[n].severity
  {
    assert t[b].sinks + [k] + [k] == t[b].sinks + [k, k];
  }

  /** Tree operations reach every named logger: one new severity for all,
      and the sink appended exactly once to each sink list. */
  lemma TreeOperationsExact(t: Tree, s: Severity, k: SinkId)
    ensures TreeSeverity(t, s).Keys == t.Keys && TreeSink(t, k).Keys == t.Keys
    ensures forall n :: n in t ==> TreeSeverity(t, s)[n] == LoggerConfig(s, t[n].sinks)
    ensures forall n :: n in t ==> TreeSink(t, k)[n] == LoggerConfig(t[n].severity, t[n].sinks + [k])
  {
  }

  /** Branch targeting is a raw prefix test: the branch "sibling" also
      reaches "sibling2" and "sibling2.x", which are not below it in the
      dotted hierarchy. */
  lemma BranchOvermatchesSiblings(t: Tree, s: Severity)
    requires "sibling" in t && "sibling2" in t && "sibling2.x" in t
    ensures BranchSeverity(t, "sibling", s)["sibling2"].severity == s
    ensures BranchSeverity(t, "sibling", s)["sibling2.x"].severity == s
  {
    RawCharacterMatch();
    assert BeginsWith("sibling2", "sibling");
  }

  /** Every dotted descendant of the branch root is reached. */
  lemma BranchReachesDescendants(t: Tree, b: string, s: Severity, delim: char, n: string)
    requires b in t && n in t && b in Ancestors(n, delim)
    ensures BranchSeverity(t, b, s)[n].severity == s
  {
    var i :| 0 <= i < |n| && n[i] == delim && b == n[..i];
  }

  /** The registry.  `tree` maps names to logger objects (so a lookup
      returns the same instance every time) and `root` is the separate root
      logger. */
  class LoggerTreeRegistry {
    const delimiter: char
    const rootLoggerName: string
    const root: Logger
    var tree: map<string, Logger>

    /** Every logger is filed under its own name (so distinct names hold
        distinct loggers). */
    ghost predicate Named()
      reads this
    {
      forall n :: n in tree ==> tree[n].name == n
    }

    ghost predicate Valid()
      reads this
    {
      && root !in tree.Values
      && root.name == rootLoggerName
      && Named()
      && ParentClosed(tree.Keys, delimiter)
    }

    /** The registered names with their current configurations. */
    ghost function Configs(): (c: Tree)
      reads this, tree.Values
      ensures c.Keys == tree.Keys
      ensures forall n :: n in tree ==> c[n] == LoggerConfig(tree[n].severity, tree[n].sinks)
    {
      map n | n in tree :: LoggerConfig(tree[n].severity, tree[n].sinks)
    }

    /** The view is determined by the loggers' fields. */
    lemma ConfigsPointwise(t: Tree)
      requires t.Keys == tree.Keys
      requires forall n :: n in tree ==> t[n] == LoggerConfig(tree[n].severity, tree[n].sinks)
      ensures Configs() == t
    {
    }

    ghost function RootConfig(): LoggerConfig
      reads root
    {
      LoggerConfig(root.severity, root.sinks)
    }

    /** The root logger is named `rootLoggerName` and starts at Trace with
        no sinks; no other logger is registered. */
    constructor (delim: char := '.', rootLoggerName: string := "root")
      ensures Valid() && fresh(root)
      ensures delimiter == delim && this.rootLoggerName == rootLoggerName
      ensures tree == map[] && root.severity == Trace && root.sinks == []
    {
      delimiter := delim;
      this.rootLoggerName := rootLoggerName;
      root := new Logger.Inheriting(rootLoggerName, Trace, []);
      tree := map[];
    }

    /** `getRootLogger`: the root, which is none of the named loggers. */
    method GetRootLogger() returns (l: Logger)
      requires Valid()
      ensures l == root && l !in tree.Values && l.name == rootLoggerName
    {
      l := root;
    }

    /** `getLoggerList`: the name-to-logger map, without the root; every
        entry is keyed by its logger's name and has all its ancestors. */
    method GetLoggerList() returns (r: map<string, Logger>)
      requires Valid()
      ensures r == tree && root !in r.Values
      ensures forall n :: n in r ==> r[n].name == n && Ancestors(n, delimiter) <= r.Keys
    {
      r := tree;
      forall n | n in r ensures Ancestors(n, delimiter) <= r.Keys {
        AncestorsRegistered(r.Keys, delimiter, n);
      }
    }

    /** `getOrCreate(name)`: the registered logger of that name, created
        together with its missing ancestors on first use. */
    method GetOrCreate(name: string) returns (l: Logger)
      requires Valid()
      modifies this
      ensures Valid() && unchanged(root)
      ensures name in tree && l == tree[name] && l.name == name
      ensures old(name in tree) ==> tree == old(tree) && l == old(tree[name])
      ensures forall n :: n in old(tree) ==> n in tree && tree[n] == old(tree[n])
      ensures forall n :: n in tree && n !in old(tree) ==> fresh(tree[n])
      ensures Configs() == Registered(old(Configs()), old(RootConfig()), name, delimiter)
      ensures forall i :: 0 <= i < |name| && name[i] == delimiter ==> name[..i] in tree
      decreases |name|, 1
    {
      if name in tree {
        l := tree[name];
      } else {
        l := RegisterLogger(name);
      }
      forall i | 0 <= i < |name| && name[i] == delimiter ensures name[..i] in tree {
        AncestorRegistered(tree.Keys, delimiter, name, i);
      }
    }

    /** `registerLogger(name)`: resolve the parent (everything before the
        last delimiter, through `getOrCreate`, or the root), then insert a
        logger holding a copy of the parent's severity and sinks. */
    method RegisterLogger(name: string) returns (l: Logger)
      requires Valid() && name !in tree
      modifies this
      ensures Valid() && unchanged(root)
      ensures name in tree && l == tree[name] && l.name == name
      ensures forall n :: n in old(tree) ==> n in tree && tree[n] == old(tree[n])
      ensures forall n :: n in tree && n !in old(tree) ==> fresh(tree[n])
      ensures Configs() == Registered(old(Configs()), old(RootConfig()), name, delimiter)
      decreases |name|, 0
    {
      var position := LastIndexOf(name, delimiter);
      var parentLogger: Logger;
      if position.Some? {
        parentLogger := GetOrCreate(name[..position.value]);
      } else {
        parentLogger := root;
      }
      var severity := parentLogger.GetSeverity();
      var sinks := parentLogger.GetSinks();
      ghost var before := Configs();
      RegisteredStep(old(Configs()), old(RootConfig()), name, delimiter, before);
      assert LoggerConfig(severity, sinks)
        == if position.None? then old(RootConfig()) else before[name[..position.value]];
      ghost var mid := tree;
      assert name !in mid;
      l := Insert(name, severity, sinks);
      assert forall n :: n in mid ==> tree[n] == mid[n];
    }

    /** The emplace step of `registerLogger`: a new logger under `name`
        with the given severity and sinks. */
    method Insert(name: string, severity: Severity, sinks: seq<SinkId>) returns (l: Logger)
      requires Valid() && name !in tree
      requires ParentName(name, delimiter).None? || ParentName(name, delimiter).value in tree
      modifies this
      ensures Valid() && fresh(l) && tree == old(tree)[name := l]
      ensures l.name == name && l.severity == severity && l.sinks == sinks
      ensures Configs() == old(Configs())[name := LoggerConfig(severity, sinks)]
    {
      ParentClosedInsert(tree.Keys, delimiter, name);
      ghost var before := Configs();
      l := new Logger.Inheriting(name, severity, sinks);
      tree := tree[name := l];
      assert tree.Keys == old(tree).Keys + {name};
      ConfigsPointwise(before[name := LoggerConfig(severity, sinks)]);
    }

    /** One logger's `setSeverity`, seen through the view. */
    method SetLoggerSeverity(name: string, s: Severity)
      requires Named() && name in tree
      modifies tree[name]
      ensures Configs() == old(Configs())[name := old(Configs())[name].(severity := s)]
    {
      ghost var c0 := Configs();
      tree[name].SetSeverity(s);
      ConfigsPointwise(c0[name := c0[name].(severity := s)]);
    }

    /** One logger's `addSink`, seen through the view. */
    method AddLoggerSink(name: string, k: SinkId)
      requires Named() && name in tree
      modifies tree[name]
      ensures Configs() == old(Configs())[name := old(Configs())[name].(sinks := old(Configs())[name].sinks + [k])]
    {
      ghost var c0 := Configs();
      tree[name].AddSink(k);
      ConfigsPointwise(c0[name := c0[name].(sinks := c0[name].sinks + [k])]);
    }

    /** `setBranchSeverity(branchRoot, level)`: UnregisteredKeyException and
        no change for an unknown branch root; otherwise every registered
        name with the branch root as raw prefix gets `level`. */
    method SetBranchSeverity(branchRoot: string, newLevel: Severity) returns (r: Outcome<RegistryError>)
      requires Valid()
      modifies tree.Values
      ensures Valid() && tree == old(tree) && unchanged(root)
      ensures branchRoot !in tree ==> r == Fail(UnregisteredKey(branchRoot)) && unchanged(tree.Values)
      ensures branchRoot in tree ==>
        r == Pass && Configs() == BranchSeverity(old(Configs()), branchRoot, newLevel)
    {
      if branchRoot !in tree {
        return Fail(UnregisteredKey(branchRoot));
      }
      SetLoggerSeverity(branchRoot, newLevel);
      ghost var start := Configs();
      var todo := tree.Keys;
      while todo != {}
        invariant Valid() && tree == old(tree) && todo <= tree.Keys
        invariant Configs() == SeverityOf(start, Matching(tree.Keys - todo, branchRoot), newLevel)
        decreases todo
      {
        var name :| name in todo;
        MatchingStep(tree.Keys, todo, name, branchRoot);
        if BeginsWith(name, branchRoot) {
          SetLoggerSeverity(name, newLevel);
          SeverityOfStep(start, Matching(tree.Keys - todo, branchRoot), newLevel, name);
        }
        todo := todo - {name};
      }
      assert tree.Keys - todo == tree.Keys;
      return Pass;
    }

    /** `setTreeSeverity(level)`: the root and every registered logger. */
    method SetTreeSeverity(newLevel: Severity)
      requires Valid()
      modifies tree.Values, root
      ensures Valid() && tree == old(tree)
      ensures Configs() == TreeSeverity(old(Configs()), newLevel)
      ensures RootConfig() == old(RootConfig()).(severity := newLevel)
    {
      root.SetSeverity(newLevel);
      ghost var start := Configs();
      var todo := tree.Keys;
      while todo != {}
        invariant Valid() && tree == old(tree) && todo <= tree.Keys
        modifies tree.Values
        invariant Configs() == SeverityOf(start, tree.Keys - todo, newLevel)
        decreases todo
      {
        var name :| name in todo;
        VisitStep(tree.Keys, todo, name);
        SetLoggerSeverity(name, newLevel);
        SeverityOfStep(start, tree.Keys - todo, newLevel, name);
        todo := todo - {name};
      }
    }

    /** `addTreeSink(sink)`: appended once to the root and once to every
        registered logger. */
    method AddTreeSink(sink: SinkId)
      requires Valid()
      modifies tree.Values, root
      ensures Valid() && tree == old(tree)
      ensures Configs() == TreeSink(old(Configs()), sink)
      ensures RootConfig() == old(RootConfig()).(sinks := old(root.sinks) + [sink])
    {
      root.AddSink(sink);
      ghost var start := Configs();
      var todo := tree.Keys;
      while todo != {}
        invariant Valid() && tree == old(tree) && todo <= tree.Keys
        modifies tree.Values
        invariant Configs() == SinkTo(start, tree.Keys - todo, sink)
        decreases todo
      {
        var name :| name in todo;
        VisitStep(tree.Keys, todo, name);
        AddLoggerSink(name, sink);
        SinkToStep(start, tree.Keys - todo, sink, name);
        todo := todo - {name};
      }
      assert tree.Keys - todo == tree.Keys;
    }

    /** `addBranchSink(branchRoot, sink)`: UnregisteredKeyException and no
        change for an unknown branch root; otherwise the sink is appended to
        the branch root and then to every name with the branch root as raw
        prefix (so the branch root receives it twice). */
    method AddBranchSink(branchRoot: string, sink: SinkId) returns (r: Outcome<RegistryError>)
      requires Valid()
      modifies tree.Values
      ensures Valid() && tree == old(tree) && unchanged(root)
      ensures branchRoot !in tree ==> r == Fail(UnregisteredKey(branchRoot)) && unchanged(tree.Values)
      ensures branchRoot in tree ==>
        r == Pass && Configs() == BranchSink(old(Configs()), branchRoot, sink)
    {
      if branchRoot !in tree {
        return Fail(UnregisteredKey(branchRoot));
      }
      AddLoggerSink(branchRoot, sink);
      ghost var start := Configs();
      var todo := tree.Keys;
      while todo != {}
        invariant Valid() && tree == old(tree) && todo <= tree.Keys
        invariant Configs() == SinkTo(start, Matching(tree.Keys - todo, branchRoot), sink)
        decreases todo
      {
        var name :| name in todo;
        MatchingStep(tree.Keys, todo, name, branchRoot);
        if BeginsWith(name, branchRoot) {
          AddLoggerSink(name, sink);
          SinkToStep(start, Matching(tree.Keys - todo, branchRoot), sink, name);
        }
        todo := todo - {name};
      }
      assert tree.Keys - todo == tree.Keys;
      return Pass;
    }
  }
}
