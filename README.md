# nealog logger tree, modelled in Dafny

nealog is a small C++ logging library. Its centre is the logger-tree
registry `LoggerTreeRegistry`. The registry maps dotted names such as
`child.subchild.somelogger` to loggers and keeps a separate root logger.

- A lookup of an unknown name creates the logger and every missing ancestor.
- Each new logger starts with a **copy** of its parent's severity and sink list, taken at that moment.
- Branch operations reach every registered name that has the branch root as a raw character prefix.
- Tree operations reach the root and every registered logger.

Around the registry sit the parts its behaviour depends on:

- loggers filter by severity and fan a message out to their sinks, in list order;
- stream sinks filter again by their own severity and append to a shared output stream;
- severities have names, and a `ParseException` is raised for an ordinal that names no level;
- the pattern formatter replaces every `%(message)` token by the message.

The project is nine Dafny modules, one per source area:

| file | module | models |
|---|---|---|
| `wrappers.dfy` | `Wrappers` | `Option`, `Outcome` (pass, or fail with an exception) and `Result` |
| `text.dfy` | `Text` | the `std::string` operations the core uses: `find`, `rfind`, `replace` |
| `utility.dfy` | `Utility` | `utility::beginsWith` |
| `severity.dfy` | `Severities` | `Severity`, `severityToString`, `ParseException` |
| `sinks.dfy` | `Sinks` | `NoopSink` and `StreamSink`, in an arena `SinkPool` |
| `formatter.dfy` | `Formatters` | `PatternFormatter` and `MESSAGE_SUBSTITUTOR` |
| `loggers.dfy` | `Loggers` | `Logger` and `UnregisteredKeyException` |
| `registry.dfy` | `Registry` | `LoggerTreeRegistry` |
| `scenarios.dfy` | `Scenarios` | caller-side call sequences from the registry's tests |

Representation:

- **Sinks** are indices into `SinkPool.sinks`. A stream sink holds the index of an output buffer, a `seq<char>`, or `None` once its stream has been moved away. Sinks that share a stream share a buffer index.
- **Loggers** are a `class Logger` with a constant name, a `severity` and a `sinks: seq<SinkId>`. Callers hold references to loggers and change them, so they are objects.
- **The registry** is a `class LoggerTreeRegistry` with a `tree: map<string, Logger>` field and a constant `root` logger.
- **Specification functions.** Each registry method is proved against a pure function on the abstract view `Configs()`, a map from each name to the logger's (severity, sinks) pair. `Registered` specifies lazy creation. `BranchSeverity`, `BranchSink`, `TreeSeverity` and `TreeSink` specify the update loops. Lemmas then state what these functions mean.
- **Exceptions** become values.
  - The branch operations return `Fail(UnregisteredKey(b))`.
  - `severityToString` returns `Failure(ParseException(...))`.
- **Loggers without sinks.** `Logger::log` forwards to `parent_` when the logger has no sinks (include/nealog_impl/LoggerImpl.h:58-62). Only `ParentHolder::setParentForLogger` calls `setParent` (include/nealog_impl/LoggerImpl.h:126-129). Nothing in the library calls `setParentForLogger`, and `LoggerTreeRegistry` never sets `parent_`. So the model covers loggers with sinks only: `Loggers.Logger.Log` requires a non-empty sink list.
- **Helper steps.** `Registry.LoggerTreeRegistry.Insert` is the `emplace` of `registerLogger`. `SetLoggerSeverity` and `AddLoggerSink` are the single-logger `setSeverity`/`addSink` calls inside the registry's loops.

## Model

| member | source | states |
|---|---|---|
| Text.FindFrom | include/nealog_impl/FormatterImpl.h:20 | `find` from a start position: the result is an occurrence at or after the start, and no occurrence lies between the start and the result; `None` means no occurrence at or after the start |
| Text.Find | include/nealog_impl/FormatterImpl.h:25 | `find(token)` returns the leftmost occurrence, and `None` exactly when the token does not occur |
| Text.LastIndexOf | include/nealog/LoggerRegistry.h:167 | `rfind(delimiter)` returns the position of the last delimiter, and `None` only when the name has none |
| Text.RFind | include/nealog/Utility.h:11 | `rfind(needle, pos)` returns the last occurrence that starts at or before `pos`, and `None` only when no such occurrence exists |
| Text.Replace | include/nealog_impl/FormatterImpl.h:24 | `replace(pos, len, m)`: the text before `pos` is kept, `m` follows it, then the text after the replaced range |
| Utility.BeginsWith | include/nealog/Utility.h:8-16 | true if and only if the needle is a prefix of the haystack |
| Utility.EmptyNeedle | include/nealog/Utility.h:11 | the empty needle begins every haystack |
| Utility.Reflexive | include/nealog/Utility.h:11 | every string begins with itself, which is why a branch root is matched again by the loop |
| Utility.LongerNeedle | include/nealog/Utility.h:11 | a needle longer than the haystack never matches |
| Utility.RawCharacterMatch | include/nealog/Utility.h:11 | the test compares characters, not path segments: "sibling" begins "sibling2.x" |
| Utility.Transitive | include/nealog/Utility.h:8-16 | prefix matching is transitive |
| Severities.SeverityToString | include/nealog_impl/SeverityImpl.h:13-35 | ordinals 0..5 map to "Trace" … "Fatal"; every other ordinal gives ParseException("The given severity could not be parsed"), and only those |
| Severities.LevelsStrictlyOrdered | include/nealog/Severity.h:8-16 | the enumerators have ordinals 0..5 and are strictly increasing, so `>=` on severities is the order Trace < Debug < Info < Warn < Error < Fatal |
| Severities.NamesInjective | include/nealog_impl/SeverityImpl.h:21-32 | two valid levels with the same name are the same level |
| Sinks.WriteResult | include/nealog_impl/SinkImpl.h:115-123 | one write: a buffer gains `m` exactly when the sink is a stream sink targeting that buffer and the message severity reaches the sink's severity; every other buffer is unchanged |
| Sinks.DeliverAppends | include/nealog_impl/LoggerImpl.h:72-78 | after writing through a list of sinks, each buffer holds its old text followed by one copy of `m` per list entry that targets it and accepts the severity |
| Sinks.HitCountAppend | include/nealog_impl/LoggerImpl.h:74-77 | the number of copies a buffer receives from two lists in sequence is the sum of the two counts |
| Sinks.HitCountUntargeted | include/nealog_impl/LoggerImpl.h:74-77 | a buffer that no list entry targets receives nothing |
| Sinks.SoleWriter | include/nealog_impl/LoggerImpl.h:72-78 | a buffer written by exactly one entry of the list receives `m` once if the severity reaches that sink's level, and nothing otherwise |
| Sinks.SinkPool.NewBuffer | test/StreamSinkTest.cpp:22 | a fresh empty `std::stringstream`, as the callers create one before building a stream sink over it; no sink changes |
| Sinks.SinkPool.CreateStreamSink | include/nealog_impl/SinkImpl.h:68-71 | a new stream sink over the given stream, at the default severity Trace; no other sink and no buffer changes |
| Sinks.SinkPool.CreateNoopSink | include/nealog_impl/SinkImpl.h:42-59 | a new NoopSink at the default severity Trace; nothing else changes |
| Sinks.SinkPool.CopyConstruct | include/nealog_impl/SinkImpl.h:75-78 | the copy shares the source's stream and takes its severity; the source is unchanged |
| Sinks.SinkPool.MoveConstruct | include/nealog_impl/SinkImpl.h:82-86 | the new sink takes the source's stream and severity; the source's stream becomes null and its severity stays |
| Sinks.SinkPool.CopyAssign | include/nealog_impl/SinkImpl.h:90-95 | the target shares the source's stream and takes its severity; no other sink changes; self-assignment changes nothing |
| Sinks.SinkPool.MoveAssign | include/nealog_impl/SinkImpl.h:99-104 | the target takes the source's stream and severity and the source's stream becomes null; a self-move changes nothing |
| Sinks.SinkPool.GetType | include/nealog_impl/SinkImpl.h:108-111 | `Stream` for a stream sink and `Noop` for a NoopSink (lines 42-45), in both directions |
| Sinks.SinkPool.GetUnderlyingStream | include/nealog_impl/SinkImpl.h:136-139 | the stream the sink currently holds: null after a move |
| Sinks.SinkPool.SetSeverity | include/nealog_impl/SeverityImpl.h:44-47 | only that sink's severity changes |
| Sinks.SinkPool.GetSeverity | include/nealog_impl/SeverityImpl.h:51-54 | returns the sink's severity and changes nothing |
| Sinks.SinkPool.Write | include/nealog_impl/SinkImpl.h:115-123 | a stream sink appends `m` to its stream exactly when the severity reaches its own; a NoopSink (lines 49-52) leaves every buffer unchanged; no sink changes |
| Sinks.SinkPool.Flush | include/nealog_impl/SinkImpl.h:56-59 | no state changes |
| Formatters.SubstitutorShape | include/nealog/Formatter.h:32 | the token is the 10-character string `%(message)`, with exactly one '%', at its start |
| Formatters.NoPercentNoSubstitutor | include/nealog/Formatter.h:32 | text without '%' contains no token |
| Formatters.FindFirst | include/nealog_impl/FormatterImpl.h:20 | a token with no '%' before it is the one `find` returns |
| Formatters.ReplaceDecreases | include/nealog_impl/FormatterImpl.h:22-26 | for a message shorter than the token or free of '%', each round shortens the text or removes a '%', so the loop ends |
| Formatters.Wrapped | include/nealog_impl/FormatterImpl.h:17-29 | the text the loop returns contains no token (the loop's exit condition) |
| Formatters.WrappedWithoutSubstitutor | include/nealog_impl/FormatterImpl.h:19-28 | a pattern without the token is returned unchanged |
| Formatters.WrappedRewritesLeftmost | include/nealog_impl/FormatterImpl.h:22-26 | each round replaces the leftmost 10-character token by the message and searches again from the start |
| Formatters.SubstitutorInMessageNeverExits | include/nealog_impl/FormatterImpl.h:22-26 | if the message contains the token, every round leaves a token in the text, so the loop's condition never becomes false |
| Formatters.WrapShift | include/nealog_impl/FormatterImpl.h:22-26 | a '%'-free prefix is never rewritten: wrapping `prefix + rest` is the prefix followed by wrapping `rest` |
| Formatters.WrapLeadingToken | include/nealog_impl/FormatterImpl.h:22-26 | a leading token becomes a '%'-free message, and wrapping continues on the text after it |
| Formatters.WrapReplacesEvery | include/nealog_impl/FormatterImpl.h:17-29 | every token is replaced: '%'-free parts joined by tokens, wrapped around a '%'-free message, become the same parts joined by the message |
| Formatters.WrapTwoTokens | include/nealog_impl/FormatterImpl.h:17-29 | two tokens with text between and after them: `p0 %(message) p1 %(message) p2` becomes `p0 msg p1 msg p2` |
| Formatters.WrapSingleToken | include/nealog_impl/FormatterImpl.h:17-29 | a '%'-free prefix followed by one token, wrapped around a '%'-free message, gives the prefix followed by the message |
| Formatters.WrapExample | include/nealog_impl/FormatterImpl.h:17-29 | "super %(message)" (written as "super " followed by the token) wrapped around "Lorem" is "super Lorem" |
| Formatters.PatternFormatter.GetPattern | include/nealog_impl/FormatterImpl.h:11-13 | the pattern given to the constructor (getPattern, lines 31-34) |
| Formatters.PatternFormatter.WrapMessageWithPattern | include/nealog_impl/FormatterImpl.h:17-29 | the loop computes `Wrapped(pattern, msg)`: its result has no token, and a pattern without the token comes back unchanged |
| Formatters.PatternFormatter.Format | include/nealog/Formatter.h:45-56 | an empty pattern passes the message itself to the formatting call; a non-empty one passes the wrapped message |
| Formatters.FormatHidesSubstitutor | include/nealog/Formatter.h:48-55 | with a non-empty pattern, the text reaching the formatting call contains no token |
| Formatters.PatternWithoutSubstitutorDropsMessage | include/nealog/Formatter.h:48-55 | a non-empty pattern without the token formats the pattern alone, so the message is lost |
| Formatters.WrapsBeforeSubstitution | include/nealog/Formatter.h:48-55 | wrapping happens before argument substitution: "oh %(message)" (written as "oh " followed by the token) with "hello{} mum" hands "oh hello{} mum" to the formatting call, which fills the placeholder afterwards |
| Loggers.RegistryError.Message | include/nealog_impl/LoggerImpl.h:141-146 | the text is `No logger with key "` followed by the key and `" registered` |
| Loggers.MessageIdentifiesKey | include/nealog_impl/LoggerImpl.h:141-146 | two exception messages are equal only for the same key |
| Loggers.Emit | include/nealog_impl/LoggerImpl.h:64-67 | below the logger's severity no buffer changes |
| Loggers.EmitAppends | include/nealog_impl/LoggerImpl.h:56-78 | what one buffer receives from `log`: one copy of `m` per targeting sink that accepts the severity, and only if the severity reaches the logger's own |
| Loggers.FilteredByLoggerAndSink | include/nealog_impl/LoggerImpl.h:64-66 | a sink's buffer receives `m` if and only if the severity reaches both the logger's and that sink's severity |
| Loggers.Logger.constructor | include/nealog_impl/LoggerImpl.h:42-45 | a logger with the given name, severity Trace (include/nealog/Severity.h:37) and no sinks |
| Loggers.Logger.Inheriting | include/nealog/Logger.h:25-26 | a logger holding the given name, severity and copy of a sink list |
| Loggers.Logger.AddSink | include/nealog_impl/LoggerImpl.h:49-52 | appends at the end, without removing duplicates; the length grows by one, earlier entries and the severity stay |
| Loggers.Logger.SetSeverity | include/nealog_impl/SeverityImpl.h:44-47 | the severity becomes `s` and the sink list stays |
| Loggers.Logger.GetSeverity | include/nealog_impl/SeverityImpl.h:51-54 | the severity last set, read without changing anything |
| Loggers.Logger.GetSinks | include/nealog_impl/LoggerImpl.h:22-25 | the sink list, as a value: changing it cannot change the logger |
| Loggers.Logger.WriteToSinks | include/nealog_impl/LoggerImpl.h:72-78 | writes through every sink in list order: the buffers become `Deliver(...)` of the old ones, and no sink changes |
| Loggers.Logger.Log | include/nealog_impl/LoggerImpl.h:56-68 | with a non-empty sink list: nothing is written below the logger's severity, otherwise `m` goes to every sink (Emit) |
| Loggers.Logger.LogTrace | include/nealog_impl/LoggerImpl.h:82-85 | the same effect as `log(Trace, m)` |
| Loggers.Logger.LogDebug | include/nealog_impl/LoggerImpl.h:89-92 | the same effect as `log(Debug, m)` |
| Loggers.Logger.LogInfo | include/nealog_impl/LoggerImpl.h:96-99 | the same effect as `log(Info, m)` |
| Loggers.Logger.LogWarn | include/nealog_impl/LoggerImpl.h:103-106 | the same effect as `log(Warn, m)` |
| Loggers.Logger.LogError | include/nealog_impl/LoggerImpl.h:110-113 | the same effect as `log(Error, m)` |
| Loggers.Logger.LogFatal | include/nealog_impl/LoggerImpl.h:117-120 | the same effect as `log(Fatal, m)` |
| Registry.ParentName | include/nealog/LoggerRegistry.h:167-170 | the parent's name is the part before the last delimiter, so it is a strictly shorter prefix followed by the delimiter; there is no parent exactly when the name has no delimiter |
| Registry.ParentAtLastDelimiter | include/nealog/LoggerRegistry.h:167 | no delimiter lies between the parent's end and the end of the name |
| Registry.AncestorRegistered | include/nealog/LoggerRegistry.h:165-175 | in a parent-closed set of names, every prefix that ends just before a delimiter is registered |
| Registry.AncestorsRegistered | include/nealog/LoggerRegistry.h:165-175 | in a parent-closed set of names, all ancestors of a registered name are registered |
| Registry.AncestorsOfParent | include/nealog/LoggerRegistry.h:167-170 | a name's ancestors are its parent and the parent's ancestors |
| Registry.NoAncestors | include/nealog/LoggerRegistry.h:176-181 | a name without a delimiter has no ancestors |
| Registry.Registered | include/nealog/LoggerRegistry.h:64-77 | a lookup adds the name, keeps every existing entry as it was, adds only prefixes of the name, and changes nothing for a registered name |
| Registry.RegisteredParentClosed | include/nealog/LoggerRegistry.h:165-175 | lazy creation keeps every ancestor of every name registered |
| Registry.RegisteredKeys | include/nealog/LoggerRegistry.h:165-175 | the new key set is the old one plus the name and all its ancestors, and nothing else |
| Registry.RegisteredInheritsParent | include/nealog/LoggerRegistry.h:167-181 | every logger a lookup creates holds its parent's configuration (the root's when the name has no delimiter), and the parent is registered |
| Registry.RegisteredCopiesNearest | include/nealog/LoggerRegistry.h:167-181 | all loggers created by one lookup share the configuration of the nearest ancestor that was already registered, or of the root |
| Registry.RegisteredFromEmpty | include/nealog/LoggerRegistry.h:176-181 | from an empty registry, every created logger copies the root's configuration at the time of the call |
| Registry.RegisteredIdempotent | include/nealog/LoggerRegistry.h:67-72 | a second lookup of the same name changes nothing, whatever the root has become |
| Registry.ParentOfAppend | include/nealog/LoggerRegistry.h:167-170 | the parent of `a.b`, where `b` has no delimiter, is `a` |
| Registry.RegistersChain | include/nealog/LoggerRegistry.h:165-175 | from an empty registry, looking up `a.b.c` registers exactly `a`, `a.b` and `a.b.c` |
| Registry.BranchSeverityExact | include/nealog/LoggerRegistry.h:93-108 | exactly the names with the branch root as raw prefix get the new severity; every other name keeps its severity, no sink list changes and no name is added |
| Registry.BranchSinkExact | include/nealog/LoggerRegistry.h:143-158 | every other name with the branch root as raw prefix gets the sink once; the branch root gets it twice (line 146 and the loop); other names and all severities are untouched |
| Registry.TreeOperationsExact | include/nealog/LoggerRegistry.h:114-135 | the tree operations give every named logger the new severity, or append the sink exactly once to each sink list |
| Registry.BranchOvermatchesSiblings | include/nealog/LoggerRegistry.h:102-108 | the branch "sibling" also reaches "sibling2" and "sibling2.x" |
| Registry.BranchReachesDescendants | include/nealog/LoggerRegistry.h:102-108 | every dotted descendant of the branch root gets the new severity |
| Registry.LoggerTreeRegistry.constructor | include/nealog/LoggerRegistry.h:22-25 | delimiter '.' and root name "root" by default; the root logger has severity Trace and no sinks; no names are registered |
| Registry.LoggerTreeRegistry.GetRootLogger | include/nealog/LoggerRegistry.h:55-59 | the root logger, which bears the root name and is not filed in the tree |
| Registry.LoggerTreeRegistry.GetLoggerList | include/nealog/LoggerRegistry.h:80-85 | the name-to-logger map; every logger is filed under its own name with all its ancestors present, and the root is not in it |
| Registry.LoggerTreeRegistry.GetOrCreate | include/nealog/LoggerRegistry.h:64-77 | returns the logger filed under the name; for a registered name the same instance and an unchanged map; otherwise existing loggers stay, the new ones are fresh, the configurations follow `Registered`, every ancestor is registered, and the root is not touched |
| Registry.LoggerTreeRegistry.RegisterLogger | include/nealog/LoggerRegistry.h:165-184 | the parent (before the last delimiter) is looked up or created first, or the root is used; the new logger copies the parent's severity and sinks |
| Registry.LoggerTreeRegistry.Insert | include/nealog/LoggerRegistry.h:172-174 | `emplace`: exactly one new fresh logger is filed under the name with the given severity and sinks |
| Registry.LoggerTreeRegistry.SetBranchSeverity | include/nealog/LoggerRegistry.h:89-109 | an unknown branch root gives UnregisteredKeyException and changes no logger; otherwise the configurations become `BranchSeverity` of the old ones; the root and the set of names never change |
| Registry.LoggerTreeRegistry.SetTreeSeverity | include/nealog/LoggerRegistry.h:113-122 | the root and every registered logger get the new severity (`TreeSeverity`); sinks and names stay |
| Registry.LoggerTreeRegistry.AddTreeSink | include/nealog/LoggerRegistry.h:126-135 | the sink is appended once to the root and once to every registered logger (`TreeSink`) |
| Registry.LoggerTreeRegistry.AddBranchSink | include/nealog/LoggerRegistry.h:139-159 | an unknown branch root gives UnregisteredKeyException and changes no logger; otherwise the configurations become `BranchSink` of the old ones; the root and the set of names never change |
| Scenarios.SnapshotAfterRootChange | test/LoggerTreeRegistryTest.cpp:115-198 | a child created after the root got Error and one sink keeps Error and that one sink after the root changes to Info and gains a second sink |
| Scenarios.InheritsDownTheChain | test/LoggerTreeRegistryTest.cpp:170-184 | looking up `a.b.c` in a fresh registry registers exactly `a`, `a.b`, `a.b.c`, all with the root's severity |
| Scenarios.LookupTwice | test/LoggerTreeRegistryTest.cpp:35-41 | two lookups of one name return the same logger, even when the root changed in between |
| Scenarios.UnknownBranch | include/nealog/LoggerRegistry.h:93-101 | on a fresh registry, both branch operations on any name fail with UnregisteredKeyException for that name (this throw, and the one at lines 143-151) |
| Scenarios.InnerSegmentsAreNotKeys | test/LoggerTreeRegistryTest.cpp:265-274 | (with the severity test at lines 321-331) after `a.b.c` and `d.e.f` are registered, `addBranchSink(b)` and `setBranchSeverity(e)` fail with UnregisteredKeyException for those names, and `b` and `e` are not keys while both full names are |

## Left out

- Locking and threading are not modelled: `FakeMutex`/`RealMutex`, the `scoped_lock`s of the registry, the sinks' `mutex_`, and the multithreaded tests. The model is single-threaded and sequential.
- `fmt::format` (include/nealog/Formatter.h:23-27) is a foreign library. `Formatters.PatternFormatter.Format` takes it as a parameter `fmt: string -> string`, with the arguments already bound.
- Real `std::ostream` I/O is not modelled. This covers `rdbuf` sharing, `std::cout`/`StdOutSink`, and what `flush` does to the device. A stream is a buffer index whose content is a `seq<char>`, and flush is a no-op on it. The index stands for the stream's `rdbuf`, not for the `std::ostream` object. Each `StreamSink` constructor allocates its own `std::ostream` over that `rdbuf` (include/nealog_impl/SinkImpl.h:68-71). So two sinks built over one stream return the same `Sinks.SinkPool.GetUnderlyingStream` in the model but distinct pointers in the source; only copies share a pointer there.
- Registry.LoggerTreeRegistry.GetLoggerList: returns the map by value. The source returns a `const` reference to the live map (include/nealog/LoggerRegistry.h:28, 80-85), so names a later `getOrCreate` inserts show through it. In the model only the `Logger` objects the map holds are shared; its key set is a snapshot taken at the call.
- The registry's map keys are `std::string_view`s pointing at caller-owned strings; that is a lifetime question. The model uses owned `string` keys.
- Live parent delegation is not modelled. With an empty sink list, `log` forwards to `parent_` (include/nealog_impl/LoggerImpl.h:58-62). Only `ParentHolder::setParentForLogger` calls `setParent` (include/nealog_impl/LoggerImpl.h:126-129). Nothing in the library calls `setParentForLogger`, and `LoggerTreeRegistry` never sets `parent_`, so for a registry logger with no sinks line 60 dereferences a null `parent_`.
- Loggers.Logger.Log: requires a non-empty sink list. The source instead forwards to `parent_` in that case. The same precondition holds for `LogTrace` … `LogFatal`.
- `setFormatter`, `getFormatter` and `getName` are declared, but no definition is part of this model. `log` never calls a formatter.
- The two- and three-argument `Logger` constructors (include/nealog/Logger.h:25-26) have no definition in the source. `Loggers.Logger.Inheriting` builds a logger from (name, severity, copied sinks). The expectation that this constructor removes a `NoopSink` (test/LoggerTest.cpp:52-58) is not modelled.
- test/LoggerRegistryTest.cpp, `SinkFactory`, `shared_ptr` ownership, virtual dispatch and the `dynamic_cast` helpers are not modelled. They belong to an older API or to language plumbing.
- Formatters.PatternFormatter.WrapMessageWithPattern: requires a message shorter than the token or free of '%', so that the loop provably ends. A message that contains the token makes the source loop forever: `Formatters.SubstitutorInMessageNeverExits` states this. A long message that contains a '%' but no token is outside the model.
- Formatters.PatternFormatter.Format: requires the same of the message when the pattern is non-empty.
- Sinks.SinkPool.Write: requires a stream sink to hold a stream. Writing through a moved-from sink dereferences null in the source.
- Sinks.SinkPool.Flush: requires the same, for the same reason.
- Sinks.SinkPool.CopyConstruct: requires the source to be a stream sink, as the C++ types demand. The same holds for `MoveConstruct`, `CopyAssign` and `MoveAssign`.
- The registry loops visit the names in an unspecified order. The source visits them in `unordered_map` order. The outcome does not depend on the order, and the model does not fix one.
- Segment-aware prefix matching is not repaired. The raw-prefix overmatch and the duplicate sink on the branch root are stated as lemmas (`Registry.BranchOvermatchesSiblings`, `Registry.BranchSinkExact`).
